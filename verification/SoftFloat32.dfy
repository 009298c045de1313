/** Single-precision rounding, multiplication and division as src/halfix/softfloat.c performs them
    on words, proved to round the exact result correctly. */
module SoftFloat32 {
  import opened Words
  import opened Rounding

  datatype Flag = Invalid | Denormal | DivByZero | Overflow | Underflow | Inexact | RoundedUp

  const SIGN := 0x8000_0000

  // --- Rounding away the low seven bits of a significand ---

  function Increment(dir: Direction): nat {
    match dir case Truncate => 0 case Enlarge => 0x7F case Nearest => 0x40
  }

  /** The significand after adding the increment and dropping seven bits; a tie clears bit 0. */
  function RoundSig(dir: Direction, z: nat): nat {
    var r := (z + Increment(dir)) / 128;
    if dir == Nearest && z % 128 == 0x40 then r - r % 2 else r
  }

  /** Rounding seven bits off is the choice between the two neighbouring multiples of 128. */
  lemma RoundSigPicks(dir: Direction, z: nat)
    ensures var f := z / 128;
            RoundSig(dir, z) == if GoesUp(dir, f % 2 == 1, f * 128, f * 128 + 128, z) then f + 1 else f
    ensures z % 128 == 0 ==> RoundSig(dir, z) == z / 128
  {
  }

  /** The choice is the same for an exact value that the word stands for. */
  lemma StandsGoesUp(dir: Direction, z: nat, num: nat, den: nat, low: nat, high: nat)
    requires den > 0 && Stands(z, num, den, 64)
    requires low == z / 128 * (den * 128) && high == low + den * 128
    ensures low <= num < high && (low == num <==> z % 128 == 0)
    ensures RoundSig(dir, z) == if GoesUp(dir, z / 128 % 2 == 1, low, high, num) then z / 128 + 1 else z / 128
  {
    var t := z / 128 * 128;
    Regroup(z / 128, den, 128);
    StandsCompares(z, num, den, t);
    StandsCompares(z, num, den, t + 64);
    StandsCompares(z, num, den, t + 128);
    Distribute(t, 64, den);
    Distribute(t, 128, den);
    RoundSigPicks(dir, z);
    hide Stands, RoundSig;
  }

  lemma Distribute(a: nat, b: nat, d: nat)
    ensures (a + b) * d == a * d + b * d
  {
  }

  /** Scaling all three numbers does not change the choice. */
  lemma ScaledGoesUp(dir: Direction, odd: bool, low: nat, high: nat, n: nat, p: nat)
    requires p > 0
    ensures GoesUp(dir, odd, low * p, high * p, n * p) == GoesUp(dir, odd, low, high, n)
    ensures low <= n < high ==> low * p <= n * p < high * p
    ensures low * p == n * p <==> low == n
    ensures high * p > n * p <==> high > n
  {
    MulMono(low, n, p);
    MulMono(n, low, p);
    MulMono(n, high, p);
    MulMono(high, n, p);
    MulMono(low + high, n + n, p);
    MulMono(n + n, low + high, p);
    Distribute(low, high, p);
    Distribute(n, n, p);
  }

  lemma SwapFactors(a: nat, b: nat, c: nat)
    ensures (a * b) * c == (a * c) * b
  {
  }

  lemma ScaledOver(e: nat, f: nat, d: nat)
    requires f <= 2 * FRACTION && (e == 0 || f >= FRACTION)
    ensures Over(e * FRACTION + f, d) == f * d * Pow2(e)
  {
    ValueOf(e, f);
    SwapFactors(f, Pow2(e), d);
    hide Value, Pow2;
  }

  /** The packed result of rounding `z` is the correct rounding of the exact value it stands for. */
  lemma RoundedIsCorrect(dir: Direction, z: nat, num: nat, den: nat, e: nat)
    requires den > 0 && Stands(z, num, den, 64) && z < SIGN && e <= 0xFD && (e == 0 || z >= 0x4000_0000)
    ensures Rounds(dir, num * Pow2(e), den * 128, e * FRACTION + RoundSig(dir, z))
    ensures num * Pow2(e) < Over(INFINITY, den * 128)
    ensures Over(e * FRACTION + RoundSig(dir, z), den * 128) == num * Pow2(e) <==> z % 128 == 0
    ensures Over(e * FRACTION + RoundSig(dir, z), den * 128) > num * Pow2(e) <==> RoundSig(dir, z) * 128 > z
  {
    hide Stands, RoundSig, Over, GoesUp, Value, Pow2, Rounds;
    var f, d, p := z / 128, den * 128, Pow2(e);
    var low, high := f * d, (f + 1) * d;
    Distribute(f, 1, d);
    StandsGoesUp(dir, z, num, den, low, high);
    ScaledOver(e, f, d);
    ScaledOver(e, f + 1, d);
    ScaledGoesUp(dir, f % 2 == 1, low, high, num, p);
    OverMono(e * FRACTION + f + 1, INFINITY, d);
    Conclude(dir, e * FRACTION + f, f % 2 == 1, num * p, d, low * p, high * p, RoundSig(dir, z) == f + 1);
    RoundSigPicks(dir, z);
  }

  lemma Conclude(dir: Direction, c: nat, odd: bool, num: nat, den: nat, low: nat, high: nat, up: bool)
    requires c <= LARGEST && odd == (c % 2 == 1) && Over(c, den) == low && Over(c + 1, den) == high && low <= num < high
    requires up == GoesUp(dir, odd, low, high, num)
    ensures den > 0 ==> Rounds(dir, num, den, if up then c + 1 else c)
  {
    if den > 0 {
      OverMono(c + 1, INFINITY, den);
      assert Between(c, num, den);
    }
  }

  // --- What rounding and packing promises ---

  /** A word `z` with exponent `exp` has the magnitude z * 2^exp / 128; so the exact value it stands
      for is Num / Den. */
  ghost function Num(num: nat, exp: int): nat {
    if exp >= 0 then num * Pow2(exp) else num
  }

  ghost function Den(den: nat, exp: int): nat {
    if exp >= 0 then den * 128 else (den * Pow2(-exp)) * 128
  }

  /** Rounded to 24 bits with an unbounded exponent, the value stays below the smallest normal number. */
  ghost predicate Tiny(dir: Direction, num: nat, den: nat) {
    match dir
    case Truncate => num < FRACTION * den
    case Enlarge => 2 * num <= (2 * FRACTION - 1) * den
    case Nearest => 4 * num < (4 * FRACTION - 1) * den
  }

  /** The rounded magnitude, with an unbounded exponent, exceeds the largest finite one. */
  ghost predicate TooLarge(num: nat, den: nat, m: nat) {
    m == INFINITY || num >= Over(INFINITY, den)
  }

  /** The exceptions of rounding the exact value num / den to `m`, when all are masked. */
  ghost function Raised(dir: Direction, num: nat, den: nat, m: nat): set<Flag> {
    var overflow, exact := TooLarge(num, den, m), Over(m, den) == num;
    (if overflow then {Overflow} else {})
    + (if overflow || !exact then {Inexact} else {})
    + (if Tiny(dir, num, den) && !exact then {Underflow} else {})
    + (if m == INFINITY || Over(m, den) > num then {RoundedUp} else {})
  }

  /** A normalized word that stands for the exact significand num / den, with its exponent. */
  ghost predicate Packable(exp: int, sig: nat, num: nat, den: nat) {
    den > 0 && Stands(sig, num, den, 64) && 0x4000_0000 <= sig < SIGN && -0x8000 <= exp < 0x8000
  }

  /** The source's test for a tiny result, on the word. */
  lemma TinyTest(dir: Direction, exp: int, sig: nat, num: nat, den: nat)
    requires Packable(exp, sig, num, den)
    ensures exp < 0 ==> (Tiny(dir, Num(num, exp), Den(den, exp)) <==> exp < -1 || sig + Increment(dir) < SIGN)
    ensures exp >= 0 ==> !Tiny(dir, Num(num, exp), Den(den, exp))
  {
    if exp < -1 {
      TinyFar(dir, exp, sig, num, den);
    } else if exp == -1 {
      TinyNear(dir, sig, num, den);
    } else {
      NotTiny(dir, exp, sig, num, den);
    }
    hide Tiny, Stands;
  }

  lemma TinyNear(dir: Direction, sig: nat, num: nat, den: nat)
    requires Packable(-1, sig, num, den)
    ensures Tiny(dir, Num(num, -1), Den(den, -1)) <==> sig + Increment(dir) < SIGN
  {
    assert Pow2(1) == 2 && Den(den, -1) == den * 256;
    StandsCompares(sig, num, den, SIGN);
    StandsCompares(sig, num, den, SIGN - 128);
    StandsCompares(sig, num, den, SIGN - 64);
    hide Stands;
  }

  lemma TinyFar(dir: Direction, exp: int, sig: nat, num: nat, den: nat)
    requires Packable(exp, sig, num, den) && exp < -1
    ensures Tiny(dir, Num(num, exp), Den(den, exp))
  {
    StandsCompares(sig, num, den, SIGN);
    Pow2Mono(2, -exp);
    assert Pow2(2) == 4;
    MulMono(4, Pow2(-exp), den);
    hide Stands, Pow2;
  }

  lemma NotTiny(dir: Direction, exp: int, sig: nat, num: nat, den: nat)
    requires Packable(exp, sig, num, den) && exp >= 0
    ensures !Tiny(dir, Num(num, exp), Den(den, exp))
  {
    StandsCompares(sig, num, den, 0x4000_0000);
    MulMono(1, Pow2(exp), num);
    hide Stands, Pow2;
  }

  /** A word too large for any exponent field is at least as large as infinity's neighbour. */
  lemma TooLargeTest(exp: int, sig: nat, num: nat, den: nat)
    requires Packable(exp, sig, num, den) && exp > 0xFD
    ensures Num(num, exp) >= Over(INFINITY, Den(den, exp))
  {
    StandsCompares(sig, num, den, 0x4000_0000);
    ScaledOver(0xFE, FRACTION, den * 128);
    assert 0xFE * FRACTION + FRACTION == INFINITY;
    Pow2Mono(0xFE, exp);
    MulMono(0x4000_0000 * den, num, Pow2(0xFE));
    MulMono(Pow2(0xFE), Pow2(exp), num);
    hide Stands, Pow2, Over;
  }

  /** Shifting a word right by -exp with jamming stands for the value at exponent 0. */
  lemma Denormalized(exp: int, sig: nat, num: nat, den: nat)
    requires Packable(exp, sig, num, den) && exp < 0
    ensures var z := ShiftRightJamming(sig, -exp, 32);
            Stands(z, num, den * Pow2(-exp), 64) && z < SIGN
  {
    var p := Pow2(-exp);
    assert p == 2 * Pow2(-exp - 1);
    hide Stands, Quotient, Pow2, ShiftRightJamming, Jam;
    Pow2Values();
    JammingIs(sig, -exp, 32);
    JamStands(sig, num, den, p, Quotient(sig, p));
    JammedBelow(sig, p, Quotient(sig, p));
  }

  lemma JammedBelow(a: nat, p: nat, q: nat)
    requires q * p <= a < SIGN && p >= 2
    ensures forall lost :: Jam(q, lost) < SIGN
  {
    MulMono(2, p, q);
  }

  /** The source's overflow test, on the word. */
  predicate OverflowTest(dir: Direction, exp: int, sig: nat) {
    exp > 0xFD || (exp == 0xFD && sig + Increment(dir) >= SIGN)
  }

  lemma OverflowIsCorrect(dir: Direction, exp: int, sig: nat, num: nat, den: nat)
    requires Packable(exp, sig, num, den) && OverflowTest(dir, exp, sig)
    ensures var m := INFINITY - if Increment(dir) == 0 then 1 else 0;
            && Rounds(dir, Num(num, exp), Den(den, exp), m)
            && Raised(dir, Num(num, exp), Den(den, exp), m)
               == {Overflow, Inexact} + if Increment(dir) == 0 then {} else {RoundedUp}
  {
    TinyTest(dir, exp, sig, num, den);
    hide Tiny, Stands, Over, Num, Rounds, Raised;
    if exp > 0xFD {
      TooLargeTest(exp, sig, num, den);
      TooLargeOutcome(dir, Num(num, exp), Den(den, exp));
    } else {
      CarryIsInfinity(dir, exp, sig, num, den);
    }
  }

  lemma TooLargeOutcome(dir: Direction, num: nat, den: nat)
    requires den > 0 && num >= Over(INFINITY, den) && !Tiny(dir, num, den)
    ensures var m := INFINITY - if Increment(dir) == 0 then 1 else 0;
            && Rounds(dir, num, den, m)
            && Raised(dir, num, den, m) == {Overflow, Inexact} + if Increment(dir) == 0 then {} else {RoundedUp}
  {
    OverMono(LARGEST, INFINITY, den);
    hide Tiny, Over;
  }

  lemma CarryIsInfinity(dir: Direction, exp: int, sig: nat, num: nat, den: nat)
    requires Packable(exp, sig, num, den) && exp == 0xFD && sig + Increment(dir) >= SIGN
    requires !Tiny(dir, Num(num, exp), Den(den, exp))
    ensures Increment(dir) != 0 && Rounds(dir, Num(num, exp), Den(den, exp), INFINITY)
    ensures Raised(dir, Num(num, exp), Den(den, exp), INFINITY) == {Overflow, Inexact, RoundedUp}
  {
    hide Tiny, Stands, Over, Rounds, RoundSig, Increment, Raised, Pow2;
    CarryOut(dir, sig);
    RoundedIsCorrect(dir, sig, num, den, exp);
    assert exp * FRACTION + RoundSig(dir, sig) == INFINITY;
    RaisedAtInfinity(dir, Num(num, exp), Den(den, exp));
  }

  lemma RaisedAtInfinity(dir: Direction, num: nat, den: nat)
    requires !Tiny(dir, num, den)
    ensures Raised(dir, num, den, INFINITY) == {Overflow, Inexact, RoundedUp}
  {
    hide Tiny, Over;
  }

  lemma CarryOut(dir: Direction, sig: nat)
    requires sig < SIGN && sig + Increment(dir) >= SIGN
    ensures Increment(dir) != 0 && RoundSig(dir, sig) == 2 * FRACTION && sig % 128 != 0
  {
    assert (sig + Increment(dir)) / 128 == 2 * FRACTION;
  }

  /** The exceptions of rounding seven bits off. */
  function SigFlags(dir: Direction, sig: nat): set<Flag> {
    (if sig % 128 != 0 then {Inexact} else {}) + (if RoundSig(dir, sig) * 128 > sig then {RoundedUp} else {})
  }

  /** Rounding at an exponent in range, without overflow. */
  lemma InRangeIsCorrect(dir: Direction, exp: int, sig: nat, num: nat, den: nat)
    requires Packable(exp, sig, num, den) && exp >= 0 && !OverflowTest(dir, exp, sig)
    ensures var m := exp * FRACTION + RoundSig(dir, sig);
            && Rounds(dir, Num(num, exp), Den(den, exp), m) && m < INFINITY && RoundSig(dir, sig) > 0
            && Raised(dir, Num(num, exp), Den(den, exp), m) == SigFlags(dir, sig)
  {
    TinyTest(dir, exp, sig, num, den);
    RoundedIsCorrect(dir, sig, num, den, exp);
    RoundSigPicks(dir, sig);
    hide Tiny, Stands, Over, Rounds;
  }

  /** Rounding a word at exponent 0. */
  lemma DenormalOutcome(dir: Direction, z: nat, num: nat, den: nat)
    requires den > 0 && Stands(z, num, den, 64) && z < SIGN
    ensures var r := RoundSig(dir, z);
            && Rounds(dir, num, den * 128, r) && r < INFINITY
            && Raised(dir, num, den * 128, r)
               == SigFlags(dir, z) + (if Tiny(dir, num, den * 128) && z % 128 != 0 then {Underflow} else {})
  {
    RoundedIsCorrect(dir, z, num, den, 0);
    assert num * Pow2(0) == num && 0 * FRACTION + RoundSig(dir, z) == RoundSig(dir, z);
    hide Tiny, Stands, Over, Rounds;
  }

  /** Rounding below the normal range: shift with jamming, then round at exponent 0. */
  lemma DenormalIsCorrect(dir: Direction, exp: int, sig: nat, num: nat, den: nat)
    requires Packable(exp, sig, num, den) && exp < 0
    ensures var z := ShiftRightJamming(sig, -exp, 32); var r := RoundSig(dir, z);
            && z < SIGN && Rounds(dir, Num(num, exp), Den(den, exp), r) && r < INFINITY
            && Raised(dir, Num(num, exp), Den(den, exp), r)
               == SigFlags(dir, z) + (if (exp < -1 || sig + Increment(dir) < SIGN)
                  && z % 128 != 0 then {Underflow} else {})
  {
    hide Tiny, Stands, Over, Rounds, ShiftRightJamming, Raised, RoundSig, Increment, SigFlags;
    TinyTest(dir, exp, sig, num, den);
    Denormalized(exp, sig, num, den);
    DenormalOutcome(dir, ShiftRightJamming(sig, -exp, 32), num, den * Pow2(-exp));
  }

  // --- The outcome for every choice of masks and flushing, stated on the exact value ---

  /** An unmasked underflow delivers the value scaled up by this power of two. */
  const UNDERFLOW_BIAS := 192

  ghost predicate Trapped(dir: Direction, num: nat, den: nat, masks: set<Flag>) {
    Tiny(dir, num, den) && Underflow !in masks
  }

  /** The value that is rounded. */
  ghost function Delivered(dir: Direction, num: nat, den: nat, masks: set<Flag>): nat {
    if Trapped(dir, num, den, masks) then num * Pow2(UNDERFLOW_BIAS) else num
  }

  /** A tiny result is flushed, one that is scaled up only if it is below the normal range even so. */
  ghost predicate Flushes(dir: Direction, num: nat, den: nat, masks: set<Flag>, flush: bool) {
    flush && Tiny(dir, num, den) && Delivered(dir, num, den, masks) < FRACTION * den
  }

  ghost predicate ShortAs(num: nat, den: nat, s: nat, e: nat) {
    FRACTION <= s < 2 * FRACTION && num == s * (Pow2(e) * den)
  }

  /** The value is a 24-bit integer times a power of two. */
  ghost predicate Short(num: nat, den: nat) { exists s: nat, e: nat :: ShortAs(num, den, s, e) }

  /** `m` is the encoding that the exact magnitude num / den is rounded to. */
  ghost predicate RoundsTo(dir: Direction, num: nat, den: nat, masks: set<Flag>, flush: bool, m: nat) {
    if Flushes(dir, num, den, masks, flush) then m == 0 else Rounds(dir, Delivered(dir, num, den, masks), den, m)
  }

  /** The exceptions this raises: an unmasked underflow for every tiny value, and with an unmasked overflow inexact
      only for a value that is not short. */
  ghost function Raises(dir: Direction, num: nat, den: nat, masks: set<Flag>, flush: bool, m: nat): set<Flag> {
    var raised := Raised(dir, Delivered(dir, num, den, masks), den, m);
    if Flushes(dir, num, den, masks, flush) then {Underflow, Inexact}
    else if Trapped(dir, num, den, masks) then raised + {Underflow}
    else if Overflow in raised && Overflow !in masks && Short(num, den) then {Overflow}
    else raised
  }

  // --- Packing, on the word ---

  datatype Packing = Packing(code: nat, raised: set<Flag>)

  /** At an exponent in range. */
  function PackNormal(dir: Direction, exp: nat, sig: nat): Packing {
    var r := RoundSig(dir, sig);
    Packing(if r == 0 then 0 else exp * FRACTION + r, SigFlags(dir, sig))
  }

  /** Below the normal range, the word already shifted. */
  function PackSmall(dir: Direction, flush: bool, tiny: bool, sig: nat): Packing {
    if tiny && flush then Packing(0, {Underflow, Inexact})
    else Packing(RoundSig(dir, sig), SigFlags(dir, sig) + if tiny && sig % 128 != 0 then {Underflow} else {})
  }

  function PackBelow(dir: Direction, masks: set<Flag>, flush: bool, exp: int, sig: nat): Packing
    requires exp < 0
  {
    var tiny := exp < -1 || sig + Increment(dir) < SIGN;
    var e := if tiny && Underflow !in masks then exp + UNDERFLOW_BIAS else exp;
    var p := if e < 0 then PackSmall(dir, flush, tiny, ShiftRightJamming(sig, -e, 32)) else PackNormal(dir, e, sig);
    if tiny && Underflow !in masks then p.(raised := p.raised + {Underflow}) else p
  }

  function PackOver(dir: Direction, masks: set<Flag>, sig: nat): Packing {
    if Increment(dir) == 0 then
      Packing(LARGEST, {Overflow} + if sig % 128 != 0 || Overflow in masks then {Inexact} else {})
    else
      Packing(INFINITY, {Overflow} + if sig % 128 != 0 || Overflow in masks then {Inexact, RoundedUp} else {})
  }

  /** What roundAndPackFloat32 makes of any word and exponent. */
  function Packed(dir: Direction, masks: set<Flag>, flush: bool, exp: int, sig: nat): Packing {
    if OverflowTest(dir, exp, sig) then PackOver(dir, masks, sig)
    else if exp < 0 then PackBelow(dir, masks, flush, exp, sig)
    else PackNormal(dir, exp, sig)
  }

  lemma BiasScales(num: nat, den: nat, e: int)
    requires e < 0
    ensures Num(num, e + UNDERFLOW_BIAS) * Den(den, e)
            == (Num(num, e) * Pow2(UNDERFLOW_BIAS)) * Den(den, e + UNDERFLOW_BIAS)
  {
    var k := e + UNDERFLOW_BIAS;
    hide Pow2;
    if k >= 0 {
      Pow2Add(k, -e);
      ProductOfFour(num, den, Pow2(k), Pow2(-e), Pow2(UNDERFLOW_BIAS));
    } else {
      Pow2Add(UNDERFLOW_BIAS, -k);
      ProductOfThree(num, den, Pow2(UNDERFLOW_BIAS), Pow2(-k), Pow2(-e));
    }
  }

  lemma ProductOfFour(n: nat, d: nat, p: nat, q: nat, r: nat)
    requires p * q == r
    ensures (n * p) * ((d * q) * 128) == (n * r) * (d * 128)
  {
    assert (n * p) * ((d * q) * 128) == (n * p) * (q * (d * 128));
    assert (n * p) * (q * (d * 128)) == (n * (p * q)) * (d * 128);
  }

  lemma ProductOfThree(n: nat, d: nat, p: nat, q: nat, r: nat)
    requires p * q == r
    ensures n * ((d * r) * 128) == (n * p) * ((d * q) * 128)
  {
    assert n * ((d * (p * q)) * 128) == (n * p) * ((d * q) * 128);
  }

  /** The exponent is negative exactly if the value is below the normal range. */
  lemma BelowNormal(exp: int, sig: nat, num: nat, den: nat)
    requires Packable(exp, sig, num, den)
    ensures Num(num, exp) < FRACTION * Den(den, exp) <==> exp < 0
  {
    StandsCompares(sig, num, den, 0x4000_0000);
    StandsCompares(sig, num, den, SIGN);
    hide Stands, Pow2;
    if exp >= 0 {
      MulMono(1, Pow2(exp), num);
      assert num * Pow2(exp) >= num;
    } else {
      Pow2Mono(1, -exp);
      PowOne();
      MulMono(2, Pow2(-exp), den);
      assert den * Pow2(-exp) >= 2 * den;
    }
  }

  lemma PowOne()
    ensures Pow2(1) == 2
  {
  }

  lemma DenPositive(den: nat, exp: int)
    requires den > 0
    ensures Den(den, exp) > 0
  {
    if exp < 0 {
      MulMono(1, Pow2(-exp), den);
    }
  }

  /** A word is short if and only if the value it stands for is. */
  lemma ShortTest(exp: nat, sig: nat, num: nat, den: nat)
    requires Packable(exp, sig, num, den)
    ensures Short(Num(num, exp), Den(den, exp)) <==> sig % 128 == 0
  {
    if sig % 128 == 0 {
      ShortWord(exp, sig, num, den);
    } else if Short(Num(num, exp), Den(den, exp)) {
      var s: nat, e: nat :| ShortAs(Num(num, exp), Den(den, exp), s, e);
      ShortMeans(exp, sig, num, den, s, e);
    }
    hide Stands, Num, Den, ShortAs;
  }

  lemma ShortWord(exp: nat, sig: nat, num: nat, den: nat)
    requires Packable(exp, sig, num, den) && sig % 128 == 0
    ensures ShortAs(Num(num, exp), Den(den, exp), sig / 128, exp)
  {
    hide Pow2;
    ShortScaled(num, den, sig / 128, Pow2(exp));
  }

  lemma ShortScaled(num: nat, den: nat, s: nat, p: nat)
    requires num == s * 128 * den
    ensures num * p == s * (p * (den * 128))
  {
    Regroup128(s, den);
    Regroup(s, p, den * 128);
  }

  lemma ShortMeans(exp: nat, sig: nat, num: nat, den: nat, s: nat, e: nat)
    requires Packable(exp, sig, num, den) && ShortAs(Num(num, exp), Den(den, exp), s, e)
    ensures sig == s * 128
  {
    StandsCompares(sig, num, den, 0x4000_0000);
    StandsCompares(sig, num, den, SIGN);
    StandsCompares(sig, num, den, s * 128);
    hide Stands, Pow2;
    SameSignificand(num, den * 128, s, exp, e);
    Regroup128(s, den);
  }

  lemma Regroup128(s: nat, den: nat)
    ensures s * (den * 128) == s * 128 * den
  {
  }

  lemma SameSignificand(num: nat, d: nat, s: nat, k: nat, e: nat)
    requires FRACTION * d <= num < 2 * FRACTION * d && ShortAs(num * Pow2(k), d, s, e)
    ensures num == s * d
  {
    hide Pow2;
    SameExponent(num, d, s, k, e);
    Regroup(s, d, Pow2(k));
    assert Pow2(k) * d == d * Pow2(k);
    CancelFactor(num, s * d, Pow2(k));
  }

  lemma CancelFactor(x: nat, y: nat, k: nat)
    requires k > 0 && x * k == y * k
    ensures x == y
  {
    MulMono(x, y, k);
    MulMono(y, x, k);
  }

  lemma SameExponent(num: nat, d: nat, s: nat, k: nat, e: nat)
    requires FRACTION * d <= num < 2 * FRACTION * d && FRACTION <= s < 2 * FRACTION
             && num * Pow2(k) == s * (Pow2(e) * d)
    ensures e == k
  {
    hide Pow2;
    if e < k {
      Higher(d, s, num, e, k);
    } else if k < e {
      Lower(d, s, num, e, k);
    }
  }

  lemma Higher(d: nat, s: nat, num: nat, e: nat, k: nat)
    requires FRACTION * d <= num && d > 0 && s < 2 * FRACTION && e < k
    ensures num * Pow2(k) > s * (Pow2(e) * d)
  {
    Pow2Mono(e + 1, k);
    assert Pow2(e + 1) == 2 * Pow2(e);
    hide Pow2;
    var p, q, qd := Pow2(k), Pow2(e), Pow2(e) * d;
    MulMono(0, q, d);
    TimesFraction(q, d, qd);
    AtLeast(2 * q, p, FRACTION * d, num);
    MulMono(s, 2 * FRACTION, qd);
  }

  lemma Lower(d: nat, s: nat, num: nat, e: nat, k: nat)
    requires num < 2 * FRACTION * d && FRACTION <= s && k < e
    ensures num * Pow2(k) < s * (Pow2(e) * d)
  {
    Pow2Mono(k + 1, e);
    assert Pow2(k + 1) == 2 * Pow2(k);
    hide Pow2;
    MulMono(2 * Pow2(k), Pow2(e), d);
    DoubleProduct(Pow2(k), d);
    LowerAt(num, s, d, Pow2(k), Pow2(k) * d, Pow2(e) * d);
  }

  lemma LowerAt(num: nat, s: nat, d: nat, p: nat, pd: nat, qd: nat)
    requires num < 2 * FRACTION * d && FRACTION <= s && p > 0 && pd == p * d && 2 * pd <= qd
    ensures num * p < s * qd
  {
    MulMono(num, 2 * FRACTION * d, p);
    TimesFraction(p, d, pd);
    AtLeast(FRACTION, s, 2 * pd, qd);
  }

  /** Products of numbers that are at least as large. */
  lemma AtLeast(a: nat, b: nat, x: nat, y: nat)
    requires a <= b && x <= y
    ensures x * a <= y * b && a * x <= b * y
  {
    MulMono(x, y, a);
    MulMono(a, b, y);
  }

  lemma DoubleProduct(p: nat, d: nat)
    ensures 2 * p * d == 2 * (p * d)
  {
  }

  lemma TimesFraction(q: nat, d: nat, qd: nat)
    requires qd == q * d
    ensures (FRACTION * d) * (2 * q) == 2 * FRACTION * qd == (2 * FRACTION * d) * q
  {
  }

  /** Below the normal range, at the exponent that is packed. */
  lemma BelowIsCorrect(dir: Direction, masks: set<Flag>, flush: bool, exp: int, sig: nat, num: nat, den: nat)
    requires Packable(exp, sig, num, den) && exp < 0
    ensures var p := PackBelow(dir, masks, flush, exp, sig); var n, d := Num(num, exp), Den(den, exp);
            p.code <= INFINITY && RoundsTo(dir, n, d, masks, flush, p.code)
                && p.raised == Raises(dir, n, d, masks, flush, p.code)
  {
    hide Tiny, Rounds, Raised, Num, Den, Stands, RoundSig, SigFlags, Increment, ShiftRightJamming, Pow2, Short;
    TinyTest(dir, exp, sig, num, den);
    BelowNormal(exp, sig, num, den);
    if Trapped(dir, Num(num, exp), Den(den, exp), masks) {
      TrappedIsCorrect(dir, masks, flush, exp, sig, num, den);
    } else {
      DenormalIsCorrect(dir, exp, sig, num, den);
      NoOverflow(dir, ShiftRightJamming(sig, -exp, 32));
    }
  }

  lemma NoOverflow(dir: Direction, sig: nat)
    ensures Overflow !in SigFlags(dir, sig)
  {
  }

  /** An unmasked underflow: the word is packed with its exponent raised by the bias. */
  lemma TrappedIsCorrect(dir: Direction, masks: set<Flag>, flush: bool, exp: int, sig: nat, num: nat, den: nat)
    requires Packable(exp, sig, num, den) && exp < 0 && Trapped(dir, Num(num, exp), Den(den, exp), masks)
    ensures var p := PackBelow(dir, masks, flush, exp, sig); var n, d := Num(num, exp), Den(den, exp);
            p.code <= INFINITY && RoundsTo(dir, n, d, masks, flush, p.code)
                && p.raised == Raises(dir, n, d, masks, flush, p.code)
  {
    hide Tiny, Rounds, Raised, Num, Den, Stands, RoundSig, SigFlags, Increment, ShiftRightJamming, Pow2;
    var e := exp + UNDERFLOW_BIAS;
    TinyTest(dir, exp, sig, num, den);
    TrappedValue(dir, exp, sig, num, den);
    var p := PackBelow(dir, masks, flush, exp, sig);
    if e >= 0 {
      InRangeIsCorrect(dir, e, sig, num, den);
      TrappedRounds(dir, exp, num, den, p.code);
    } else {
      DenormalIsCorrect(dir, e, sig, num, den);
      TrappedRounds(dir, exp, num, den, RoundSig(dir, ShiftRightJamming(sig, -e, 32)));
    }
  }

  /** The scaled value is below the normal range exactly if the raised exponent is negative. */
  lemma TrappedValue(dir: Direction, exp: int, sig: nat, num: nat, den: nat)
    requires Packable(exp, sig, num, den) && exp < 0
    ensures Num(num, exp) * Pow2(UNDERFLOW_BIAS) < FRACTION * Den(den, exp) <==> exp + UNDERFLOW_BIAS < 0
  {
    var e := exp + UNDERFLOW_BIAS;
    hide Num, Den, Stands, Pow2;
    BelowNormal(e, sig, num, den);
    BiasScales(num, den, exp);
    DenPositive(den, exp);
    DenPositive(den, e);
    assert (FRACTION * Den(den, e)) * Den(den, exp) == (FRACTION * Den(den, exp)) * Den(den, e);
    Scaled(Num(num, e), FRACTION * Den(den, e), Den(den, e),
           Num(num, exp) * Pow2(UNDERFLOW_BIAS), FRACTION * Den(den, exp), Den(den, exp));
  }

  lemma TrappedRounds(dir: Direction, exp: int, num: nat, den: nat, m: nat)
    requires exp < 0 && den > 0
    requires Rounds(dir, Num(num, exp + UNDERFLOW_BIAS), Den(den, exp + UNDERFLOW_BIAS), m)
    ensures var n, d := Num(num, exp) * Pow2(UNDERFLOW_BIAS), Den(den, exp);
            && Rounds(dir, n, d, m)
            && Raised(dir, n, d, m) == Raised(dir, Num(num, exp + UNDERFLOW_BIAS), Den(den, exp + UNDERFLOW_BIAS), m)
  {
    var e := exp + UNDERFLOW_BIAS;
    hide Num, Den, Rounds, Raised, Pow2;
    BiasScales(num, den, exp);
    DenPositive(den, exp);
    DenPositive(den, e);
    Proportional(dir, Num(num, e), Den(den, e), Num(num, exp) * Pow2(UNDERFLOW_BIAS), Den(den, exp), m);
    RaisedProportional(dir, Num(num, e), Den(den, e), Num(num, exp) * Pow2(UNDERFLOW_BIAS), Den(den, exp), m);
  }

  /** The outcome depends on the value of the fraction only. */
  lemma RaisedProportional(dir: Direction, num: nat, den: nat, num': nat, den': nat, m: nat)
    requires den > 0 && den' > 0 && num * den' == num' * den
    ensures Raised(dir, num, den, m) == Raised(dir, num', den', m)
  {
    OverScales(INFINITY, den, den');
    Scaled(Over(INFINITY, den), num, den, Over(INFINITY, den'), num', den');
    Scaled(num, Over(INFINITY, den), den, num', Over(INFINITY, den'), den');
    OverScales(m, den, den');
    Scaled(Over(m, den), num, den, Over(m, den'), num', den');
    Scaled(num, Over(m, den), den, num', Over(m, den'), den');
    TinyProportional(dir, num, den, num', den');
    hide Over, Tiny;
  }

  lemma TinyProportional(dir: Direction, num: nat, den: nat, num': nat, den': nat)
    requires den > 0 && den' > 0 && num * den' == num' * den
    ensures Tiny(dir, num, den) == Tiny(dir, num', den')
  {
    match dir
    case Truncate => Scaled(num, FRACTION * den, den, num', FRACTION * den', den');
    case Enlarge =>
      assert (2 * num) * den' == (2 * num') * den;
      Scaled((2 * FRACTION - 1) * den, 2 * num, den, (2 * FRACTION - 1) * den', 2 * num', den');
    case Nearest =>
      assert (4 * num) * den' == (4 * num') * den;
      Scaled(4 * num, (4 * FRACTION - 1) * den, den, 4 * num', (4 * FRACTION - 1) * den', den');
  }

  /** Rounding and packing is correct for every normalized word, rounding direction, choice of masked exceptions and
      flushing. */
  lemma PackedIsCorrect(dir: Direction, masks: set<Flag>, flush: bool, exp: int, sig: nat, num: nat, den: nat)
    requires Packable(exp, sig, num, den)
    ensures var p := Packed(dir, masks, flush, exp, sig); var n, d := Num(num, exp), Den(den, exp);
            p.code <= INFINITY && RoundsTo(dir, n, d, masks, flush, p.code)
                && p.raised == Raises(dir, n, d, masks, flush, p.code)
  {
    hide Tiny, Rounds, Raised, Num, Den, Stands, RoundSig, SigFlags, PackBelow, Short;
    TinyTest(dir, exp, sig, num, den);
    if OverflowTest(dir, exp, sig) {
      OverflowIsCorrect(dir, exp, sig, num, den);
      ShortTest(exp, sig, num, den);
    } else if exp < 0 {
      BelowIsCorrect(dir, masks, flush, exp, sig, num, den);
    } else {
      InRangeIsCorrect(dir, exp, sig, num, den);
      NoOverflow(dir, sig);
    }
  }

  /** The word 0 packs to zero unless its exponent is beyond the range, where infinity or the largest finite number is
      packed. */
  lemma PackedZero(dir: Direction, masks: set<Flag>, flush: bool, exp: int)
    ensures var p := Packed(dir, masks, flush, exp, 0);
            && p.code <= INFINITY && (p.code == 0 <==> exp <= 0xFD)
            && (p.raised == {} <==> 0 <= exp <= 0xFD || (exp < 0 && Underflow in masks && !flush))
  {
    hide PackBelow, RoundSig, SigFlags, Increment;
    ZeroRounds(dir);
    if exp < 0 {
      PackedZeroBelow(dir, masks, flush, exp);
    }
  }

  lemma ZeroRounds(dir: Direction)
    ensures RoundSig(dir, 0) == 0 && SigFlags(dir, 0) == {} && Increment(dir) < SIGN
  {
  }

  lemma PackedZeroBelow(dir: Direction, masks: set<Flag>, flush: bool, exp: int)
    requires exp < 0
    ensures var p := PackBelow(dir, masks, flush, exp, 0);
            p.code == 0 && (p.raised == {} <==> Underflow in masks && !flush)
  {
    hide ShiftRightJamming, RoundSig, SigFlags, Increment;
    ZeroShifts(-exp);
    ZeroShifts(-(exp + UNDERFLOW_BIAS));
    ZeroRounds(dir);
  }

  lemma ZeroShifts(count: int)
    ensures count > 0 ==> ShiftRightJamming(0, count, 32) == 0
  {
    if count > 0 {
      Pow2Values();
      JammingIs(0, count, 32);
      QuotientIs(0, Pow2(count), 0);
    }
    hide ShiftRightJamming, Pow2, Quotient;
  }

  /** A subnormal word with no bits to round off is packed as it is. */
  lemma PackedExact(dir: Direction, masks: set<Flag>, flush: bool, sig: nat)
    requires sig < SIGN && sig % 128 == 0
    ensures Packed(dir, masks, flush, 0, sig) == Packing(sig / 128, {})
  {
    RoundSigPicks(dir, sig);
    hide RoundSig;
  }

  /** What the packed result is to the signed value that is delivered, among all finite numbers `k`: the greatest one
      not above it, the least one not below it, the greatest not beyond it in magnitude, or a closest one. A result
      that is flushed is zero. */
  lemma PackedBySign(mode: Rounding.Mode, negative: bool, num: nat, den: nat, masks: set<Flag>, flush: bool, m: nat,
                     k: Single)
    requires den > 0 && RoundsTo(DirectionOf(mode, negative), num, den, masks, flush, m) && k.code <= LARGEST
    ensures var dir := DirectionOf(mode, negative);
            var d, z := Delivered(dir, num, den, masks), Single(negative, m);
            var v, x := WithSign(negative, d), SignedOver(k, den);
            if Flushes(dir, num, den, masks, flush) then m == 0
            else match mode
              case Down => NotAbove(z, v, den) && (x <= v ==> NotBelow(z, x, den))
              case Up => NotBelow(z, v, den) && (v <= x ==> NotAbove(z, x, den))
              case ToZero =>
                && m <= LARGEST && Over(m, den) <= d
                && (Over(k.code, den) <= d ==> Over(k.code, den) <= Over(m, den))
              case NearestEven =>
                if d >= Over(INFINITY, den) then m == INFINITY
                else Distance(SignedOver(z, den), v) <= Distance(x, v)
                     && (k.code != m && Distance(SignedOver(z, den), v) == Distance(x, v) ==> m % 2 == 0)
  {
    hide Over, Rounds, Delivered, Flushes, SignedOver, NotAbove, NotBelow;
    var dir := DirectionOf(mode, negative);
    if !Flushes(dir, num, den, masks, flush) {
      var d := Delivered(dir, num, den, masks);
      match mode
      case Down => DownIsGreatest(negative, d, den, m, k);
      case Up => UpIsLeast(negative, d, den, m, k);
      case ToZero => ToZeroIsShortest(negative, d, den, m, k);
      case NearestEven => NearestHasNoCloser(negative, d, den, m, k);
    }
  }

  /** The floating-point status word: rounding mode, raised and masked exceptions, and the two
      options for denormals. */
  class Status {
    var mode: Mode
    var flags: set<Flag>
    var masks: set<Flag>
    var flushUnderflow: bool
    var denormalsAreZeros: bool
    var firstOperandNaN: bool

    method Raise(raised: set<Flag>)
      modifies `flags
      ensures flags == old(flags) + raised
    {
      flags := flags + raised;
    }

    method RoundIncrement(negative: bool) returns (increment: nat)
      ensures increment == Increment(DirectionOf(mode, negative))
    {
      increment := 0x40;
      if mode != NearestEven {
        if mode == ToZero {
          increment := 0;
        } else {
          increment := 0x7F;
          if negative {
            if mode == Up {
              increment := 0;
            }
          } else {
            if mode == Down {
              increment := 0;
            }
          }
        }
      }
    }

    /** The last part of roundAndPackFloat32: rounding at exponent `exp`, at least 0. */
    method Finish(negative: bool, exp: nat, sig: nat, increment: nat) returns (z: nat)
      requires increment == Increment(DirectionOf(mode, negative)) && sig < SIGN
      modifies `flags
      ensures var p := PackNormal(DirectionOf(mode, negative), exp, sig);
              z == (if negative then SIGN else 0) + p.code && flags == old(flags) + p.raised
    {
      var roundBits := sig % 128;
      var zExp := exp;
      var rounded := (sig + increment) / 128;
      if roundBits == 0x40 && mode == NearestEven {
        rounded := rounded - rounded % 2;
      }
      assert rounded == RoundSig(DirectionOf(mode, negative), sig) by { NearestMode(mode, negative); }
      RoundSigPicks(DirectionOf(mode, negative), sig);
      hide RoundSig, DirectionOf, Increment, GoesUp;
      if rounded == 0 {
        zExp := 0;
      }
      if roundBits != 0 {
        Raise({Inexact});
        if rounded * 128 > sig {
          Raise({RoundedUp});
        }
      }
      z := (if negative then SIGN else 0) + zExp * FRACTION + rounded;
    }

    /** roundAndPackFloat32. If `zSig` is a normalized word that stands for the exact significand num / den - the
        significand itself, or a quotient or product that was shortened to it - then the result is that value,
        correctly rounded. */
    method RoundAndPackFloat32(negative: bool, zExp: int, zSig: nat, ghost num: nat, ghost den: nat) returns (z: nat)
      requires zSig < SIGN && -0x8000 <= zExp < 0x8000
      modifies `flags
      ensures var p := Packed(DirectionOf(mode, negative), masks, flushUnderflow, zExp, zSig);
              z == (if negative then SIGN else 0) + p.code && flags == old(flags) + p.raised
      ensures Packable(zExp, zSig, num, den) ==>
                var dir, n, d := DirectionOf(mode, negative), Num(num, zExp), Den(den, zExp);
                && z / SIGN == (if negative then 1 else 0)
                && RoundsTo(dir, n, d, masks, flushUnderflow, z % SIGN)
                && flags == old(flags) + Raises(dir, n, d, masks, flushUnderflow, z % SIGN)
    {
      ghost var dir := DirectionOf(mode, negative);
      hide RoundsTo, Raises, Num, Den, RoundSig, PackNormal, PackBelow, Packable, DirectionOf, Increment;
      var increment := RoundIncrement(negative);
      if zExp > 0xFD || (zExp == 0xFD && zSig + increment >= SIGN) {
        z := PackOverflow(negative, zSig, increment);
      } else if zExp < 0 {
        z := PackUnderflow(negative, zExp, zSig, increment);
      } else {
        z := Finish(negative, zExp, zSig, increment);
      }
      if Packable(zExp, zSig, num, den) {
        PackedIsCorrect(dir, masks, flushUnderflow, zExp, zSig, num, den);
        SignSplits(negative, Packed(dir, masks, flushUnderflow, zExp, zSig).code);
      }
    }

    method PackOverflow(negative: bool, zSig: nat, increment: nat) returns (z: nat)
      requires increment == Increment(DirectionOf(mode, negative))
      modifies `flags
      ensures var p := PackOver(DirectionOf(mode, negative), masks, zSig);
              z == (if negative then SIGN else 0) + p.code && flags == old(flags) + p.raised
    {
      Raise({Overflow});
      if zSig % 128 != 0 || Overflow in masks {
        Raise({Inexact});
        if increment != 0 {
          Raise({RoundedUp});
        }
      }
      z := (if negative then SIGN else 0) + INFINITY - (if increment == 0 then 1 else 0);
    }

    method PackUnderflow(negative: bool, zExp: int, zSig: nat, increment: nat) returns (z: nat)
      requires zSig < SIGN && zExp < 0 && increment == Increment(DirectionOf(mode, negative))
      modifies `flags
      ensures var p := PackBelow(DirectionOf(mode, negative), masks, flushUnderflow, zExp, zSig);
              z == (if negative then SIGN else 0) + p.code && flags == old(flags) + p.raised
    {
      hide PackNormal, PackSmall, ShiftRightJamming, Increment, DirectionOf;
      var exp := zExp;
      var isTiny := zExp < -1 || zSig + increment < SIGN;
      if isTiny && Underflow !in masks {
        Raise({Underflow});
        exp := exp + UNDERFLOW_BIAS;
      }
      if exp < 0 {
        z := PackDenormal(negative, exp, zSig, increment, isTiny);
      } else {
        z := Finish(negative, exp, zSig, increment);
      }
    }

    method PackDenormal(negative: bool, exp: int, zSig: nat, increment: nat, isTiny: bool) returns (z: nat)
      requires exp < 0 && zSig < SIGN && increment == Increment(DirectionOf(mode, negative))
      modifies `flags
      ensures var p := PackSmall(DirectionOf(mode, negative), flushUnderflow, isTiny,
              ShiftRightJamming(zSig, -exp, 32));
              z == (if negative then SIGN else 0) + p.code && flags == old(flags) + p.raised
    {
      ShiftedBelow(zSig, -exp);
      hide RoundSig, ShiftRightJamming, SigFlags;
      var sig := ShiftRightJamming(zSig, -exp, 32);
      if isTiny {
        if flushUnderflow {
          Raise({Underflow, Inexact});
          return if negative then SIGN else 0;
        }
        if sig % 128 != 0 {
          Raise({Underflow});
        }
      }
      z := Finish(negative, 0, sig, increment);
    }
  }

  lemma NearestMode(mode: Mode, negative: bool)
    ensures DirectionOf(mode, negative) == Nearest <==> mode == NearestEven
  {
  }

  lemma ShiftedBelow(sig: nat, count: nat)
    requires sig < SIGN && count > 0
    ensures ShiftRightJamming(sig, count, 32) < SIGN
  {
    hide ShiftRightJamming, Quotient;
    Pow2Values();
    JammingIs(sig, count, 32);
    assert Pow2(count) == 2 * Pow2(count - 1);
    JammedBelow(sig, Pow2(count), Quotient(sig, Pow2(count)));
  }

  lemma SignSplits(negative: bool, m: nat)
    requires m < SIGN
    ensures var z := (if negative then SIGN else 0) + m;
            z / SIGN == (if negative then 1 else 0) && z % SIGN == m
    ensures (if negative then SIGN else 0) / SIGN == (if negative then 1 else 0)
            && (if negative then SIGN else 0) % SIGN == 0
  {
  }
}
