/** Correct rounding to single precision (sections 4.3 and 7.4 to 7.6 of IEEE 754-2008), stated on
    exact fractions and independently of how src/halfix/softfloat.c computes it. Magnitudes are
    measured in units of 2^-149, the smallest subnormal. */
module Rounding {
  import opened Words

  datatype Mode = NearestEven | Down | Up | ToZero

  /** What a rounding mode does to magnitudes. */
  datatype Direction = Truncate | Enlarge | Nearest

  function DirectionOf(mode: Mode, negative: bool): Direction {
    match mode
    case NearestEven => Nearest
    case Down => if negative then Enlarge else Truncate
    case Up => if negative then Truncate else Enlarge
    case ToZero => Truncate
  }

  // Encodings without the sign bit: 23 fraction bits below the exponent field.
  const FRACTION := 0x80_0000
  const INFINITY := 0x7F80_0000
  const LARGEST := 0x7F7F_FFFF

  /** The magnitude an encoding stands for; at INFINITY, the next power of two. */
  function Value(code: nat): nat {
    if code < FRACTION then code else (FRACTION + code % FRACTION) * Pow2(code / FRACTION - 1)
  }

  lemma SmallValue(s: nat, code: nat)
    requires code == s < FRACTION
    ensures Value(code) == s * Pow2(0)
  {
  }

  lemma NormalValue(e: nat, s: nat, code: nat)
    requires FRACTION <= s < 2 * FRACTION && code == e * FRACTION + s
    ensures Value(code) == s * Pow2(e)
  {
    FieldsOf(code, e + 1, s - FRACTION);
    assert FRACTION + code % FRACTION == s && code / FRACTION - 1 == e;
  }

  lemma CarryValue(e: nat, s: nat, code: nat)
    requires s == 2 * FRACTION && code == e * FRACTION + s
    ensures Value(code) == s * Pow2(e)
  {
    NormalValue(e + 1, FRACTION, code);
    assert Pow2(e + 1) == 2 * Pow2(e);
    hide Value, Pow2;
  }

  /** The magnitude with exponent field `e` and significand `s`, where a carry makes the next field. */
  lemma ValueOf(e: nat, s: nat)
    requires s <= 2 * FRACTION && (e == 0 || s >= FRACTION)
    ensures Value(e * FRACTION + s) == s * Pow2(e)
  {
    hide Value, Pow2;
    var code := e * FRACTION + s;
    if s < FRACTION {
      SmallValue(s, code);
    } else if s == 2 * FRACTION {
      CarryValue(e, s, code);
    } else {
      NormalValue(e, s, code);
    }
  }

  lemma FieldsOf(code: nat, e: nat, f: nat)
    requires code == e * FRACTION + f && f < FRACTION
    ensures code / FRACTION == e && code % FRACTION == f
  {
  }

  lemma ValueStep(code: nat)
    ensures Value(code) < Value(code + 1)
  {
    if code >= FRACTION {
      var e, s := code / FRACTION - 1, FRACTION + code % FRACTION;
      assert code == e * FRACTION + s;
      ValueOf(e, s);
      ValueOf(e, s + 1);
      MulMono(s, s + 1, Pow2(e));
    } else {
      ValueOf(0, code);
      ValueOf(0, code + 1);
    }
  }

  lemma {:induction false} ValueMono(a: nat, b: nat)
    requires a <= b
    ensures Value(a) <= Value(b) && (a < b ==> Value(a) < Value(b))
  {
    if a < b {
      ValueMono(a, b - 1);
      ValueStep(b - 1);
    }
  }

  /** An encoding's magnitude over the denominator of an exact value. */
  function Over(code: nat, den: nat): nat {
    Value(code) * den
  }

  /** The exact magnitude num / den lies from encoding `c` up to the next one. */
  ghost predicate Between(c: nat, num: nat, den: nat) {
    c <= LARGEST && Over(c, den) <= num < Over(c + 1, den)
  }

  /** Whether `n`, from `low` up to `high`, rounds to `high`; ties go there from an odd `low`. */
  predicate GoesUp(dir: Direction, odd: bool, low: nat, high: nat, n: nat) {
    low != n && match dir
                case Truncate => false
                case Enlarge => true
                case Nearest => 2 * n > low + high || (2 * n == low + high && odd)
  }

  /** The encoding a direction picks for a magnitude between `c` and the next. */
  function Pick(dir: Direction, c: nat, num: nat, den: nat): nat {
    if GoesUp(dir, c % 2 == 1, Over(c, den), Over(c + 1, den), num) then c + 1 else c
  }

  /** `m` is the correctly rounded encoding of the magnitude num / den. */
  ghost predicate Rounds(dir: Direction, num: nat, den: nat, m: nat) {
    if num >= Over(INFINITY, den) then m == if dir == Truncate then LARGEST else INFINITY
    else exists c: nat :: Between(c, num, den) && m == Pick(dir, c, num, den)
  }

  lemma OverMono(a: nat, b: nat, den: nat)
    requires den > 0
    ensures a < b ==> Over(a, den) < Over(b, den)
    ensures a <= b ==> Over(a, den) <= Over(b, den)
  {
    if a <= b {
      ValueMono(a, b);
      MulMono(Value(a), Value(b), den);
    }
  }

  lemma BetweenUnique(c: nat, d: nat, num: nat, den: nat)
    requires den > 0 && Between(c, num, den) && Between(d, num, den)
    ensures c == d
  {
    OverMono(c + 1, d, den);
    OverMono(d + 1, c, den);
    hide Over;
  }

  /** Rounding is a function of the exact value. */
  lemma RoundsUnique(dir: Direction, num: nat, den: nat, m: nat, n: nat)
    requires den > 0 && Rounds(dir, num, den, m) && Rounds(dir, num, den, n)
    ensures m == n
  {
    hide Over;
    if num < Over(INFINITY, den) {
      var c: nat :| Between(c, num, den) && m == Pick(dir, c, num, den);
      var d: nat :| Between(d, num, den) && n == Pick(dir, d, num, den);
      BetweenUnique(c, d, num, den);
    }
  }

  lemma Ordered(c: nat, num: nat, den: nat, k: nat)
    requires den > 0 && Between(c, num, den)
    ensures k <= c <==> Over(k, den) <= num
    ensures k < c ==> Over(k, den) < Over(c, den)
    ensures k > c ==> Over(k, den) >= Over(c + 1, den)
    ensures k > c + 1 ==> Over(k, den) > Over(c + 1, den)
  {
    OverMono(k, c, den);
    OverMono(c + 1, k, den);
    hide Over;
  }

  /** Truncation gives the largest encoding not above the value, enlargement the smallest not below. */
  lemma DirectedIsTightest(dir: Direction, num: nat, den: nat, m: nat, k: nat)
    requires den > 0 && num < Over(INFINITY, den) && Rounds(dir, num, den, m)
    ensures dir == Truncate ==> Over(m, den) <= num && (Over(k, den) <= num ==> k <= m)
    ensures dir == Enlarge ==> Over(m, den) >= num && (Over(k, den) >= num ==> k >= m)
  {
    hide Over;
    var c: nat :| Between(c, num, den) && m == Pick(dir, c, num, den);
    Ordered(c, num, den, k);
  }

  function Distance(a: int, b: int): nat {
    if a < b then b - a else a - b
  }

  /** Rounding to nearest: no encoding is closer, and if another is as close, the result is the even
      one of two neighbours. */
  lemma NearestIsClosest(num: nat, den: nat, m: nat, k: nat)
    requires den > 0 && num < Over(INFINITY, den) && Rounds(Nearest, num, den, m)
    ensures Distance(Over(m, den), num) <= Distance(Over(k, den), num)
    ensures k != m && Distance(Over(m, den), num) == Distance(Over(k, den), num) ==> m % 2 == 0 && k % 2 == 1
  {
    hide Over;
    var c: nat :| Between(c, num, den) && m == Pick(Nearest, c, num, den);
    Ordered(c, num, den, k);
    assert c % 2 != (c + 1) % 2;
  }

  // --- What the modes do to signed values ---

  function WithSign(negative: bool, magnitude: nat): int { if negative then -(magnitude as int) else magnitude }

  /** A finite number: its sign and encoding. */
  datatype Single = Single(negative: bool, code: nat)

  /** Its value over a denominator; beyond all finite ones for an infinity. */
  function SignedOver(x: Single, den: nat): int { WithSign(x.negative, Over(x.code, den)) }

  /** The number `x`, which may be infinite, is at most the value v / den. */
  predicate NotAbove(x: Single, v: int, den: nat) {
    if x.code == INFINITY then x.negative else SignedOver(x, den) <= v
  }

  predicate NotBelow(x: Single, v: int, den: nat) {
    if x.code == INFINITY then !x.negative else v <= SignedOver(x, den)
  }

  lemma RoundsInRange(dir: Direction, num: nat, den: nat, m: nat)
    requires den > 0 && Rounds(dir, num, den, m)
    ensures m <= INFINITY
    ensures dir == Truncate ==> m <= LARGEST && Over(m, den) <= num
    ensures dir == Enlarge ==> m == INFINITY || num <= Over(m, den)
  {
    hide Over;
    if num >= Over(INFINITY, den) {
      OverMono(LARGEST, INFINITY, den);
    } else {
      DirectedIsTightest(dir, num, den, m, 0);
    }
  }

  /** No finite encoding lies between the value and the truncated one, or between it and the enlarged one. */
  lemma NoneBetween(dir: Direction, num: nat, den: nat, m: nat, k: nat)
    requires den > 0 && Rounds(dir, num, den, m) && k <= LARGEST
    ensures dir == Truncate && Over(k, den) <= num ==> Over(k, den) <= Over(m, den)
    ensures dir == Enlarge && num <= Over(k, den) ==> m != INFINITY && Over(m, den) <= Over(k, den)
  {
    hide Over;
    OverMono(k, LARGEST, den);
    OverMono(LARGEST, INFINITY, den);
    if num < Over(INFINITY, den) {
      DirectedIsTightest(dir, num, den, m, k);
      OverMono(k, m, den);
      OverMono(m, k, den);
    }
  }

  /** Rounding down gives the greatest number not above the signed value. */
  lemma DownIsGreatest(negative: bool, num: nat, den: nat, m: nat, k: Single)
    requires den > 0 && Rounds(DirectionOf(Down, negative), num, den, m) && k.code <= LARGEST
    ensures var v, z := WithSign(negative, num), Single(negative, m);
            NotAbove(z, v, den) && (SignedOver(k, den) <= v ==> NotBelow(z, SignedOver(k, den), den))
  {
    RoundsInRange(DirectionOf(Down, negative), num, den, m);
    NoneBetween(DirectionOf(Down, negative), num, den, m, k.code);
    OverIsNatural(m, den);
    OverIsNatural(k.code, den);
    hide Over, Rounds;
  }

  lemma OverIsNatural(c: nat, den: nat)
    ensures Over(c, den) >= 0
  {
  }

  /** Rounding up gives the least number not below it. */
  lemma UpIsLeast(negative: bool, num: nat, den: nat, m: nat, k: Single)
    requires den > 0 && Rounds(DirectionOf(Up, negative), num, den, m) && k.code <= LARGEST
    ensures var v, z := WithSign(negative, num), Single(negative, m);
            NotBelow(z, v, den) && (v <= SignedOver(k, den) ==> NotAbove(z, SignedOver(k, den), den))
  {
    RoundsInRange(DirectionOf(Up, negative), num, den, m);
    NoneBetween(DirectionOf(Up, negative), num, den, m, k.code);
    OverIsNatural(m, den);
    OverIsNatural(k.code, den);
    hide Over, Rounds;
  }

  /** Rounding to zero gives the finite number of the greatest magnitude that is not beyond the value's. */
  lemma ToZeroIsShortest(negative: bool, num: nat, den: nat, m: nat, k: Single)
    requires den > 0 && Rounds(DirectionOf(ToZero, negative), num, den, m) && k.code <= LARGEST
    ensures m <= LARGEST && Over(m, den) <= num && (Over(k.code, den) <= num ==> Over(k.code, den) <= Over(m, den))
  {
    RoundsInRange(DirectionOf(ToZero, negative), num, den, m);
    NoneBetween(DirectionOf(ToZero, negative), num, den, m, k.code);
    hide Over, Rounds;
  }

  /** Rounding to nearest: no number of either sign is closer, and if another magnitude is as close, the result is the
      even one; from half way to the next power of two on, infinity. */
  lemma NearestHasNoCloser(negative: bool, num: nat, den: nat, m: nat, k: Single)
    requires den > 0 && Rounds(DirectionOf(NearestEven, negative), num, den, m)
    ensures num >= Over(INFINITY, den) ==> m == INFINITY
    ensures num < Over(INFINITY, den) ==>
              var v, z := WithSign(negative, num), Single(negative, m);
              && Distance(SignedOver(z, den), v) <= Distance(SignedOver(k, den), v)
              && (k.code != m && Distance(SignedOver(z, den), v) == Distance(SignedOver(k, den), v) ==> m % 2 == 0)
  {
    hide Over, Rounds;
    if num < Over(INFINITY, den) {
      NearestIsClosest(num, den, m, k.code);
      NearestIsClosest(num, den, m, 0);
      ZeroIsZero(den);
    } else {
      NearestOverflows(negative, num, den, m);
    }
  }

  lemma ZeroIsZero(den: nat)
    ensures Over(0, den) == 0
  {
  }

  lemma NearestOverflows(negative: bool, num: nat, den: nat, m: nat)
    requires Rounds(DirectionOf(NearestEven, negative), num, den, m) && num >= Over(INFINITY, den)
    ensures m == INFINITY
  {
  }

  /** Only the value of the fraction matters. */
  lemma Proportional(dir: Direction, num: nat, den: nat, num': nat, den': nat, m: nat)
    requires den > 0 && den' > 0 && num * den' == num' * den && Rounds(dir, num, den, m)
    ensures Rounds(dir, num', den', m)
  {
    OverScales(INFINITY, den, den');
    Scaled(Over(INFINITY, den), num, den, Over(INFINITY, den'), num', den');
    if num < Over(INFINITY, den) {
      var c: nat :| Between(c, num, den) && m == Pick(dir, c, num, den);
      ProportionalPick(dir, c, num, den, num', den');
    }
    hide Over, Pick;
  }

  lemma ProportionalPick(dir: Direction, c: nat, num: nat, den: nat, num': nat, den': nat)
    requires den > 0 && den' > 0 && num * den' == num' * den && Between(c, num, den)
    ensures Between(c, num', den') && Pick(dir, c, num', den') == Pick(dir, c, num, den)
  {
    var low, high, low', high' := Over(c, den), Over(c + 1, den), Over(c, den'), Over(c + 1, den');
    OverScales(c, den, den');
    OverScales(c + 1, den, den');
    Scaled(low, num, den, low', num', den');
    Scaled(high, num, den, high', num', den');
    SumScales(low, high, den, low', high', den');
    SumScales(num, num, den, num', num', den');
    Scaled(low + high, num + num, den, low' + high', num' + num', den');
    hide Over;
  }

  lemma SumScales(a: nat, b: nat, den: nat, a': nat, b': nat, den': nat)
    requires a * den' == a' * den && b * den' == b' * den
    ensures (a + b) * den' == (a' + b') * den
  {
  }

  lemma OverScales(c: nat, den: nat, den': nat)
    ensures Over(c, den) * den' == Over(c, den') * den
  {
    var v := Value(c);
    assert (v * den) * den' == (v * den') * den;
  }

  /** a / den and b / den compare as a' / den' and b' / den'. */
  lemma Scaled(a: nat, b: nat, den: nat, a': nat, b': nat, den': nat)
    requires den > 0 && den' > 0 && a * den' == a' * den && b * den' == b' * den
    ensures a < b <==> a' < b'
    ensures a == b <==> a' == b'
  {
    MulMono(a, b, den');
    MulMono(b, a, den');
    MulMono(a', b', den);
    MulMono(b', a', den);
  }
}
