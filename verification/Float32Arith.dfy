/** Single-precision multiplication and division (src/halfix/softfloat.c): on finite operands they
    return the exact product and quotient, correctly rounded. */
module Float32Arith {
  import opened Words
  import opened Rounding
  import opened SoftFloat32

  const QUIET := 0x40_0000
  const DEFAULT_NAN := 0xFFC0_0000

  /** The units of a magnitude: 1.0 is 2^149 of them. */
  ghost function One(): nat { Pow2(149) }

  /** The encoding of 1.0 in the single format. */
  lemma OneIsOne()
    ensures Value(0x3F80_0000) == One()
  {
    hide Pow2, Value;
    NormalValue(126, FRACTION, 0x3F80_0000);
    Pow2Add(23, 126);
    Pow2Add(16, 7);
    Pow2Small();
  }

  /** The exact product of two magnitudes, over One(). */
  ghost function Product(ma: nat, mb: nat): (v: nat)
    ensures v == Value(ma) * Value(mb)
  {
    MulMono(0, Value(ma), Value(mb));
    Value(ma) * Value(mb)
  }

  // --- Products of powers of two ---

  lemma Cancel(x: nat, y: nat, k: nat)
    requires k > 0 && x * k == y * k
    ensures x == y
  {
    MulMono(x, y, k);
    MulMono(y, x, k);
  }

  lemma Regroup4(a: nat, b: nat, p: nat, q: nat)
    ensures (a * p) * (b * q) == (a * b) * (p * q)
  {
    assert (a * p) * (b * q) == a * (p * (b * q)) == a * (b * (p * q)) == (a * b) * (p * q) by {
      assert p * (b * q) == b * (p * q);
    }
  }

  // --- The fraction a packed word and exponent stand for ---

  function Positive(e: int): nat { if e >= 0 then e else 0 }

  lemma NumPow(s: nat, k: nat, e: int, n: nat)
    requires n == s * Pow2(k)
    ensures Num(n, e) == s * Pow2(k + Positive(e))
  {
    Pow2Add(k, Positive(e));
    Regroup(s, Pow2(Positive(e)), Pow2(k));
    hide Pow2;
  }

  lemma DenPow(s: nat, k: nat, e: int, d: nat)
    requires d == s * Pow2(k)
    ensures Den(d, e) == s * Pow2(k + Positive(-e) + 7)
  {
    Pow2Small();
    Pow2Add(k, Positive(-e));
    Regroup(s, Pow2(Positive(-e)), Pow2(k));
    Pow2Add(k + Positive(-e), 7);
    Regroup(s, 128, Pow2(k + Positive(-e)));
    hide Pow2;
  }

  /** With word value x * 2^shift / 2^17 and exponent `e`, the packed value is that of x * 2^s over the
      unit, where s is 171 + shift + e. */
  lemma PackedProduct(x: nat, shift: nat, e: int, n: nat)
    requires shift <= 1 && e + shift + 171 >= 0 && n == x * Pow2(shift)
    ensures Num(n, e) * Pow2(195) == x * Pow2(e + shift + 171) * Den(Pow2(17), e)
  {
    hide Pow2, Num, Den;
    var i, j := shift + Positive(e), 17 + Positive(-e) + 7;
    NumPow(x, shift, e, n);
    DenPow(1, 17, e, Pow2(17));
    Pow2Add(i, 195);
    Pow2Add(e + shift + 171, j);
    Regroup(x, Pow2(195), Pow2(i));
    Regroup(x, Pow2(j), Pow2(e + shift + 171));
  }

  /** `sig` with exponent `exp` is the normalized form of the magnitude `code`. */
  ghost predicate Normalized(code: nat, exp: int, sig: nat) {
    FRACTION <= sig < 2 * FRACTION && -22 <= exp <= 0xFE && Value(code) * Pow2(23) == sig * Pow2(exp + 22)
  }

  /** The fraction that multiplication packs is the exact product, in units. */
  lemma ExactProduct(ma: nat, ea: int, sa: nat, mb: nat, eb: int, sb: nat, shift: nat, x: nat, n: nat, v: nat)
    requires Normalized(ma, ea, sa) && Normalized(mb, eb, sb) && shift <= 1
    requires x == sa * sb && n == x * Pow2(shift) && v == Value(ma) * Value(mb)
    ensures var e := ea + eb - 0x7F - shift;
            Num(n, e) * One() == v * Den(Pow2(17), e)
  {
    var e := ea + eb - 0x7F - shift;
    hide Num, Den, Pow2, Value;
    PackedProduct(x, shift, e, n);
    Regroup4(Value(ma), Value(mb), Pow2(23), Pow2(23));
    Regroup4(sa, sb, Pow2(ea + 22), Pow2(eb + 22));
    Pow2Add(23, 23);
    Pow2Add(ea + 22, eb + 22);
    Pow2Add(149, 46);
    FinishProduct(Num(n, e), v, Den(Pow2(17), e), x * Pow2(ea + eb + 44), One(), Pow2(46));
  }

  lemma FinishProduct(n: nat, v: nat, d: nat, x: nat, one: nat, k: nat)
    requires n * (one * k) == x * d && v * k == x && k > 0
    ensures n * one == v * d
  {
    assert (n * one) * k == n * (one * k);
    assert (v * d) * k == (v * k) * d;
    Cancel(n * one, v * d, k);
  }

  /** The word float32_mul rounds: the high half of the product, jammed, and normalized by a bit. */
  lemma ProductWord(x: nat)
    requires FRACTION * FRACTION <= x < 4 * FRACTION * FRACTION
    ensures var z := ShiftRightJamming(x * 0x8000, 32, 64);
            && 0x2000_0000 <= z < SIGN
            && (z >= 0x4000_0000 ==> Stands(z, x, Pow2(17), 64))
            && (z < 0x4000_0000 ==> Stands(2 * z, 2 * x, Pow2(17), 64))
  {
    Pow2Values();
    JammingIs(x * 0x8000, 32, 64);
    Pow2Add(16, 1);
    assert Pow2(1) == 2;
    hide Pow2, Quotient, ShiftRightJamming, Stands;
    ProductWordAt(x, Quotient(x * 0x8000, W32));
  }

  lemma ProductWordAt(x: nat, q: nat)
    requires FRACTION * FRACTION <= x < 4 * FRACTION * FRACTION && q * 0x2_0000 <= x < q * 0x2_0000 + 0x2_0000
    ensures var z := Jam(q, q * W32 != x * 0x8000);
            && 0x2000_0000 <= z < SIGN
            && Stands(z, x, 0x2_0000, 64) && Stands(2 * z, 2 * x, 0x2_0000, 64)
  {
    assert 0x2000_0000 <= q < SIGN;
    var z := Jam(q, q * W32 != x * 0x8000);
    if q * 0x2_0000 != x {
      JammedStands(x, q, z);
    }
  }

  lemma JammedStands(x: nat, q: nat, z: nat)
    requires q * 0x2_0000 < x < q * 0x2_0000 + 0x2_0000 && z == Jam(q, true)
    ensures Stands(z, x, 0x2_0000, 64) && Stands(2 * z, 2 * x, 0x2_0000, 64)
  {
    hide Jam, Stands;
    OddBetween(q);
    Within(z, x, 0x2_0000, q / 64 * 64);
    Within(2 * z, 2 * x, 0x2_0000, q / 32 * 64);
  }

  lemma OddBetween(q: nat)
    ensures q / 64 * 64 < Jam(q, true) < q / 64 * 64 + 64 && q / 64 * 64 <= q < q / 64 * 64 + 64
    ensures q / 32 * 32 < Jam(q, true) < q / 32 * 32 + 32 && q / 32 * 32 <= q < q / 32 * 32 + 32
    ensures q / 32 * 64 == 2 * (q / 32 * 32)
  {
    var k := q / 2;
    assert Jam(q, true) == 2 * k + 1 && q / 64 == k / 32 && q / 32 == k / 16;
    hide Jam;
  }

  /** A word and a fraction strictly between the same two multiples of 64. */
  lemma Within(z: nat, num: nat, den: nat, low: nat)
    requires low % 64 == 0 && low < z < low + 64 && low * den < num < (low + 64) * den
    ensures Stands(z, num, den, 64)
  {
    assert z % 64 != 0 && z - z % 64 == low;
  }

  lemma ProductBounds(a: nat, b: nat)
    requires FRACTION <= a < 2 * FRACTION && FRACTION <= b < 2 * FRACTION
    ensures FRACTION * FRACTION <= a * b < 4 * FRACTION * FRACTION
  {
    MulMono(FRACTION, a, b);
    MulMono(a, 2 * FRACTION - 1, b);
  }

  // --- The outcome, stated on the exact value ---

  /** The outcome depends on the value of the fraction only. */
  lemma OutcomeProportional(dir: Direction, num: nat, den: nat, num': nat, den': nat, masks: set<Flag>, flush: bool,
                            m: nat)
    requires den > 0 && den' > 0 && num * den' == num' * den && RoundsTo(dir, num, den, masks, flush, m)
    ensures RoundsTo(dir, num', den', masks, flush, m)
    ensures Raises(dir, num', den', masks, flush, m) == Raises(dir, num, den, masks, flush, m)
  {
    hide Tiny, Rounds, Raised, Short, Pow2;
    TinyProportional(dir, num, den, num', den');
    if Short(num, den) || Short(num', den') {
      ShortIsProportional(num, den, num', den');
    }
    var n, n' := Delivered(dir, num, den, masks), Delivered(dir, num', den', masks);
    Regroup3(num, Pow2(UNDERFLOW_BIAS), den', num', den);
    assert n * den' == n' * den;
    Scaled(n, FRACTION * den, den, n', FRACTION * den', den');
    RaisedProportional(dir, n, den, n', den', m);
    if !Flushes(dir, num, den, masks, flush) {
      Proportional(dir, n, den, n', den', m);
    }
  }

  lemma Regroup3(a: nat, k: nat, d: nat, a': nat, d': nat)
    requires a * d == a' * d'
    ensures (a * k) * d == (a' * k) * d'
  {
    SwapFactors(a, k, d);
    SwapFactors(a', k, d');
  }

  lemma ShortIsProportional(num: nat, den: nat, num': nat, den': nat)
    requires den > 0 && den' > 0 && num * den' == num' * den
    ensures Short(num, den) <==> Short(num', den')
  {
    hide Short;
    if Short(num, den) {
      ShortProportional(num, den, num', den');
    } else if Short(num', den') {
      ShortProportional(num', den', num, den);
    }
  }

  lemma ShortProportional(num: nat, den: nat, num': nat, den': nat)
    requires den > 0 && den' > 0 && num * den' == num' * den && Short(num, den)
    ensures Short(num', den')
  {
    hide Pow2;
    var s: nat, e: nat :| ShortAs(num, den, s, e);
    var p := Pow2(e);
    Regroup(s, den, p);
    Regroup(s, den', p);
    assert p * den == den * p && p * den' == den' * p;
    SwapFactors(s * p, den, den');
    assert num * den' == (s * p) * den * den';
    Cancel(num', (s * p) * den', den);
    assert ShortAs(num', den', s, e);
  }

  // --- Operands ---

  function Magnitude(a: nat): nat { a % SIGN }

  function Negative(a: nat): bool { a >= SIGN }

  predicate IsNaN(a: nat) { Magnitude(a) > INFINITY }

  predicate IsSignaling(a: nat) { IsNaN(a) && Magnitude(a) < INFINITY + QUIET }

  /** `a` with bit 22 set. */
  function Quieted(a: nat): nat { if a / QUIET % 2 == 0 then a + QUIET else a }

  function SignBit(negative: bool): nat { if negative then SIGN else 0 }

  /** With denormals treated as zeros, a subnormal operand counts as 0. */
  function Operand(a: nat, denormalsAreZeros: bool): nat {
    if denormalsAreZeros && Magnitude(a) < FRACTION then 0 else Magnitude(a)
  }

  predicate IsDenormal(code: nat) { 0 < code < FRACTION }

  /** normalizeFloat32Subnormal */
  method NormalizeSubnormal(aSig: nat) returns (exp: int, sig: nat)
    requires 0 < aSig < FRACTION
    ensures Normalized(aSig, exp, sig)
  {
    var count := CountLeadingZeros32(aSig);
    CountBounds(aSig, count);
    var shiftCount := count - 8;
    ShiftedSubnormal(aSig, shiftCount);
    sig := aSig * Pow2(shiftCount);
    exp := 1 - shiftCount as int;
    hide Pow2, Value;
  }

  lemma ShiftedSubnormal(a: nat, k: nat)
    requires 0 < a < FRACTION && 1 <= k <= 23 && 0x8000_0000 <= a * Pow2(k + 8) < W32
    ensures FRACTION <= a * Pow2(k) < 2 * FRACTION && Value(a) * Pow2(23) == a * Pow2(k) * Pow2(23 - k)
  {
    hide Pow2;
    Pow2Small();
    Pow2Add(k, 8);
    Pow2Add(k, 23 - k);
    SubnormalProducts(a, Pow2(k), Pow2(23 - k), Pow2(k + 8), Pow2(23));
  }

  lemma SubnormalProducts(a: nat, p: nat, q: nat, r: nat, t: nat)
    requires a < FRACTION && 0x8000_0000 <= a * r < W32 && r == p * 0x100 && t == p * q
    ensures FRACTION <= a * p < 2 * FRACTION && Value(a) * t == a * p * q
  {
    Regroup(a, 0x100, p);
    Regroup(a, q, p);
    assert p * q == q * p;
  }

  lemma CountBounds(a: nat, count: nat)
    requires 0 < a < FRACTION && 0x8000_0000 <= a * Pow2(count) < W32 && count < 32
    ensures 9 <= count <= 31
  {
    if count <= 8 {
      Pow2Mono(count, 8);
      Pow2Small();
      MulMono(Pow2(count), 0x100, a);
    }
    hide Pow2;
  }

  lemma QuietedIsQuiet(a: nat)
    requires a < W32
    ensures IsNaN(a) ==> IsNaN(Quieted(a)) && !IsSignaling(Quieted(a))
  {
    if IsNaN(a) {
      var m := Magnitude(a);
      assert a / QUIET % 2 == m / QUIET % 2;
      if m < INFINITY + QUIET {
        assert m / QUIET == INFINITY / QUIET;
      } else {
        assert m / QUIET == INFINITY / QUIET + 1;
      }
    }
  }

  // --- What multiplication and division return for special operands ---

  /** Of two operands of which one is a NaN, the one that is passed on: a quiet NaN before a signalling one, then the
      one with the larger significand, then the positive one; or simply the first. */
  function Preferred(first: bool, a: nat, b: nat): nat {
    if !IsNaN(b) then a
    else if !IsNaN(a) then b
    else if first then a
    else if IsSignaling(a) != IsSignaling(b) then if IsSignaling(a) then b else a
    else if Magnitude(Quieted(a)) != Magnitude(Quieted(b)) then
      if Magnitude(Quieted(a)) > Magnitude(Quieted(b)) then a else b
    else if Negative(Quieted(a)) then b else a
  }

  ghost predicate NaNResult(first: bool, a: nat, b: nat, z: nat) {
    z == Quieted(Preferred(first, a, b)) && IsNaN(z) && !IsSignaling(z)
  }

  ghost function NaNFlags(a: nat, b: nat): set<Flag> {
    if IsSignaling(a) || IsSignaling(b) then {Invalid} else {}
  }

  ghost function DenormalFlag(ma: nat, mb: nat): set<Flag> {
    if IsDenormal(ma) || IsDenormal(mb) then {Denormal} else {}
  }

  /** The word doubled drops its sign: the doubled words compare as the magnitudes do. */
  lemma Doubled(a: nat, b: nat)
    requires a < W32 && b < W32
    ensures a * 2 % W32 < b * 2 % W32 <==> Magnitude(a) < Magnitude(b)
    ensures Magnitude(a) == Magnitude(b) && a < b ==> !Negative(a) && Negative(b)
    ensures Magnitude(a) == Magnitude(b) && Negative(a) == Negative(b) ==> a == b
  {
    assert a * 2 % W32 == 2 * Magnitude(a) && b * 2 % W32 == 2 * Magnitude(b);
  }

  lemma QuietedBelow(a: nat)
    requires a < W32
    ensures Quieted(a) < W32
  {
  }

  /** propagateFloat32NaN_two_args */
  method PropagateNaN(a0: nat, b0: nat, status: Status) returns (z: nat)
    requires a0 < W32 && b0 < W32 && (IsNaN(a0) || IsNaN(b0))
    modifies status`flags
    ensures NaNResult(status.firstOperandNaN, a0, b0, z) && status.flags == old(status.flags) + NaNFlags(a0, b0)
  {
    var a, b := Quieted(a0), Quieted(b0);
    QuietedIsQuiet(a0);
    QuietedIsQuiet(b0);
    QuietedBelow(a0);
    QuietedBelow(b0);
    Doubled(a, b);
    Doubled(b, a);
    if IsSignaling(a0) || IsSignaling(b0) {
      status.Raise({Invalid});
    }
    hide Quieted, Magnitude, Negative;
    if status.firstOperandNaN {
      z := if IsNaN(a0) then a else b;
    } else if IsSignaling(a0) && !IsSignaling(b0) {
      z := if IsNaN(b0) then b else a;
    } else if IsNaN(a0) {
      if !IsSignaling(a0) && (IsSignaling(b0) || !IsNaN(b0)) {
        z := a;
      } else {
        z := LargerSignificand(a, b);
      }
    } else {
      z := b;
    }
  }

  method LargerSignificand(a: nat, b: nat) returns (z: nat)
    requires a < W32 && b < W32
    ensures z == if Magnitude(a) != Magnitude(b) then (if Magnitude(a) > Magnitude(b) then a else b)
                 else if Negative(a) then b else a
  {
    Doubled(a, b);
    Doubled(b, a);
    hide Magnitude, Negative;
    if a * 2 % W32 < b * 2 % W32 {
      return b;
    }
    if b * 2 % W32 < a * 2 % W32 {
      return a;
    }
    z := if a < b then a else b;
  }

  /** Rounding and packing a normalized word that stands for num0 / den0 gives num / den, correctly rounded. */
  method PackExact(negative: bool, zExp: int, zSig: nat, status: Status,
                   ghost num0: nat, ghost den0: nat, ghost num: nat, ghost den: nat) returns (z: nat)
    requires Packable(zExp, zSig, num0, den0) && den > 0
    requires Num(num0, zExp) * den == num * Den(den0, zExp)
    modifies status`flags
    ensures z / SIGN == if negative then 1 else 0
    ensures var dir := DirectionOf(status.mode, negative);
            && RoundsTo(dir, num, den, status.masks, status.flushUnderflow, z % SIGN)
            && status.flags == old(status.flags) + Raises(dir, num, den, status.masks, status.flushUnderflow, z % SIGN)
  {
    hide RoundsTo, Raises, Num, Den, Stands, Packed;
    z := status.RoundAndPackFloat32(negative, zExp, zSig, num0, den0);
    DenPositive(den0, zExp);
    OutcomeProportional(DirectionOf(status.mode, negative), Num(num0, zExp), Den(den0, zExp), num, den,
                        status.masks, status.flushUnderflow, z % SIGN);
  }

  /** normalizeRoundAndPackFloat32: the exact value of the unnormalized word and exponent, correctly rounded; the word
      0 gives zero as long as the exponent is not beyond the range. */
  method NormalizeRoundAndPack(negative: bool, zExp: int, zSig: nat, status: Status) returns (z: nat)
    requires zSig < SIGN && -0x7000 <= zExp < 0x7000
    modifies status`flags
    ensures z / SIGN == if negative then 1 else 0
    ensures zSig == 0 ==> (z % SIGN == 0 <==> zExp <= 0x11C)
    ensures zSig != 0 ==>
      var dir := DirectionOf(status.mode, negative);
      && RoundsTo(dir, Num(zSig, zExp), Den(1, zExp), status.masks, status.flushUnderflow, z % SIGN)
      && status.flags == old(status.flags)
                         + Raises(dir, Num(zSig, zExp), Den(1, zExp), status.masks, status.flushUnderflow, z % SIGN)
  {
    var count := CountLeadingZeros32(zSig);
    hide RoundsTo, Raises, Num, Den, Pow2, Packed;
    if zSig == 0 {
      PackedZero(DirectionOf(status.mode, negative), status.masks, status.flushUnderflow, zExp - 31);
      SignSplits(negative,
          Packed(DirectionOf(status.mode, negative), status.masks, status.flushUnderflow, zExp - 31, 0).code);
      z := status.RoundAndPackFloat32(negative, zExp - (count - 1), 0, 0, 1);
    } else {
      z := NormalizeNonzero(negative, zExp, zSig, count, status);
    }
  }

  method NormalizeNonzero(negative: bool, zExp: int, zSig: nat, count: nat, status: Status) returns (z: nat)
    requires 0 < zSig < SIGN && -0x7000 <= zExp < 0x7000 && SIGN <= zSig * Pow2(count) < W32 && count < 32
    modifies status`flags
    ensures z / SIGN == if negative then 1 else 0
    ensures var dir := DirectionOf(status.mode, negative);
            && RoundsTo(dir, Num(zSig, zExp), Den(1, zExp), status.masks, status.flushUnderflow, z % SIGN)
            && status.flags == old(status.flags)
                               + Raises(dir, Num(zSig, zExp), Den(1, zExp), status.masks, status.flushUnderflow,
                                   z % SIGN)
  {
    LeadingBit(zSig, count);
    var shiftCount := count - 1;
    var shifted := zSig * Pow2(shiftCount);
    ShiftedValue(zSig, shiftCount, zExp, shifted);
    DenPositive(1, zExp);
    hide RoundsTo, Raises, Num, Den, Pow2;
    z := PackExact(negative, zExp - shiftCount, shifted, status, shifted, 1, Num(zSig, zExp), Den(1, zExp));
  }

  lemma LeadingBit(a: nat, count: nat)
    requires 0 < a < SIGN && SIGN <= a * Pow2(count) < W32
    ensures count > 0 && 0x4000_0000 <= a * Pow2(count - 1) < SIGN
  {
    if count > 0 {
      assert a * Pow2(count) == 2 * (a * Pow2(count - 1));
    }
  }

  lemma ShiftedValue(a: nat, k: nat, e: int, n: nat)
    requires n == a * Pow2(k)
    ensures Num(n, e - k) * Den(1, e) == Num(a, e) * Den(1, e - k)
  {
    hide Pow2, Num, Den;
    Pow2Small();
    var i, j, i', j' := k + Positive(e - k), Positive(-e) + 7, Positive(e), Positive(k - e) + 7;
    NumPow(a, k, e - k, n);
    NumPow(a, 0, e, a);
    DenPow(1, 0, e, 1);
    DenPow(1, 0, e - k, 1);
    Pow2Add(i, j);
    Pow2Add(i', j');
    Regroup(a, Pow2(j), Pow2(i));
    Regroup(a, Pow2(j'), Pow2(i'));
  }

  /** The word and exponent that float32_mul packs stand for the exact product. */
  lemma MulWord(ma: nat, ea: int, sa: nat, mb: nat, eb: int, sb: nat, x: nat, z: nat)
    requires Normalized(ma, ea, sa) && Normalized(mb, eb, sb)
    requires x == sa * sb && z == ShiftRightJamming(x * 0x8000, 32, 64)
    ensures Pow2(17) > 0
    ensures var e := ea + eb - 0x7F;
            if z < 0x4000_0000 then
              Packable(e - 1, z * 2, 2 * x, Pow2(17))
                  && Num(2 * x, e - 1) * One() == Product(ma, mb) * Den(Pow2(17), e - 1)
            else
              Packable(e, z, x, Pow2(17)) && Num(x, e) * One() == Product(ma, mb) * Den(Pow2(17), e)
  {
    ProductBounds(sa, sb);
    hide Num, Den, Stands, ShiftRightJamming, Value, Pow2, Product, Packable;
    ProductWord(x);
    Pow2Small();
    if z < 0x4000_0000 {
      MulWordAt(ma, ea, sa, mb, eb, sb, 1, x, 2 * x, z * 2);
    } else {
      MulWordAt(ma, ea, sa, mb, eb, sb, 0, x, x, z);
    }
  }

  lemma MulWordAt(ma: nat, ea: int, sa: nat, mb: nat, eb: int, sb: nat, shift: nat, x: nat, n: nat, w: nat)
    requires Normalized(ma, ea, sa) && Normalized(mb, eb, sb) && shift <= 1 && x == sa * sb && n == x * Pow2(shift)
    requires Pow2(17) > 0 && Stands(w, n, Pow2(17), 64) && 0x4000_0000 <= w < SIGN
    ensures var e := ea + eb - 0x7F - shift;
            Packable(e, w, n, Pow2(17)) && Num(n, e) * One() == Product(ma, mb) * Den(Pow2(17), e)
  {
    hide Num, Den, Stands, Value, Pow2;
    ExactProduct(ma, ea, sa, mb, eb, sb, shift, x, n, Product(ma, mb));
  }

  /** The part of float32_mul that handles finite nonzero operands with normalized significands. */
  method MulNormalized(negative: bool, ea: int, sa: nat, eb: int, sb: nat, status: Status, ghost ma: nat,
                       ghost mb: nat) returns (z: nat)
    requires Normalized(ma, ea, sa) && Normalized(mb, eb, sb)
    modifies status`flags
    ensures z / SIGN == if negative then 1 else 0
    ensures var dir := DirectionOf(status.mode, negative);
            && RoundsTo(dir, Product(ma, mb), One(), status.masks, status.flushUnderflow, z % SIGN)
            && status.flags == old(status.flags)
               + Raises(dir, Product(ma, mb), One(), status.masks, status.flushUnderflow, z % SIGN)
  {
    hide RoundsTo, Num, Den, Raises, Normalized, Packable, ShiftRightJamming, Pow2, Product, DirectionOf;
    var zExp := ea + eb - 0x7F;
    ProductShape(sa, sb);
    ghost var x := sa * sb;
    var zSig := ShiftRightJamming((sa * 0x80) * (sb * 0x100), 32, 64);
    MulWord(ma, ea, sa, mb, eb, sb, x, zSig);
    if zSig < 0x4000_0000 {
      z := PackExact(negative, zExp - 1, zSig * 2, status, 2 * x, Pow2(17), Product(ma, mb), One());
    } else {
      z := PackExact(negative, zExp, zSig, status, x, Pow2(17), Product(ma, mb), One());
    }
  }

  lemma ProductShape(a: nat, b: nat)
    ensures (a * 0x80) * (b * 0x100) == a * b * 0x8000 && a * b >= 0
  {
    MulMono(0, a, b);
  }

  // --- Division ---

  /** The exact quotient of two magnitudes is this over Value(mb). */
  ghost function Dividend(ma: nat): (n: nat)
    ensures n == Value(ma) * One()
  {
    MulMono(0, Value(ma), One());
    Value(ma) * One()
  }

  /** The fraction that division packs is the exact quotient. */
  lemma ExactQuotient(ma: nat, ea: int, sa: nat, mb: nat, eb: int, sb: nat, c: nat, n: nat, d: nat)
    requires Normalized(ma, ea, sa) && Normalized(mb, eb, sb) && c <= 1
    requires n == sa * Pow2(39 - c) && d == sb * Pow2(8)
    ensures var e := ea - eb + 0x7D + c;
            Num(n, e) * Value(mb) == Dividend(ma) * Den(d, e)
  {
    var e := ea - eb + 0x7D + c;
    hide Num, Den, Pow2, Value;
    var i, j := 39 - c + Positive(e), 8 + Positive(-e) + 7;
    NumPow(sa, 39 - c, e, n);
    DenPow(sb, 8, e, d);
    Pow2Add(i, eb + 22);
    Pow2Add(ea + 22, 149);
    Pow2Add(ea + 22 + 149, j);
    assert i + (eb + 22) == ea + 22 + 149 + j;
    FinishQuotient(sa, sb, Pow2(i), Pow2(eb + 22), Pow2(ea + 22), One(), Pow2(j), Value(ma), Value(mb), Pow2(23));
  }

  lemma FinishQuotient(a: nat, b: nat, p: nat, q: nat, r: nat, one: nat, t: nat, va: nat, vb: nat, k: nat)
    requires p * q == r * one * t && va * k == a * r && vb * k == b * q && k > 0
    ensures (a * p) * vb == (va * one) * (b * t)
  {
    assert ((a * p) * vb) * k == (a * p) * (b * q) by {
      Regroup(a * p, k, vb);
    }
    Regroup4(a, b, p, q);
    assert ((va * one) * (b * t)) * k == (a * r * one) * (b * t) by {
      SwapFactors(va * one, b * t, k);
      SwapFactors(va, one, k);
    }
    Regroup4(a, b, r * one, t);
    Regroup(a, one, r);
    Cancel((a * p) * vb, (va * one) * (b * t), k);
  }

  /** float32_div's sticky bit, set only when the low six quotient bits are zero, suffices. */
  lemma QuotientWord(n: nat, d: nat, q: nat)
    requires d > 0 && q * d <= n < q * d + d
    ensures Stands(if q % 64 == 0 && q * d != n then q + 1 else q, n, d, 64)
  {
    var low := q - q % 64;
    if q * d != n {
      MulMono(low, q, d);
      MulMono(q + 1, low + 64, d);
      MulMono(q, q, d);
      Within(if q % 64 == 0 then q + 1 else q, n, d, low);
    }
  }

  lemma QuotientBounds(n: nat, d: nat, q: nat, low: nat, high: nat)
    requires d > 0 && q * d <= n < q * d + d && low * d <= n < high * d
    ensures low <= q < high
  {
    MulMono(q + 1, low, d);
    MulMono(q, q, d);
    MulMono(high, q, d);
  }

  /** The part of float32_div that handles finite nonzero operands with normalized significands. */
  method DivNormalized(negative: bool, ea: int, sa: nat, eb: int, sb: nat, status: Status, ghost ma: nat,
                       ghost mb: nat) returns (z: nat)
    requires Normalized(ma, ea, sa) && Normalized(mb, eb, sb) && Value(mb) > 0
    modifies status`flags
    ensures z / SIGN == if negative then 1 else 0
    ensures var dir := DirectionOf(status.mode, negative);
            && RoundsTo(dir, Dividend(ma), Value(mb), status.masks, status.flushUnderflow, z % SIGN)
            && status.flags == old(status.flags)
               + Raises(dir, Dividend(ma), Value(mb), status.masks, status.flushUnderflow, z % SIGN)
  {
    hide RoundsTo, Num, Den, Raises, Stands, Value, Pow2, Quotient, Dividend;
    var zExp := ea - eb + 0x7D;
    var aSig, bSig := sa * 0x80, sb * 0x100;
    ghost var c := 0;
    if bSig <= aSig + aSig {
      aSig := aSig / 2;
      assert aSig == sa * 0x40;
      zExp := zExp + 1;
      c := 1;
    }
    var q := Quotient(aSig * W32, bSig);
    QuotientBounds(aSig * W32, bSig, q, 0x4000_0000, SIGN);
    QuotientWord(aSig * W32, bSig, q);
    var zSig := q;
    if zSig % 64 == 0 {
      if bSig * zSig != aSig * W32 {
        zSig := zSig + 1;
      }
    }
    Shifted39(sa, c, aSig * W32);
    Pow2Small();
    ExactQuotient(ma, ea, sa, mb, eb, sb, c, aSig * W32, bSig);
    z := PackExact(negative, zExp, zSig, status, aSig * W32, bSig, Dividend(ma), Value(mb));
  }

  lemma Shifted39(s: nat, c: nat, n: nat)
    requires c <= 1 && n == s * (if c == 0 then 0x80_0000_0000 else 0x40_0000_0000)
    ensures n == s * Pow2(39 - c)
  {
    hide Pow2;
    Pow2Values();
    Pow2Add(32, 7);
    Pow2Add(32, 6);
    Pow2Small();
  }

  // --- The two operations ---

  /** Unpacking: sign, exponent field and fraction, the fraction dropped if denormals count as zeros. */
  method Unpack(a: nat, status: Status) returns (negative: bool, exp: nat, sig: nat)
    requires a < W32
    ensures negative == Negative(a) && exp <= 0xFF && sig < FRACTION
    ensures exp * FRACTION + sig == Operand(a, status.denormalsAreZeros)
    ensures IsNaN(a) <==> exp == 0xFF && sig != 0
  {
    negative, exp, sig := a >= SIGN, a / FRACTION % 0x100, a % FRACTION;
    UnpackFields(a);
    if status.denormalsAreZeros {
      if exp == 0 {
        sig := 0;
      }
    }
  }

  lemma UnpackFields(a: nat)
    requires a < W32
    ensures a / FRACTION % 0x100 * FRACTION + a % FRACTION == Magnitude(a)
  {
    var s, m := a / SIGN, a % SIGN;
    assert a == s * SIGN + m && a / FRACTION == s * 0x100 + m / FRACTION && a % FRACTION == m % FRACTION;
    assert m / FRACTION < 0x100;
  }

  /** A finite nonzero operand's exponent and significand; a subnormal one raises an exception. */
  method Normalize(exp0: nat, sig0: nat, status: Status) returns (exp: int, sig: nat)
    requires exp0 < 0xFF && sig0 < FRACTION && exp0 * FRACTION + sig0 > 0
    modifies status`flags
    ensures Normalized(exp0 * FRACTION + sig0, exp, sig)
    ensures status.flags == old(status.flags) + if exp0 == 0 then {Denormal} else {}
  {
    if exp0 == 0 {
      status.Raise({Denormal});
      exp, sig := NormalizeSubnormal(sig0);
    } else {
      exp, sig := exp0, sig0 + FRACTION;
      NormalIsNormalized(exp0, sig, exp0 * FRACTION + sig0);
    }
  }

  lemma NormalIsNormalized(exp: nat, s: nat, code: nat)
    requires 1 <= exp <= 0xFE && FRACTION <= s < 2 * FRACTION && code == (exp - 1) * FRACTION + s
    ensures Normalized(code, exp, s)
  {
    hide Pow2, Value;
    NormalValue(exp - 1, s, code);
    Pow2Add(exp - 1, 23);
    Regroup(s, Pow2(23), Pow2(exp - 1));
  }

  lemma ValuePositive(code: nat)
    requires code > 0
    ensures Value(code) > 0
  {
    ValueMono(0, code);
  }

  /** float32_mul: special operands as IEEE 754 has them, and for finite nonzero operands the exact
      product, correctly rounded in every mode and for every choice of masked exceptions and flushing. */
  method Float32Mul(a: nat, b: nat, status: Status) returns (z: nat)
    requires a < W32 && b < W32
    modifies status`flags
    ensures var ma, mb := Operand(a, status.denormalsAreZeros), Operand(b, status.denormalsAreZeros);
            var negative := Negative(a) != Negative(b);
            var raised := old(status.flags) + DenormalFlag(ma, mb);
            if IsNaN(a) || IsNaN(b) then NaNResult(status.firstOperandNaN, a, b, z)
                && status.flags == old(status.flags) + NaNFlags(a, b)
            else if (ma == INFINITY && mb == 0) || (ma == 0 && mb == INFINITY) then
              z == DEFAULT_NAN && status.flags == old(status.flags) + {Invalid}
            else if ma == INFINITY || mb == INFINITY then z == SignBit(negative) + INFINITY && status.flags == raised
            else if ma == 0 || mb == 0 then z == SignBit(negative) && status.flags == raised
            else
              && z / SIGN == (if negative then 1 else 0)
              && var dir := DirectionOf(status.mode, negative);
              && RoundsTo(dir, Product(ma, mb), One(), status.masks, status.flushUnderflow, z % SIGN)
              && status.flags == raised
                 + Raises(dir, Product(ma, mb), One(), status.masks, status.flushUnderflow, z % SIGN)
  {
    hide RoundsTo, Raises, Value, Product, NaNResult, NaNFlags, Normalized;
    var aSign, aExp, aSig := Unpack(a, status);
    var bSign, bExp, bSig := Unpack(b, status);
    var negative := aSign != bSign;
    if aExp == 0xFF {
      if aSig != 0 || (bExp == 0xFF && bSig != 0) {
        z := PropagateNaN(a, b, status);
        return;
      }
      if bExp == 0 && bSig == 0 {
        status.Raise({Invalid});
        return DEFAULT_NAN;
      }
      if bSig != 0 && bExp == 0 {
        status.Raise({Denormal});
      }
      return SignBit(negative) + INFINITY;
    }
    if bExp == 0xFF {
      if bSig != 0 {
        z := PropagateNaN(a, b, status);
        return;
      }
      if aExp == 0 && aSig == 0 {
        status.Raise({Invalid});
        return DEFAULT_NAN;
      }
      if aSig != 0 && aExp == 0 {
        status.Raise({Denormal});
      }
      return SignBit(negative) + INFINITY;
    }
    if aExp == 0 && aSig == 0 {
      if bSig != 0 && bExp == 0 {
        status.Raise({Denormal});
      }
      return SignBit(negative);
    }
    var ea, sa := Normalize(aExp, aSig, status);
    if bExp == 0 && bSig == 0 {
      return SignBit(negative);
    }
    var eb, sb := Normalize(bExp, bSig, status);
    z := MulNormalized(negative, ea, sa, eb, sb, status, aExp * FRACTION + aSig, bExp * FRACTION + bSig);
  }

  /** float32_div: special operands as IEEE 754 has them, and for finite nonzero operands the exact
      quotient, correctly rounded in every mode and for every choice of masked exceptions and flushing. */
  method Float32Div(a: nat, b: nat, status: Status) returns (z: nat)
    requires a < W32 && b < W32
    modifies status`flags
    ensures var ma, mb := Operand(a, status.denormalsAreZeros), Operand(b, status.denormalsAreZeros);
            var negative := Negative(a) != Negative(b);
            var raised := old(status.flags) + DenormalFlag(ma, mb);
            if IsNaN(a) || IsNaN(b) then NaNResult(status.firstOperandNaN, a, b, z)
                && status.flags == old(status.flags) + NaNFlags(a, b)
            else if (ma == INFINITY && mb == INFINITY) || (ma == 0 && mb == 0) then
              z == DEFAULT_NAN && status.flags == old(status.flags) + {Invalid}
            else if ma == INFINITY then z == SignBit(negative) + INFINITY && status.flags == raised
            else if mb == INFINITY then z == SignBit(negative) && status.flags == raised
            else if mb == 0 then z == SignBit(negative) + INFINITY && status.flags == old(status.flags) + {DivByZero}
            else if ma == 0 then z == SignBit(negative) && status.flags == raised
            else
              && z / SIGN == (if negative then 1 else 0)
              && var dir := DirectionOf(status.mode, negative);
              && RoundsTo(dir, Dividend(ma), Value(mb), status.masks, status.flushUnderflow, z % SIGN)
              && status.flags == raised
                 + Raises(dir, Dividend(ma), Value(mb), status.masks, status.flushUnderflow, z % SIGN)
  {
    hide RoundsTo, Raises, Value, Dividend, NaNResult, NaNFlags, Normalized, DirectionOf;
    var aSign, aExp, aSig := Unpack(a, status);
    var bSign, bExp, bSig := Unpack(b, status);
    var negative := aSign != bSign;
    if aExp == 0xFF {
      if aSig != 0 {
        z := PropagateNaN(a, b, status);
        return;
      }
      if bExp == 0xFF {
        if bSig != 0 {
          z := PropagateNaN(a, b, status);
          return;
        }
        status.Raise({Invalid});
        return DEFAULT_NAN;
      }
      if bSig != 0 && bExp == 0 {
        status.Raise({Denormal});
      }
      return SignBit(negative) + INFINITY;
    }
    if bExp == 0xFF {
      if bSig != 0 {
        z := PropagateNaN(a, b, status);
        return;
      }
      if aSig != 0 && aExp == 0 {
        status.Raise({Denormal});
      }
      return SignBit(negative);
    }
    if bExp == 0 && bSig == 0 {
      if aExp == 0 && aSig == 0 {
        status.Raise({Invalid});
        return DEFAULT_NAN;
      }
      status.Raise({DivByZero});
      return SignBit(negative) + INFINITY;
    }
    var eb, sb := Normalize(bExp, bSig, status);
    if aExp == 0 && aSig == 0 {
      return SignBit(negative);
    }
    var ea, sa := Normalize(aExp, aSig, status);
    ValuePositive(bExp * FRACTION + bSig);
    z := DivNormalized(negative, ea, sa, eb, sb, status, aExp * FRACTION + aSig, bExp * FRACTION + bSig);
  }
}
