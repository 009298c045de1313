/** The partial remainder (remainder_kernel and do_fprem of src/halfix/softfloat.c): exact quotients and remainders,
    packed without rounding. */
module Remainder {
  import opened Words
  import opened Words128
  import opened Rounding
  import opened SoftFloat32
  import opened FloatInt
  import opened Floatx80Pack

  // --- remainder_kernel ---

  /** shortShift128Left of a word: the pair holds aSig shifted left by expDiff. */
  method ShiftLeft(aSig: nat, expDiff: nat) returns (high: nat, low: nat)
    requires IsWord(aSig) && expDiff < 64
    ensures IsWord(low) && high < TOP && Join(high, low) == aSig * Pow2(expDiff)
  {
    assert 0 * Pow2(expDiff) == 0;
    high, low := ShortShift128Left(0, aSig, expDiff);
    Pow2Mono(expDiff, 63);
    hide Pow2;
    Pow63();
    MulMono(aSig, W64, Pow2(expDiff));
    MulMono(Pow2(expDiff), TOP, W64);
  }

  lemma Pow63()
    ensures Pow2(63) == TOP
  {
    Pow2Values();
    assert Pow2(64) == 2 * Pow2(63);
    hide Pow2;
  }

  /** The quotient estimate less its error, and the remainder that goes with it. */
  ghost predicate Estimating(a: nat, b: nat, q: nat, rem: int, z1: nat, z0: nat)
    requires b > 0
  {
    && IsWord(z1) && IsWord(z0) && Quotient(a, b) <= q
    && rem == a - q * b && -(3 * W64) <= rem < b
    && Join(z1, z0) == if rem >= 0 then rem else rem + W128
  }

  /** remainder_kernel: the exact quotient and remainder of the shifted significand. */
  method RemainderKernel(aSig: nat, bSig: nat, expDiff: nat) returns (q: nat, zSig0: nat, zSig1: nat)
    requires IsWord(aSig) && TOP <= bSig < W64 && expDiff < 64
    ensures q == Quotient(aSig * Pow2(expDiff), bSig) && IsWord(q)
    ensures zSig0 < bSig && zSig1 == 0 && aSig * Pow2(expDiff) == q * bSig + zSig0
  {
    var aSig1, aSig0 := ShiftLeft(aSig, expDiff);
    ghost var a := aSig * Pow2(expDiff);
    q := EstimateDiv128To64(aSig1, aSig0, bSig);
    EstimateBounds(a, bSig, q);
    zSig1, zSig0 := FirstRemainder(aSig1, aSig0, bSig, q);
    ghost var rem: int := a - q * bSig;
    assert bSig * q == q * bSig;
    hide Quotient, Join, Pow2;
    NegativeSign(rem, zSig1, zSig0);
    while IsNegative(zSig1)
      invariant Estimating(a, bSig, q, rem, zSig1, zSig0) && IsWord(q)
      invariant (IsNegative(zSig1) <==> rem < 0) && (rem >= 0 ==> zSig1 == 0 && zSig0 == rem)
      decreases q
    {
      CorrectionStep(a, bSig, q, rem);
      JoinWord(bSig);
      q := q - 1;
      zSig1, zSig0 := Add128(zSig1, zSig0, 0, bSig);
      rem := rem + bSig;
      NegativeSign(rem, zSig1, zSig0);
    }
    QuotientIs(a, bSig, q);
  }

  lemma JoinWord(b: nat)
    ensures Join(0, b) == b
  {
  }

  lemma EstimateBounds(a: nat, b: nat, q: nat)
    requires 0 < b < W64 && Quotient(a, b) <= q <= Quotient(a, b) + 2
    ensures -(3 * W64) <= a - q * b < b
  {
    var t := Quotient(a, b);
    hide Quotient;
    MulMono(t, q, b);
    MulMono(q, t + 2, b);
    assert (t + 2) * b == t * b + 2 * b;
  }

  lemma NegativeSign(rem: int, z1: nat, z0: nat)
    requires IsWord(z1) && IsWord(z0) && -(3 * W64) <= rem < W64
    requires Join(z1, z0) == if rem >= 0 then rem else rem + W128
    ensures IsNegative(z1) <==> rem < 0
    ensures rem >= 0 ==> z1 == 0 && z0 == rem
  {
  }

  // --- do_fprem, on normalized significands ---

  /** A remainder not yet packed: sign, exponent, significand pair; the quotient's bits; and whether the
      reduction is incomplete. Its magnitude is Join(sig0, sig1) * 2^(exp - 64) on the significands' scale. */
  datatype Partial = Partial(negative: bool, exp: int, sig0: nat, sig1: nat, q: nat, incomplete: bool)

  function Significand(r: Partial): nat { Join(r.sig0, r.sig1) }

  /** The remainder with the sign it has relative to the dividend's sign. */
  function Relative(r: Partial, negative: bool): int {
    if r.negative == negative then Significand(r) else -(Significand(r) as int)
  }

  /** `r` is the remainder of a by b: the dividend is the quotient times the divisor plus the remainder,
      which is truncated, or at most half the divisor with an even quotient at exactly half. Both sides
      are doubled, since the dividend's exponent may be one below the divisor's. */
  ghost predicate IsRemainder(aSig: nat, expDiff: int, bSig: nat, nearest: bool, negative: bool, r: Partial)
    requires expDiff >= -1
  {
    var rel := Relative(r, negative);
    && aSig * Pow2(expDiff + 1) * W64 == 2 * (r.q * bSig * W64 + rel)
    && if nearest then
         && -(bSig * W64) <= 2 * rel <= bSig * W64
         && (2 * rel == bSig * W64 || 2 * rel == -(bSig * W64) ==> r.q % 2 == 0)
       else 0 <= rel < bSig * W64
  }

  /** The rounding of the quotient to nearest, and the remainder's change of sign with it. */
  method ToNearest(r: Partial, bSig: nat) returns (r': Partial)
    requires IsWord(r.sig0) && IsWord(r.sig1) && TOP <= bSig < W64 && Significand(r) < bSig * W64
    ensures r'.exp == r.exp && r'.incomplete == r.incomplete && IsWord(r'.sig0) && IsWord(r'.sig1)
    ensures var half := bSig * (W64 / 2); var s := Significand(r);
            if s > half || (s == half && r.q % 2 == 1) then
              r'.negative == !r.negative && r'.q == r.q + 1 && Significand(r') == bSig * W64 - s
            else r' == r
  {
    var term0, term1 := bSig / 2, bSig % 2 * TOP;
    var aSig0, aSig1, q, negative := r.sig0, r.sig1, r.q, r.negative;
    if !(aSig0 < term0 || (aSig0 == term0 && aSig1 < term1)) {
      var lt := term0 < aSig0 || (term0 == aSig0 && term1 < aSig1);
      var eq := aSig0 == term0 && aSig1 == term1;
      if (eq && q % 2 == 1) || lt {
        negative := !negative;
        q := q + 1;
      }
      if lt {
        aSig0, aSig1 := Sub128(bSig, 0, aSig0, aSig1);
      }
    }
    r' := Partial(negative, r.exp, aSig0, aSig1, q, r.incomplete);
  }

  /** The truncated quotient and remainder, in the three cases of the exponent difference. */
  lemma TruncatedIs(aSig: nat, bSig: nat, expDiff: int, r: Partial, negative: bool)
    requires TOP <= aSig < W64 && TOP <= bSig < W64 && -1 <= expDiff < 64 && r.negative == negative
    requires if expDiff == -1 then r.q == 0 && r.sig0 == aSig / 2 && r.sig1 == aSig % 2 * TOP
             else r.sig1 == 0 && r.sig0 < bSig && aSig * Pow2(expDiff) == r.q * bSig + r.sig0
    ensures IsRemainder(aSig, expDiff, bSig, false, negative, r)
  {
    if expDiff == -1 {
      assert Pow2(0) == 1;
    } else {
      var x := r.q * bSig;
      Twice(aSig, expDiff);
      hide Pow2;
    }
  }

  lemma Twice(a: nat, n: nat)
    ensures a * Pow2(n + 1) == 2 * (a * Pow2(n))
  {
  }

  lemma NearestIs(aSig: nat, expDiff: int, bSig: nat, negative: bool, t: Partial, r: Partial)
    requires expDiff >= -1 && IsRemainder(aSig, expDiff, bSig, false, negative, t) && t.negative == negative
    requires var half := bSig * (W64 / 2); var s := Significand(t);
             if s > half || (s == half && t.q % 2 == 1) then
               r.negative == !t.negative && r.q == t.q + 1 && Significand(r) == bSig * W64 - s
             else r == t
    ensures IsRemainder(aSig, expDiff, bSig, true, negative, r)
  {
    hide Pow2, Join;
    assert (t.q + 1) * bSig == t.q * bSig + bSig;
  }

  /** The truncated quotient and remainder, below an exponent difference of 64, from -1 up. */
  method Truncated(negative: bool, aSig: nat, bExp: int, bSig: nat, expDiff: int) returns (r: Partial)
    requires TOP <= aSig < W64 && TOP <= bSig < W64 && -1 <= expDiff < 64
    ensures r.exp == bExp && !r.incomplete && r.negative == negative && IsWord(r.sig0) && IsWord(r.sig1)
    ensures r.q < W64 && (r.q == W64 - 1 ==> r.sig0 == 0 && r.sig1 == 0)
    ensures IsRemainder(aSig, expDiff, bSig, false, negative, r) && ShortPair(Significand(r))
  {
    hide ShortPair, IsRemainder, Join;
    var aSig0, aSig1, q, difference := aSig, 0, 0, expDiff;
    if difference < 0 {
      aSig0, aSig1 := aSig / 2, aSig % 2 * TOP;
      difference := 0;
    }
    if difference > 0 {
      q, aSig0, aSig1 := RemainderKernel(aSig, bSig, difference);
    } else {
      Pow2Small();
      if bSig <= aSig0 {
        aSig0 := aSig0 - bSig;
        q := 1;
      }
    }
    r := Partial(negative, bExp, aSig0, aSig1, q, false);
    TruncatedIs(aSig, bSig, expDiff, r, negative);
    TruncatedShort(aSig, aSig0, aSig1, expDiff);
    if expDiff >= 0 {
      QuotientFits(aSig, expDiff, bSig, q, aSig0);
    }
  }

  /** The part of do_fprem below an exponent difference of 64, from -1 up. */
  method ReduceFully(negative: bool, aSig: nat, bExp: int, bSig: nat, expDiff: int, nearest: bool) returns (r: Partial)
    requires TOP <= aSig < W64 && TOP <= bSig < W64 && -1 <= expDiff < 64
    ensures r.exp == bExp && !r.incomplete && IsWord(r.sig0) && IsWord(r.sig1) && IsWord(r.q)
    ensures IsRemainder(aSig, expDiff, bSig, nearest, negative, r) && ShortPair(Significand(r))
  {
    r := Truncated(negative, aSig, bExp, bSig, expDiff);
    TruncatedBound(aSig, expDiff, bSig, negative, r);
    hide ShortPair, IsRemainder, Pow2;
    if nearest {
      var t := r;
      ZeroPair(t);
      r := ToNearest(t, bSig);
      hide Join;
      NearestIs(aSig, expDiff, bSig, negative, t, r);
      NearestShort(t, r, bSig);
    }
  }

  lemma TruncatedBound(aSig: nat, expDiff: int, bSig: nat, negative: bool, r: Partial)
    requires expDiff >= -1 && IsRemainder(aSig, expDiff, bSig, false, negative, r) && r.negative == negative
    ensures Significand(r) < bSig * W64
  {
    hide Pow2, Join;
  }

  lemma ZeroPair(t: Partial)
    ensures t.sig0 == 0 && t.sig1 == 0 ==> Significand(t) == 0
  {
  }

  lemma TruncatedShort(aSig: nat, sig0: nat, sig1: nat, expDiff: int)
    requires IsWord(aSig) && if expDiff == -1 then sig0 == aSig / 2 && sig1 == aSig % 2 * TOP else sig1 == 0
    ensures ShortPair(Join(sig0, sig1))
  {
    if expDiff == -1 {
      assert Join(sig0, sig1) == aSig * TOP;
      HalfWords(aSig);
    } else {
      WordIsShort(sig0);
    }
  }

  lemma WordIsShort(sig0: nat)
    ensures ShortPair(Join(sig0, 0))
  {
    WholeWords(sig0, 1);
  }

  /** A remainder taken from the other side has as many bits. */
  lemma NearestShort(t: Partial, r: Partial, bSig: nat)
    requires IsWord(bSig) && ShortPair(Significand(t))
    requires r == t || (bSig * (W64 / 2) <= Significand(t) && Significand(r) == bSig * W64 - Significand(t))
    ensures ShortPair(Significand(r))
  {
    hide Join;
    var s := Significand(t);
    if r != t {
      if s % W64 == 0 {
        WholeWords(bSig - s / W64, 1);
      } else {
        HalfWords(2 * bSig - s / TOP);
      }
    }
  }

  lemma HalfWords(j: nat)
    ensures j * TOP % TOP == 0
  {
  }

  /** The quotient, rounded up or not, fits a word. */
  lemma QuotientFits(aSig: nat, expDiff: nat, bSig: nat, q: nat, rest: nat)
    requires IsWord(aSig) && expDiff < 64 && bSig >= TOP && aSig * Pow2(expDiff) == q * bSig + rest
    ensures q < W64 && (q == W64 - 1 ==> rest == 0)
  {
    Pow2Mono(expDiff, 63);
    Pow2Values();
    assert Pow2(64) == 2 * Pow2(63);
    hide Pow2;
    MulMono(Pow2(expDiff), TOP, aSig);
    ProductFits(aSig * Pow2(expDiff), bSig, q, rest);
  }

  lemma ProductFits(x: nat, b: nat, q: nat, rest: nat)
    requires b >= TOP && x == q * b + rest && x <= (W64 - 1) * TOP
    ensures q < W64 && (q == W64 - 1 ==> rest == 0)
  {
    MulMono(W64, q, b);
  }

  /** An incomplete reduction by `n` bits: the remainder of the dividend shifted by n alone. */
  ghost predicate IsPartial(aSig: nat, n: nat, bSig: nat, r: Partial) {
    r.sig1 == 0 && r.sig0 < bSig && exists k: nat :: Reduces(aSig, n, bSig, k, r.sig0)
  }

  ghost predicate Reduces(aSig: nat, n: nat, bSig: nat, k: nat, rest: nat) {
    aSig * Pow2(n) == k * bSig + rest
  }

  ghost predicate Reduced(negative: bool, aExp: int, aSig: nat, bExp: int, bSig: nat, nearest: bool, r: Partial)
    requires aExp - bExp >= -1
  {
    var expDiff := aExp - bExp;
    if expDiff >= 64 then
      var n := expDiff % 32 + 32;
      r.incomplete && r.negative == negative && r.exp == aExp - n && r.q == 0 && IsPartial(aSig, n, bSig, r)
    else !r.incomplete && r.exp == bExp && IsRemainder(aSig, expDiff, bSig, nearest, negative, r)
  }

  /** The reduction of do_fprem, for finite nonzero operands with normalized significands: up to an exponent difference
      of 63 the result is the remainder; beyond, a partial remainder with a smaller exponent. */
  method Fprem(negative: bool, aExp: int, aSig: nat, bExp: int, bSig: nat, nearest: bool) returns (r: Partial)
    requires TOP <= aSig < W64 && TOP <= bSig < W64 && aExp - bExp >= -1
    ensures Reduced(negative, aExp, aSig, bExp, bSig, nearest, r)
    ensures IsWord(r.sig0) && IsWord(r.sig1) && ShortPair(Significand(r))
  {
    hide ShortPair;
    var expDiff := aExp - bExp;
    if expDiff >= 64 {
      var n := expDiff % 32 + 32;
      var k, sig0, sig1 := RemainderKernel(aSig, bSig, n);
      r := Partial(negative, aExp - n, sig0, sig1, 0, true);
      assert Reduces(aSig, n, bSig, k, sig0);
      WordIsShort(sig0);
    } else {
      r := ReduceFully(negative, aSig, bExp, bSig, expDiff, nearest);
    }
  }

  // --- Any operands ---

  predicate IsInfinity(a: Floatx80) { a.exp == SPECIAL && a.fraction == TOP }

  predicate IsNaN(a: Floatx80) { a.exp == SPECIAL && a.fraction > TOP }

  const QUIET := 0x4000_0000_0000_0000

  predicate IsSignaling(a: Floatx80) { IsNaN(a) && a.fraction < TOP + QUIET }

  function Quieted(a: Floatx80): Floatx80 {
    if IsSignaling(a) then a.(fraction := a.fraction + QUIET) else a
  }

  /** Of two operands of which one is a NaN, the one that is passed on: a quiet NaN before a signaling one, then the
      one with the larger significand, then the positive one. */
  function Preferred(a: Floatx80, b: Floatx80): Floatx80 {
    if !IsNaN(b) then a
    else if !IsNaN(a) then b
    else if IsSignaling(a) != IsSignaling(b) then if IsSignaling(a) then b else a
    else if Quieted(a).fraction != Quieted(b).fraction then
      if Quieted(a).fraction > Quieted(b).fraction then a else b
    else if a.negative then b else a
  }

  /** propagateFloatx80NaN_two_args, for supported encodings. */
  method PropagateNaN(a: Floatx80, b: Floatx80, status: Status) returns (z: Floatx80)
    requires a.fraction < W64 && b.fraction < W64 && (IsNaN(a) || IsNaN(b))
    modifies status`flags
    ensures z == Quieted(Preferred(a, b)) && IsNaN(z) && !IsSignaling(z)
    ensures status.flags == old(status.flags) + if IsSignaling(a) || IsSignaling(b) then {Invalid} else {}
  {
    var qa, qb := Quieted(a), Quieted(b);
    if IsSignaling(a) || IsSignaling(b) {
      status.Raise({Invalid});
    }
    if IsSignaling(a) && !IsSignaling(b) {
      return if IsNaN(b) then qb else qa;
    }
    if !IsNaN(a) {
      return qb;
    }
    if !IsSignaling(a) && (IsSignaling(b) || !IsNaN(b)) {
      return qa;
    }
    if qa.fraction < qb.fraction {
      return qb;
    }
    if qb.fraction < qa.fraction {
      return qa;
    }
    z := if !qa.negative && qb.negative then qa else qb;
  }

  predicate IsZero(a: Floatx80) { a.exp == 0 && a.fraction == 0 }

  predicate IsSubnormal(a: Floatx80) { a.exp == 0 && a.fraction != 0 }

  /** A supported finite nonzero operand. */
  predicate IsNumber(a: Floatx80) { a.exp < SPECIAL && a.fraction < W64 && !Unsupported(a) && !IsZero(a) }

  /** A finite nonzero operand's value as a normalized significand and exponent. */
  ghost predicate NormalForm(a: Floatx80, exp: int, sig: nat) {
    var e := if a.exp == 0 then 1 else a.exp;
    TOP <= sig < W64 && exp <= e && sig == a.fraction * Pow2(e - exp)
  }

  /** normalizeFloatx80Subnormal, where it is needed. */
  method Normalize(a: Floatx80, status: Status) returns (exp: int, sig: nat)
    requires IsNumber(a)
    modifies status`flags
    ensures NormalForm(a, exp, sig)
    ensures status.flags == old(status.flags) + if IsSubnormal(a) then {Denormal} else {}
  {
    if a.exp == 0 {
      status.Raise({Denormal});
      var count := CountLeadingZeros64(a.fraction);
      exp, sig := 1 - count as int, a.fraction * Pow2(count);
      assert 1 - exp == count;
    } else {
      exp, sig := a.exp, a.fraction;
      assert Pow2(0) == 1;
    }
  }

  // --- Remainders of magnitudes ---

  /** `rel` is the remainder of `a` by `b` with quotient `q`: truncated, or at most half the divisor with an even
      quotient at exactly half. */
  ghost predicate RemainderOf(a: nat, b: nat, nearest: bool, rel: int, q: nat) {
    a == q * b + rel &&
    if nearest then -(b as int) <= 2 * rel <= b && (2 * rel == b || 2 * rel == -(b as int) ==> q % 2 == 0)
    else 0 <= rel < b
  }

  /** `v` is `a` less a multiple of eight times `b`, and at least 31 bits shorter. */
  ghost predicate PartOf(a: nat, b: nat, v: nat) {
    v * Pow2(31) < a && exists k: nat :: Leaves(a, b, k, v)
  }

  ghost predicate Leaves(a: nat, b: nat, k: nat, v: nat) { a == 8 * k * b + v }

  /** A normalized significand has its number's magnitude. */
  lemma NormalMagnitude(a: Floatx80, exp: int, sig: nat)
    requires NormalForm(a, exp, sig) && exp >= LOW
    ensures sig * Pow2(exp - LOW) == Magnitude(a) * Pow2(1 - LOW)
  {
    var e := if a.exp == 0 then 1 else a.exp;
    Pow2Add(e - exp, exp - LOW);
    Pow2Add(e - 1, 1 - LOW);
    hide Pow2;
    Assoc(a.fraction, Pow2(e - exp), Pow2(exp - LOW));
    Assoc(a.fraction, Pow2(e - 1), Pow2(1 - LOW));
  }

  /** A complete reduction gives the remainder of the magnitudes. */
  lemma CompleteValue(a: Floatx80, aExp: int, aSig: nat, b: Floatx80, bExp: int, bSig: nat, nearest: bool, r: Partial)
    returns (v: nat)
    requires NormalForm(a, aExp, aSig) && NormalForm(b, bExp, bSig) && LOW < bExp && aExp - bExp >= -1
    requires IsRemainder(aSig, aExp - bExp, bSig, nearest, a.negative, r)
    ensures IsWorth(bExp, Significand(r), v)
    ensures RemainderOf(Magnitude(a), Magnitude(b), nearest, Signed(r.negative != a.negative, v), r.q)
  {
    hide Pow2;
    NormalMagnitude(a, aExp, aSig);
    NormalMagnitude(b, bExp, bSig);
    var t, u, rel := Pow2(bExp - LOW), Pow2(1 - LOW), Relative(r, a.negative);
    HalfPower(bExp - LOW);
    Pow2Add(aExp - bExp + 1, bExp - 1 - LOW);
    hide NormalForm, Pow2, Significand, Magnitude, RemainderOf;
    var value := CompleteNumbers(aSig, Pow2(aExp - bExp + 1), Pow2(bExp - 1 - LOW), t, r.q, bSig, rel, Magnitude(a),
                                 Magnitude(b), u, nearest);
    v := SignedWorth(Significand(r), t, value, W64 * u, r.negative == a.negative);
  }

  /** The same, on the numbers involved: the equation and the bounds carry over to the scale of magnitudes. */
  lemma CompleteNumbers(aSig: nat, p: nat, h: nat, t: nat, q: nat, bSig: nat, rel: int, va: nat, vb: nat, u: nat,
                        nearest: bool)
    returns (value: int)
    requires aSig * p * W64 == 2 * (q * bSig * W64 + rel) && t == 2 * h && t > 0 && u > 0
    requires va * u == aSig * (p * h) && vb * u == bSig * t
    requires if nearest then -(bSig * W64) <= 2 * rel <= bSig * W64
                             && (2 * rel == bSig * W64 || 2 * rel == -(bSig * W64) ==> q % 2 == 0)
             else 0 <= rel < bSig * W64
    ensures RemainderOf(va, vb, nearest, value, q) && rel * t == value * (W64 * u)
  {
    ScaledEquation(aSig, p, h, t, q, bSig, rel, va * u, vb * u);
    value := ValueOfRest(va, vb, q, u, rel * t);
    ScaledBounds(rel, bSig, t, vb * u);
    Times(vb, u, W64);
    ValueBounds(value, vb, W64 * u, rel * t, vb * u * W64);
  }

  lemma Times(a: nat, b: nat, c: nat)
    ensures a * b * c == a * (c * b)
  {
  }

  /** The difference that the scaled remainder stands for. */
  lemma ValueOfRest(va: nat, vb: nat, q: nat, u: nat, rest: int) returns (value: int)
    requires va * u * W64 == q * (vb * u) * W64 + rest
    ensures value == va - q * vb && rest == value * (W64 * u)
  {
    value := va - q * vb;
    Assoc(q, vb, u);
    Times(va, u, W64);
    Times(q * vb, u, W64);
    Less(va, q * vb, W64 * u);
  }

  lemma Less(a: int, b: int, w: int)
    ensures (a - b) * w == a * w - b * w
  {
  }

  /** A significand with its sign, and the magnitude it is worth. */
  lemma SignedWorth(s: nat, t: nat, value: int, w: nat, same: bool) returns (v: nat)
    requires w > 0 && t > 0 && Signed(!same, s) * t == value * w
    ensures value == Signed(!same, v) && s * t == v * w
  {
    MulOrder(0, Signed(!same, s), t);
    MulOrder(Signed(!same, s), 0, t);
    MulOrder(0, value, w);
    MulOrder(value, 0, w);
    Less(0, s, t);
    Less(0, value, w);
    v := if same then value else -value;
  }

  lemma ValueBounds(value: int, vb: nat, w: nat, rest: int, bound: nat)
    requires w > 0 && rest == value * w && bound == vb * w
    ensures 2 * value <= vb <==> 2 * rest <= bound
    ensures -(vb as int) <= 2 * value <==> -(bound as int) <= 2 * rest
    ensures 2 * value == vb <==> 2 * rest == bound
    ensures 2 * value == -(vb as int) <==> 2 * rest == -(bound as int)
    ensures (0 <= value <==> 0 <= rest) && (value < vb <==> rest < bound)
  {
    Twist(2, value, w);
    Less(0, vb, w);
    MulOrder(2 * value, vb, w);
    MulOrder(-(vb as int), 2 * value, w);
    MulOrder(value, vb, w);
    MulOrder(0, value, w);
  }

  lemma Twist(k: int, a: int, b: int)
    ensures (k * a) * b == k * (a * b)
  {
  }

  lemma ScaledEquation(s: nat, p: nat, h: nat, t: nat, q: nat, bSig: nat, rel: int, d: nat, b: nat)
    requires s * p * W64 == 2 * (q * bSig * W64 + rel) && t == 2 * h && d == s * (p * h) && b == bSig * t
    ensures d * W64 == q * b * W64 + rel * t
  {
    assert d * W64 == (s * p * W64) * h by {
      assert s * (p * h) == (s * p) * h;
      assert ((s * p) * h) * W64 == ((s * p) * W64) * h;
    }
    assert (2 * (q * bSig * W64 + rel)) * h == (q * bSig * W64 + rel) * t;
    assert (q * bSig * W64 + rel) * t == (q * bSig * W64) * t + rel * t;
    assert (q * bSig * W64) * t == q * b * W64 by {
      assert q * b == (q * bSig) * t;
      assert ((q * bSig) * t) * W64 == ((q * bSig) * W64) * t;
    }
  }

  lemma ScaledBounds(rel: int, bSig: nat, t: nat, b: nat)
    requires t > 0 && b == bSig * t
    ensures 2 * rel <= bSig * W64 <==> 2 * (rel * t) <= b * W64
    ensures -(bSig * W64) <= 2 * rel <==> -(b * W64) <= 2 * (rel * t)
    ensures 2 * rel == bSig * W64 <==> 2 * (rel * t) == b * W64
    ensures 2 * rel == -(bSig * W64) <==> 2 * (rel * t) == -(b * W64)
    ensures (0 <= rel <==> 0 <= rel * t) && (rel < bSig * W64 <==> rel * t < b * W64)
  {
    var x, y := 2 * rel, bSig * W64;
    assert x * t == 2 * (rel * t) && y * t == b * W64 && (-y) * t == -(b * W64);
    MulOrder(x, y, t);
    MulOrder(-y, x, t);
    MulOrder(rel, y, t);
    MulOrder(0, rel, t);
  }

  lemma MulOrder(x: int, y: int, t: nat)
    requires t > 0
    ensures (x <= y <==> x * t <= y * t) && (x < y <==> x * t < y * t) && (x == y <==> x * t == y * t)
  {
    MulMono(x, y, t);
    MulMono(y, x, t);
  }

  /** An incomplete reduction takes a multiple of eight divisors off. */
  lemma PartialValue(a: Floatx80, aExp: int, aSig: nat, b: Floatx80, bExp: int, bSig: nat, n: nat, r: Partial)
    returns (v: nat)
    requires NormalForm(a, aExp, aSig) && NormalForm(b, bExp, bSig) && LOW <= bExp
    requires 32 <= n && aExp - n - bExp >= 3 && IsPartial(aSig, n, bSig, r)
    ensures IsWorth(aExp - n, Significand(r), v) && PartOf(Magnitude(a), Magnitude(b), v)
  {
    hide Pow2;
    NormalMagnitude(a, aExp, aSig);
    NormalMagnitude(b, bExp, bSig);
    NormalFormIsNormal(a, aExp, aSig);
    NormalFormIsNormal(b, bExp, bSig);
    var j: nat :| Reduces(aSig, n, bSig, j, r.sig0);
    var e, d := aExp - n - LOW, aExp - n - bExp;
    Pow2Add(n, e);
    Pow2Add(d, bExp - LOW);
    Pow2Add(3, d - 3);
    Pow2Small();
    hide Pow2, NormalForm, Magnitude, Leaves, Join;
    var va, vb, u, k := Magnitude(a), Magnitude(b), Pow2(1 - LOW), j * Pow2(d - 3);
    v := PartialNumbers(aSig, Pow2(n), Pow2(e), j, bSig, r.sig0, Pow2(d), Pow2(bExp - LOW), Pow2(d - 3), va, vb, u);
    assert Leaves(va, vb, k, v);
    PartialWorth(r.sig0, Pow2(e), v, u);
    Pow2Mono(32, n);
    HalfPower(32);
    Shorter(aSig, Pow2(n), Pow2(31), r.sig0, Pow2(e), va, v, u);
  }

  lemma PartialWorth(sig0: nat, p: nat, v: nat, u: nat)
    requires sig0 * p == v * u
    ensures Join(sig0, 0) * p == v * (W64 * u)
  {
    Times(v, u, W64);
    SwapFactors(sig0, W64, p);
  }

  lemma PartialNumbers(aSig: nat, s: nat, p: nat, j: nat, bSig: nat, rest: nat, d: nat, t: nat, h: nat, va: nat,
                       vb: nat, u: nat)
    returns (v: nat)
    requires aSig * s == j * bSig + rest && p == d * t && d == 8 * h && u > 0
    requires va * u == aSig * (s * p) && vb * u == bSig * t
    ensures Leaves(va, vb, j * h, v) && rest * p == v * u
  {
    ScaledStep(aSig, s, p, j, bSig, rest, d, t);
    EightTimes(j, d, h);
    v := RestValue(va, vb, 8 * (j * h), u, rest * p);
  }

  lemma EightTimes(j: nat, d: nat, h: nat)
    requires d == 8 * h
    ensures j * d == 8 * (j * h)
  {
  }

  lemma RestValue(va: nat, vb: nat, m: nat, u: nat, rest: nat) returns (v: nat)
    requires u > 0 && va * u == m * (vb * u) + rest
    ensures va == m * vb + v && rest == v * u
  {
    Assoc(m, vb, u);
    MulOrder(m * vb, va, u);
    v := va - m * vb;
    Less(va, m * vb, u);
  }

  /** What is left after so many bits is shorter by all but one of them. */
  lemma Shorter(aSig: nat, s: nat, h: nat, rest: nat, p: nat, va: nat, v: nat, u: nat)
    requires TOP <= aSig && rest < W64 && 2 * h <= s && h > 0 && p > 0 && u > 0
    requires va * u == aSig * (s * p) && v * u == rest * p
    ensures v * h < va
  {
    MulMono(rest, 2 * aSig, h);
    MulMono(2 * h, s, aSig);
    Twist(2, aSig, h);
    Twist(2, h, aSig);
    assert rest * h < aSig * s;
    Assoc(aSig, s, p);
    MulOrder(rest * h, aSig * s, p);
    SwapFactors(rest, h, p);
    SwapFactors(v, u, h);
    MulOrder(v * h, va, u);
  }

  lemma ScaledStep(s: nat, p: nat, t: nat, j: nat, b: nat, rest: nat, d: nat, u: nat)
    requires s * p == j * b + rest && t == d * u
    ensures s * (p * t) == (j * d) * (b * u) + rest * t
  {
    assert s * (p * t) == (s * p) * t;
    assert (j * b + rest) * t == (j * b) * t + rest * t;
    assert (j * b) * (d * u) == (j * d) * (b * u) by { Regroup4(j, b, d, u); }
  }

  lemma Regroup4(a: nat, b: nat, c: nat, d: nat)
    ensures (a * b) * (c * d) == (a * c) * (b * d)
  {
    assert (a * b) * (c * d) == a * (b * (c * d)) == a * (c * (b * d)) == (a * c) * (b * d) by {
      assert b * (c * d) == c * (b * d);
    }
  }

  /** A dividend two exponents below the divisor is less than half of it. */
  lemma KeptValue(a: Floatx80, aExp: int, aSig: nat, b: Floatx80, bExp: int, bSig: nat)
    requires NormalForm(a, aExp, aSig) && NormalForm(b, bExp, bSig) && LOW <= aExp < bExp - 1
    ensures 2 * Magnitude(a) < Magnitude(b)
  {
    hide Pow2;
    NormalMagnitude(a, aExp, aSig);
    NormalMagnitude(b, bExp, bSig);
    NormalFormIsNormal(a, aExp, aSig);
    NormalFormIsNormal(b, bExp, bSig);
    Pow2Mono(aExp - LOW + 2, bExp - LOW);
    Pow2Add(2, aExp - LOW);
    Pow2Small();
    hide Pow2, NormalForm, Magnitude;
    KeptOrder(aSig, bSig, Pow2(aExp - LOW), Pow2(bExp - LOW), Pow2(1 - LOW), Magnitude(a), Magnitude(b));
  }

  lemma KeptOrder(aSig: nat, bSig: nat, p: nat, t: nat, u: nat, va: nat, vb: nat)
    requires aSig < 2 * bSig && 4 * p <= t && p > 0 && u > 0 && aSig * p == va * u && bSig * t == vb * u
    ensures 2 * va < vb
  {
    MulMono(aSig, 2 * bSig, p);
    Twist(2, bSig, p);
    MulMono(4 * p, t, bSig);
    Twist(4, p, bSig);
    Twist(2, va, u);
    MulOrder(2 * va, vb, u);
  }

  // --- do_fprem ---

  const DEFAULT_NAN := Floatx80(true, SPECIAL, TOP + QUIET)

  /** The exponent of the normalized significand. */
  function Exponent(a: Floatx80): int
    requires 0 < a.fraction < W64
  {
    (if a.exp == 0 then 1 else a.exp) - Shift(a.fraction, TOP)
  }

  lemma NormalFormIsNormal(a: Floatx80, exp: int, sig: nat)
    requires NormalForm(a, exp, sig)
    ensures TOP <= sig < W64
  {
    hide Pow2;
  }

  lemma ExponentIs(a: Floatx80, exp: int, sig: nat)
    requires NormalForm(a, exp, sig) && IsNumber(a)
    ensures 0 < a.fraction && exp == Exponent(a) && LOW + 128 <= exp < SPECIAL
  {
    hide Pow2, Shift;
    var n := (if a.exp == 0 then 1 else a.exp) - exp;
    ShiftIs(a.fraction, TOP, n);
    if n >= 64 {
      Pow2Mono(64, n);
      Pow2Values();
      MulMono(1, a.fraction, Pow2(n));
    }
  }

  /** What the reduction leaves: the remainder, or at an exponent difference of 64 and more a partial one. */
  ghost predicate ReducesTo(a: Floatx80, b: Floatx80, nearest: bool, over: int, q: nat, negative: bool, v: nat)
    requires 0 < a.fraction < W64 && 0 < b.fraction < W64
  {
    if Exponent(a) - Exponent(b) >= 64 then
      over == 1 && q == 0 && negative == a.negative && PartOf(Magnitude(a), Magnitude(b), v)
    else over == 0 && RemainderOf(Magnitude(a), Magnitude(b), nearest, Signed(negative != a.negative, v), q)
  }

  /** The outcome for two numbers, with the exceptions before and after: a dividend far below the divisor stays as it
      is; else what the reduction leaves is delivered exactly. */
  ghost predicate Divided(a: Floatx80, b: Floatx80, nearest: bool, masks: set<Flag>, before: set<Flag>, over: int,
                          z: Floatx80, q: nat, after: set<Flag>)
    requires 0 < a.fraction < W64 && 0 < b.fraction < W64
  {
    if Exponent(a) - Exponent(b) < -1 then
      && over == 0 && q == 0 && IsFinite(z, a.negative, Magnitude(a)) && 2 * Magnitude(a) < Magnitude(b)
      && after == before
    else
      NothingPending(before, masks) ==>
        exists negative: bool, v: nat :: ReducesTo(a, b, nearest, over, q, negative, v)
                                         && Delivers(Packing80(z, after), before, masks, negative, v)
  }

  /** A number whose integer bit is set is in normal form. */
  lemma AlreadyNormal(a: Floatx80, exp: int, sig: nat)
    requires IsNumber(a) && NormalForm(a, exp, sig) && a.fraction >= TOP
    ensures exp == (if a.exp == 0 then 1 else a.exp) && sig == a.fraction
  {
    Pow2Small();
    hide Pow2;
    ShiftIs(a.fraction, TOP, (if a.exp == 0 then 1 else a.exp) - exp);
  }

  /** A dividend that is returned as it is, its integer bit matched by its exponent. */
  method Kept(a: Floatx80, exp: int, sig: nat) returns (z: Floatx80)
    requires IsNumber(a) && NormalForm(a, exp, sig)
    ensures IsFinite(z, a.negative, Magnitude(a)) && (a.exp > 0 ==> z == a)
  {
    hide Pow2, NormalForm;
    if a.fraction >= TOP {
      AlreadyNormal(a, exp, sig);
      z := Floatx80(a.negative, exp, sig);
    } else {
      z := a;
    }
  }

  /** What the reduction of normalized significands leaves, in terms of the operands. */
  lemma ReductionValue(a: Floatx80, aExp: int, aSig: nat, b: Floatx80, bExp: int, bSig: nat, nearest: bool, r: Partial)
    returns (v: nat)
    requires IsNumber(a) && IsNumber(b) && NormalForm(a, aExp, aSig) && NormalForm(b, bExp, bSig) && aExp - bExp >= -1
    requires Reduced(a.negative, aExp, aSig, bExp, bSig, nearest, r)
    ensures 0 < a.fraction && 0 < b.fraction && LOW + 128 <= r.exp < SPECIAL
    ensures IsWorth(r.exp, Significand(r), v)
    ensures ReducesTo(a, b, nearest, if r.incomplete then 1 else 0, r.q, r.negative, v)
  {
    ExponentIs(a, aExp, aSig);
    ExponentIs(b, bExp, bSig);
    hide NormalForm, Exponent, Magnitude, Pow2, Join, IsWorth, IsPartial, IsRemainder, RemainderOf, PartOf, IsNumber;
    if aExp - bExp >= 64 {
      v := PartialValue(a, aExp, aSig, b, bExp, bSig, (aExp - bExp) % 32 + 32, r);
    } else {
      v := CompleteValue(a, aExp, aSig, b, bExp, bSig, nearest, r);
    }
  }

  /** do_fprem for two numbers. */
  method Divide(a: Floatx80, b: Floatx80, nearest: bool, status: Status) returns (over: int, z: Floatx80, q: nat)
    requires IsNumber(a) && IsNumber(b)
    modifies status`flags
    ensures 0 < a.fraction && 0 < b.fraction
    ensures var before := old(status.flags) + if IsSubnormal(a) || IsSubnormal(b) then {Denormal} else {};
            Divided(a, b, nearest, status.masks, before, over, z, q, status.flags)
  {
    var eb, sb := Normalize(b, status);
    var ea, sa := Normalize(a, status);
    ExponentIs(a, ea, sa);
    ExponentIs(b, eb, sb);
    NormalFormIsNormal(a, ea, sa);
    NormalFormIsNormal(b, eb, sb);
    hide NormalForm, Reduced, IsFinite, Magnitude, ReducesTo, Delivers, IsNumber, Exponent, Pow2, Shift,
         IsWorth, NothingPending;
    if ea - eb < -1 {
      KeptValue(a, ea, sa, b, eb, sb);
      z := Kept(a, ea, sa);
      return 0, z, 0;
    }
    var r := Fprem(a.negative, ea, sa, eb, sb, nearest);
    ghost var v := ReductionValue(a, ea, sa, b, eb, sb, nearest, r);
    z := PackReduction(r, status, v);
    over, q := if r.incomplete then 1 else 0, r.q;
  }

  /** The end of do_fprem. */
  method PackReduction(r: Partial, status: Status, ghost v: nat) returns (z: Floatx80)
    requires IsWord(r.sig0) && IsWord(r.sig1) && ShortPair(Significand(r)) && LOW + 128 <= r.exp < SPECIAL
    requires IsWorth(r.exp, Significand(r), v)
    modifies status`flags
    ensures NothingPending(old(status.flags), status.masks) ==>
              Delivers(Packing80(z, status.flags), old(status.flags), status.masks, r.negative, v)
  {
    hide IsWorth, NothingPending, Packed80, Delivers, ShortPair, Pow2, Zeros, DirectionOf;
    ghost var before := status.flags;
    z := NormalizeRoundAndPackFloatx80(r.negative, r.exp, r.sig0, r.sig1, status);
    if NothingPending(before, status.masks) {
      NormalizedExactly(DirectionOf(status.mode, r.negative), before, status.masks, r.negative, r.exp, Significand(r),
                        v);
    }
  }

  /** do_fprem: floatx80_remainder, and floatx80_ieee754_remainder for the nearest quotient. */
  method DoFprem(a: Floatx80, b: Floatx80, nearest: bool, status: Status) returns (over: int, z: Floatx80, q: nat)
    requires a.exp <= SPECIAL && a.fraction < W64 && b.exp <= SPECIAL && b.fraction < W64
    modifies status`flags
    ensures if Unsupported(a) || Unsupported(b) then
              over == -1 && z == DEFAULT_NAN && q == 0 && status.flags == old(status.flags) + {Invalid}
            else if IsNaN(a) || IsNaN(b) then
              && over == -1 && z == Quieted(Preferred(a, b)) && q == 0
              && status.flags == old(status.flags) + if IsSignaling(a) || IsSignaling(b) then {Invalid} else {}
            else if IsInfinity(a) || IsZero(b) then
              over == -1 && z == DEFAULT_NAN && q == 0 && status.flags == old(status.flags) + {Invalid}
            else if IsInfinity(b) then
              && over == 0 && IsFinite(z, a.negative, Magnitude(a)) && q == 0
              && status.flags == old(status.flags) + if IsSubnormal(a) then {Denormal} else {}
            else
              var before := old(status.flags) + if IsSubnormal(a) || IsSubnormal(b) then {Denormal} else {};
              if IsZero(a) then over == 0 && z == a && q == 0 && status.flags == before
              else 0 < a.fraction && 0 < b.fraction
                   && Divided(a, b, nearest, status.masks, before, over, z, q, status.flags)
  {
    hide Divided, NormalForm, Magnitude, IsFinite;
    if Unsupported(a) || Unsupported(b) {
      status.Raise({Invalid});
      return -1, DEFAULT_NAN, 0;
    }
    if a.exp == SPECIAL {
      if a.fraction * 2 % W64 != 0 || (b.exp == SPECIAL && b.fraction * 2 % W64 != 0) {
        z := PropagateNaN(a, b, status);
        return -1, z, 0;
      }
      status.Raise({Invalid});
      return -1, DEFAULT_NAN, 0;
    }
    if b.exp == SPECIAL {
      if b.fraction * 2 % W64 != 0 {
        z := PropagateNaN(a, b, status);
        return -1, z, 0;
      }
      z := KeptByInfinity(a, status);
      return 0, z, 0;
    }
    if b.exp == 0 && b.fraction == 0 {
      status.Raise({Invalid});
      return -1, DEFAULT_NAN, 0;
    }
    if a.exp == 0 && a.fraction == 0 {
      if b.exp == 0 {
        status.Raise({Denormal});
      }
      return 0, a, 0;
    }
    over, z, q := Divide(a, b, nearest, status);
  }

  /** The remainder of a finite dividend by infinity. */
  method KeptByInfinity(a: Floatx80, status: Status) returns (z: Floatx80)
    requires a.exp < SPECIAL && a.fraction < W64 && !Unsupported(a)
    modifies status`flags
    ensures IsFinite(z, a.negative, Magnitude(a))
    ensures status.flags == old(status.flags) + if IsSubnormal(a) then {Denormal} else {}
  {
    z := a;
    if a.exp == 0 && a.fraction != 0 {
      var exp, sig := Normalize(a, status);
      z := Kept(a, exp, sig);
    }
  }

  // --- Repeating it ---

  /** A supported finite operand. */
  predicate IsFiniteOperand(a: Floatx80) { a.exp < SPECIAL && a.fraction < W64 && !Unsupported(a) }

  lemma NumberIsPositive(b: Floatx80)
    requires IsNumber(b)
    ensures 0 < b.fraction && Magnitude(b) > 0
  {
    MulMono(0, b.fraction, Pow2(if b.exp == 0 then 0 else b.exp - 1));
    hide Pow2;
  }

  /** What a call gave: the remainder of what was left, or something smaller that differs by a multiple of eight
      divisors. */
  ghost predicate CallGave(rest: Floatx80, b: Floatx80, nearest: bool, over: int, z: Floatx80, q: nat) {
    IsFiniteOperand(z) &&
    if over == 0 then
      RemainderOf(Magnitude(rest), Magnitude(b), nearest, Signed(z.negative != rest.negative, Magnitude(z)), q)
    else
      && over == 1 && z.negative == rest.negative && Magnitude(z) < Magnitude(rest)
      && exists k: nat :: Leaves(Magnitude(rest), Magnitude(b), k, Magnitude(z))
  }

  /** A call on a finite dividend, with underflow masked. */
  lemma CallGives(rest: Floatx80, b: Floatx80, nearest: bool, masks: set<Flag>, before: set<Flag>, over: int,
                  z: Floatx80, q: nat, after: set<Flag>)
    requires IsFiniteOperand(rest) && IsNumber(b) && Underflow in masks && NothingPending(before, masks)
    requires if IsZero(rest) then over == 0 && z == rest && q == 0 && after == before
             else 0 < rest.fraction && 0 < b.fraction
                  && Divided(rest, b, nearest, masks, before, over, z, q, after)
    ensures after == before && CallGave(rest, b, nearest, over, z, q)
  {
    if IsZero(rest) {
      ZeroGives(rest, b, nearest);
    } else {
      NumberGives(rest, b, nearest, masks, before, over, z, q, after);
    }
  }

  lemma ZeroGives(z: Floatx80, b: Floatx80, nearest: bool)
    requires IsFiniteOperand(z) && IsZero(z) && IsNumber(b)
    ensures CallGave(z, b, nearest, 0, z, 0)
  {
    NumberIsPositive(b);
    assert Magnitude(z) == 0;
    hide Magnitude, Unsupported;
  }

  lemma NumberGives(rest: Floatx80, b: Floatx80, nearest: bool, masks: set<Flag>, before: set<Flag>, over: int,
                    z: Floatx80, q: nat, after: set<Flag>)
    requires Underflow in masks && NothingPending(before, masks) && 0 < rest.fraction < W64 && 0 < b.fraction < W64
    requires Divided(rest, b, nearest, masks, before, over, z, q, after)
    ensures after == before && CallGave(rest, b, nearest, over, z, q)
  {
    hide Pow2, Exponent, Leaves, Magnitude, Unsupported, NothingPending, RemainderOf;
    if Exponent(rest) - Exponent(b) < -1 {
      SmallIsRemainder(Magnitude(rest), Magnitude(b), nearest);
    } else {
      var negative: bool, v: nat :| ReducesTo(rest, b, nearest, over, q, negative, v)
                                    && Delivers(Packing80(z, after), before, masks, negative, v);
      if over == 1 {
        MulMono(1, Pow2(31), v);
      }
    }
  }

  lemma SmallIsRemainder(a: nat, b: nat, nearest: bool)
    requires 2 * a < b
    ensures RemainderOf(a, b, nearest, a, 0)
  {
  }

  /** `quotient` is the quotient of the remainder `z`, and `q` reports its low three bits. */
  ghost predicate IsFullRemainder(a: Floatx80, b: Floatx80, nearest: bool, z: Floatx80, q: nat, quotient: nat) {
    && quotient % 8 == q % 8
    && RemainderOf(Magnitude(a), Magnitude(b), nearest, Signed(z.negative != a.negative, Magnitude(z)), quotient)
  }

  /** So far `acc` divisors, a multiple of eight, have been taken off the dividend, and `rest` is left. */
  ghost predicate Taken(a: nat, b: nat, acc: nat, rest: nat) { a == acc * b + rest && acc % 8 == 0 }

  lemma NothingTaken(a: nat, b: nat)
    ensures Taken(a, b, 0, a)
  {
  }

  lemma TakenMore(a: nat, b: nat, acc: nat, rest: nat, k: nat, v: nat)
    requires Taken(a, b, acc, rest) && Leaves(rest, b, k, v)
    ensures Taken(a, b, acc + 8 * k, v)
  {
    assert (acc + 8 * k) * b == acc * b + 8 * k * b;
  }

  lemma TakenLast(a: nat, b: nat, acc: nat, rest: nat, nearest: bool, rel: int, q: nat)
    requires Taken(a, b, acc, rest) && RemainderOf(rest, b, nearest, rel, q)
    ensures RemainderOf(a, b, nearest, rel, acc + q) && (acc + q) % 8 == q % 8
  {
    assert (acc + q) * b == acc * b + q * b;
  }

  /** One more call: the dividend is what the calls so far have left. */
  lemma OneMore(a: Floatx80, b: Floatx80, nearest: bool, rest: Floatx80, acc: nat, over: int, z: Floatx80, q: nat)
    returns (acc': nat)
    requires rest.negative == a.negative && Taken(Magnitude(a), Magnitude(b), acc, Magnitude(rest))
    requires CallGave(rest, b, nearest, over, z, q)
    ensures if over == 0 then IsFullRemainder(a, b, nearest, z, q, acc')
            else z.negative == a.negative && Taken(Magnitude(a), Magnitude(b), acc', Magnitude(z))
  {
    hide Magnitude, Taken, Leaves, RemainderOf;
    if over == 0 {
      TakenLast(Magnitude(a), Magnitude(b), acc, Magnitude(rest), nearest,
                Signed(z.negative != rest.negative, Magnitude(z)), q);
      acc' := acc + q;
    } else {
      var k: nat :| Leaves(Magnitude(rest), Magnitude(b), k, Magnitude(z));
      TakenMore(Magnitude(a), Magnitude(b), acc, Magnitude(rest), k, Magnitude(z));
      acc' := acc + 8 * k;
    }
  }

  /** do_fprem called again and again on its own result until it is complete, with underflow masked: the remainder of
      the original operands. The last call reports the low three bits of the quotient, and no call raises anything but
      the denormal-operand exception. */
  method FullRemainder(a: Floatx80, b: Floatx80, nearest: bool, status: Status) returns (z: Floatx80, q: nat)
    requires IsFiniteOperand(a) && IsNumber(b)
    requires Underflow in status.masks && NothingPending(status.flags, status.masks)
    modifies status`flags
    ensures IsFiniteOperand(z) && exists quotient: nat :: IsFullRemainder(a, b, nearest, z, q, quotient)
    ensures old(status.flags) <= status.flags <= old(status.flags) + {Denormal}
  {
    ghost var acc: nat := 0;
    z, q := a, 0;
    var over := 1;
    NothingTaken(Magnitude(a), Magnitude(b));
    hide Magnitude, Divided, IsFinite, Taken, IsFullRemainder, Pow2, Unsupported, Exponent, RemainderOf, Leaves;
    while over == 1
      invariant IsFiniteOperand(z) && over in {0, 1}
      invariant if over == 0 then IsFullRemainder(a, b, nearest, z, q, acc)
                else z.negative == a.negative && Taken(Magnitude(a), Magnitude(b), acc, Magnitude(z))
      invariant old(status.flags) <= status.flags <= old(status.flags) + {Denormal}
      decreases over, Magnitude(z)
    {
      ghost var rest, before := z, status.flags;
      over, z, q := DoFprem(z, b, nearest, status);
      ghost var raised := before + if IsSubnormal(rest) || IsSubnormal(b) then {Denormal} else {};
      CallGives(rest, b, nearest, status.masks, raised, over, z, q, status.flags);
      acc := OneMore(a, b, nearest, rest, acc, over, z, q);
    }
  }
}
