/** Arithmetic on pairs of 64-bit words (include/halfix/softfloat/softfloat-macros.h): sums and
    differences modulo 2^128, the full product, and the quotient estimate with its error bound. */
module Words128 {
  import opened Words

  const W128 := 0x1_0000_0000_0000_0000_0000_0000_0000_0000

  function Join(high: nat, low: nat): nat {
    high * W64 + low
  }

  predicate IsWord(a: nat) { a < W64 }

  /** Bit 63 of the high word, read as the sign of the pair. */
  predicate IsNegative(high: nat) { high >= 0x8000_0000_0000_0000 }

  /** add128 */
  method Add128(a0: nat, a1: nat, b0: nat, b1: nat) returns (z0: nat, z1: nat)
    requires IsWord(a0) && IsWord(a1) && IsWord(b0) && IsWord(b1)
    ensures IsWord(z0) && IsWord(z1)
    ensures var sum := Join(a0, a1) + Join(b0, b1);
            Join(z0, z1) == if sum < W128 then sum else sum - W128
  {
    z1 := (a1 + b1) % W64;
    z0 := (a0 + b0 + (if z1 < a1 then 1 else 0)) % W64;
  }

  /** sub128 */
  method Sub128(a0: nat, a1: nat, b0: nat, b1: nat) returns (z0: nat, z1: nat)
    requires IsWord(a0) && IsWord(a1) && IsWord(b0) && IsWord(b1)
    ensures IsWord(z0) && IsWord(z1)
    ensures var difference := Join(a0, a1) - Join(b0, b1) as int;
            Join(z0, z1) == if difference >= 0 then difference else difference + W128
  {
    z1 := if a1 >= b1 then a1 - b1 else a1 + W64 - b1;
    var borrow := if a1 < b1 then 1 else 0;
    z0 := if a0 >= b0 + borrow then a0 - b0 - borrow else a0 + W64 - b0 - borrow;
  }

  /** shortShift128Left, for a pair that keeps all its bits. */
  method ShortShift128Left(a0: nat, a1: nat, count: nat) returns (z0: nat, z1: nat)
    requires IsWord(a0) && IsWord(a1) && count < 64 && a0 * Pow2(count) < W64
    ensures IsWord(z0) && IsWord(z1) && Join(z0, z1) == Join(a0, a1) * Pow2(count)
  {
    hide Quotient, Pow2;
    Pow2Values();
    z1 := Low(a1 * Pow2(count), 64);
    z0 := a0 * Pow2(count) + if count == 0 then 0 else Quotient(a1, Pow2(64 - count));
    ShiftedPair(a1, count, z0 - a0 * Pow2(count), z1);
    PairShifts(a0, a1, count, z0, z1);
  }

  lemma ShiftedPair(a: nat, n: nat, high: nat, low: nat)
    requires IsWord(a) && n < 64 && low == Low(a * Pow2(n), 64)
    requires high == if n == 0 then 0 else Quotient(a, Pow2(64 - n))
    ensures IsWord(low) && high < Pow2(n) && Join(high, low) == a * Pow2(n)
  {
    hide Quotient, Pow2;
    Pow2Values();
    var p, s := Pow2(64 - n), Pow2(n);
    Pow2Add(64 - n, n);
    if n == 0 {
      Pow2Small();
      QuotientIs(a, W64, 0);
    } else {
      var q := Quotient(a, p);
      ShiftedParts(q, p, s, a - q * p, a);
      QuotientIs(a * s, W64, q);
      MulMono(s, q, p);
    }
  }

  /** The shifted high word has room for the bits that the low word shifts out. */
  lemma PairShifts(a0: nat, a1: nat, count: nat, z0: nat, z1: nat)
    requires count < 64 && a0 * Pow2(count) < W64 && z0 >= a0 * Pow2(count) && z0 - a0 * Pow2(count) < Pow2(count)
    requires Join(z0 - a0 * Pow2(count), z1) == a1 * Pow2(count)
    ensures z0 < W64 && Join(z0, z1) == Join(a0, a1) * Pow2(count)
  {
    hide Pow2;
    Pow2Values();
    Pow2Add(count, 64 - count);
    RoomFor(a0, Pow2(count), Pow2(64 - count), a0 * Pow2(count));
    PairTimes(a0, a1, Pow2(count), a0 * Pow2(count));
  }

  lemma RoomFor(a: nat, p: nat, t: nat, x: nat)
    requires p * t == W64 && x == a * p < W64
    ensures x + p <= W64
  {
    if a >= t {
      MulMono(t, a, p);
    } else {
      MulMono(a + 1, t, p);
    }
  }

  lemma PairTimes(a0: nat, a1: nat, p: nat, x: nat)
    requires x == a0 * p
    ensures Join(a0, a1) * p == x * W64 + a1 * p
  {
    assert (a0 * W64) * p == (a0 * p) * W64;
  }

  lemma Halves(a: nat, b: nat, ah: nat, al: nat, bh: nat, bl: nat)
    requires a == ah * W32 + al && b == bh * W32 + bl
    ensures a * b == (ah * bh) * W64 + (al * bh + ah * bl) * W32 + al * bl
  {
    assert a * b == ah * W32 * b + al * b;
    assert ah * W32 * b == (ah * bh) * W64 + (ah * bl) * W32;
    assert al * b == (al * bh) * W32 + al * bl;
  }

  lemma HalfProduct(a: nat, b: nat)
    requires a < W32 && b < W32
    ensures 0 <= a * b <= (W32 - 1) * (W32 - 1)
  {
    MulMono(a, W32 - 1, b);
    MulMono(b, W32 - 1, W32 - 1);
    MulMono(0, a, b);
  }

  /** mul64To128, from four products of halves with carries. */
  method Mul64To128(a: nat, b: nat) returns (z0: nat, z1: nat)
    requires IsWord(a) && IsWord(b)
    ensures IsWord(z0) && IsWord(z1) && Join(z0, z1) == a * b
  {
    var aLow, aHigh, bLow, bHigh := a % W32, a / W32, b % W32, b / W32;
    HalfProduct(aLow, bLow);
    HalfProduct(aLow, bHigh);
    HalfProduct(aHigh, bLow);
    HalfProduct(aHigh, bHigh);
    Halves(a, b, aHigh, aLow, bHigh, bLow);
    z0, z1 := Carry(aHigh * bHigh, aLow * bHigh, aHigh * bLow, aLow * bLow);
  }

  /** The sums of mul64To128, on the four products. */
  method Carry(high: nat, middleA: nat, middleB: nat, low: nat) returns (z0: nat, z1: nat)
    requires high <= (W32 - 1) * (W32 - 1) && middleA <= (W32 - 1) * (W32 - 1)
    requires middleB <= (W32 - 1) * (W32 - 1) && low <= (W32 - 1) * (W32 - 1)
    ensures IsWord(z0) && IsWord(z1) && Join(z0, z1) == high * W64 + (middleA + middleB) * W32 + low
  {
    var middle := (middleA + middleB) % W64;
    var carry := if middle < middleB then W32 else 0;
    assert middleA + middleB == middle + carry * W32;
    z0 := high + carry + middle / W32;
    var shifted := middle % W32 * W32;
    assert middle * W32 == middle / W32 * W64 + shifted;
    z1 := (low + shifted) % W64;
    z0 := z0 + if z1 < shifted then 1 else 0;
    assert Join(z0, z1) == (high + carry + middle / W32) * W64 + low + shifted;
  }

  // --- estimateDiv128To64 ---

  const TOP := 0x8000_0000_0000_0000

  /** A digit estimate: the leading part over the divisor's high half, capped at 32 bits. */
  function Digit(lead: nat, b0: nat): nat
    requires b0 > 0
  {
    if b0 * W32 <= lead then W32 - 1 else Quotient(lead, b0)
  }

  lemma DigitBelow(lead: nat, b0: nat)
    requires b0 > 0
    ensures Digit(lead, b0) < W32 && Digit(lead, b0) * b0 <= lead
  {
    if b0 * W32 > lead {
      var q := Quotient(lead, b0);
      MulMono(W32, q, b0);
    }
  }

  lemma Assoc(a: nat, b: nat, c: nat)
    ensures a * (b * c) == (a * b) * c
  {
  }

  /** The estimate is not below the true digit `t` of the remainder `rest`, whose leading part is `lead`. */
  lemma DigitAbove(rest: nat, lead: nat, b: nat, b0: nat, t: nat)
    requires b0 > 0 && b0 * W32 <= b && lead * W32 <= rest < lead * W32 + W32
    requires t < W32 && t * b <= rest
    ensures t <= Digit(lead, b0)
  {
    MulMono(b0 * W32, b, t);
    Assoc(t, b0, W32);
    var x := t * b0;
    assert x <= lead;
    NotBelow(lead, b0, t);
  }

  lemma NotBelow(lead: nat, b0: nat, t: nat)
    requires b0 > 0 && t * b0 <= lead && t < W32
    ensures t <= Digit(lead, b0)
  {
    if b0 * W32 > lead {
      MulMono(Quotient(lead, b0) + 1, t, b0);
    }
  }

  /** The estimate times the divisor exceeds the remainder by less than 2^64. */
  lemma DigitExcess(rest: nat, lead: nat, b: nat, b0: nat)
    requires b0 > 0 && b < b0 * W32 + W32 && lead * W32 <= rest
    ensures Digit(lead, b0) * b <= rest + W64
  {
    var d := Digit(lead, b0);
    DigitBelow(lead, b0);
    hide Digit;
    MulMono(b, b0 * W32 + W32, d);
    assert d * (b0 * W32 + W32) == d * b0 * W32 + d * W32;
  }

  /** With a divisor of 64 bits, the estimate is at most 2 above the true digit. */
  lemma DigitClose(rest: nat, b: nat, d: nat, t: nat)
    requires b >= TOP && d * b <= rest + W64 && t * b <= rest < t * b + b
    ensures d <= t + 2
  {
    MulMono(t + 3, d, b);
    assert (t + 3) * b == t * b + 3 * b;
  }

  /** The state of estimateDiv128To64's correction loop: `rem` is `a` less `d` times the scaled divisor
      `bs`, possibly negative and then modulo 2^128. */
  ghost predicate Correcting(a: nat, bs: nat, d: nat, rem: int, rem0: nat, rem1: nat)
    requires bs > 0
  {
    && IsWord(rem0) && IsWord(rem1) && d < W32 && Quotient(a, bs) <= d
    && rem == a - d * bs && -(W64 * W32) <= rem < bs
    && Join(rem0, rem1) == if rem >= 0 then rem else rem + W128
  }

  lemma Sign(rem: int, rem0: nat, rem1: nat)
    requires IsWord(rem0) && IsWord(rem1) && -(W64 * W32) <= rem < W64 * W32
    requires Join(rem0, rem1) == if rem >= 0 then rem else rem + W128
    ensures IsNegative(rem0) <==> rem < 0
    ensures rem >= 0 ==> rem0 < W32
  {
  }

  /** The high digit's estimate starts the correction loop. */
  lemma HighDigit(a0: nat, a1: nat, b: nat, b0: nat, bs: nat, d: nat)
    requires IsWord(a0) && IsWord(a1) && TOP <= b < W64 && a0 < b && b0 == b / W32 && bs == b * W32
             && d == Digit(a0, b0)
    ensures Quotient(Join(a0, a1), bs) <= d < W32
    ensures d * bs <= Join(a0, a1) + W64 * W32 && Join(a0, a1) < d * bs + bs
  {
    var a, t := Join(a0, a1), Quotient(Join(a0, a1), bs);
    hide Quotient, Digit;
    MulMono(W32, t, bs);
    HighDigitAbove(a0, a1, b, b0, t);
    Assoc(t, b, W32);
    Assoc(d, b, W32);
    DigitExcess(a0 * W32 + a1 / W32, a0, b, b0);
    DigitBelow(a0, b0);
    MulMono(t, d, bs);
  }

  lemma HighDigitAbove(a0: nat, a1: nat, b: nat, b0: nat, t: nat)
    requires IsWord(a0) && IsWord(a1) && TOP <= b < W64 && b0 == b / W32 && t < W32 && t * (b * W32) <= Join(a0, a1)
    ensures t <= Digit(a0, b0)
  {
    Assoc(t, b, W32);
    DigitAbove(a0 * W32 + a1 / W32, a0, b, b0, t);
    hide Digit;
  }

  lemma CorrectionStep(a: nat, bs: nat, d: nat, rem: int)
    requires bs > 0 && rem == a - d * bs && rem < 0 && Quotient(a, bs) <= d
    ensures d > 0 && Quotient(a, bs) <= d - 1 && rem + bs == a - (d - 1) * bs
  {
    var t := Quotient(a, bs);
    MulMono(d, t, bs);
    hide Quotient;
  }

  lemma ScaledDivisor(b: nat)
    requires IsWord(b)
    ensures Join(b / W32, b * W32 % W64) == b * W32 && b * W32 % W64 < W64
  {
    assert b * W32 == b / W32 * W64 + b % W32 * W32;
  }

  /** The low digit's estimate finishes the quotient, at most 2 too large. */
  lemma LowDigit(a: nat, b: nat, b0: nat, bs: nat, d: nat, rem: nat, lead: nat)
    requires TOP <= b < W64 && b0 == b / W32 && bs == b * W32 && a == d * bs + rem && rem < bs && lead == rem / W32
    ensures Quotient(a, b) <= d * W32 + Digit(lead, b0) <= Quotient(a, b) + 2
  {
    hide Quotient, Digit;
    var t := Quotient(rem, b);
    MulMono(W32, t, b);
    LowSum(d, t, b);
    QuotientIs(a, b, d * W32 + t);
    DigitAbove(rem, lead, b, b0, t);
    DigitExcess(rem, lead, b, b0);
    DigitClose(rem, b, Digit(lead, b0), t);
  }

  lemma LowSum(d: nat, t: nat, b: nat)
    ensures (d * W32 + t) * b == d * (b * W32) + t * b
  {
    Assoc(d, b, W32);
    assert (d * W32) * b == (d * b) * W32;
  }

  lemma LeadingPart(rem: nat, rem0: nat, rem1: nat)
    requires IsWord(rem1) && Join(rem0, rem1) == rem
    ensures rem0 * W32 + rem1 / W32 == rem / W32
  {
  }

  lemma DigitIs(lead: nat, b0: nat)
    requires b0 > 0
    ensures Digit(lead, b0) == if b0 * W32 <= lead then W32 - 1 else Quotient(lead, b0)
  {
  }

  /** estimateDiv128To64: the quotient of a pair by a normalized word, at most 2 too large; all ones if
      the quotient does not fit. */
  method EstimateDiv128To64(a0: nat, a1: nat, b: nat) returns (z: nat)
    requires IsWord(a0) && IsWord(a1) && TOP <= b < W64
    ensures IsWord(z)
    ensures if b <= a0 then z == W64 - 1 else Quotient(Join(a0, a1), b) <= z <= Quotient(Join(a0, a1), b) + 2
  {
    if b <= a0 {
      return W64 - 1;
    }
    var b0 := b / W32;
    ghost var a, bs, d := Join(a0, a1), b * W32, Digit(a0, b0);
    HighDigit(a0, a1, b, b0, bs, d);
    DigitIs(a0, b0);
    hide Quotient, Digit;
    z := if b0 * W32 <= a0 then 0xFFFF_FFFF_0000_0000 else Quotient(a0, b0) * W32;
    Assoc(d, b, W32);
    Assoc(b, d, W32);
    var rem0, rem1 := FirstRemainder(a0, a1, b, z);
    ghost var rem: int := a - d * bs;
    hide Join;
    d, rem, rem0, rem1, z := Correct(a, bs, d, rem, rem0, rem1, b, z);
    LeadingPart(rem, rem0, rem1);
    LowDigit(a, b, b0, bs, d, rem, rem0 * W32 + rem1 / W32);
    rem0 := rem0 * W32 + rem1 / W32;
    DigitBelow(rem0, b0);
    DigitIs(rem0, b0);
    z := z + if b0 * W32 <= rem0 then 0xFFFF_FFFF else Quotient(rem0, b0);
  }

  method FirstRemainder(a0: nat, a1: nat, b: nat, z: nat) returns (rem0: nat, rem1: nat)
    requires IsWord(a0) && IsWord(a1) && IsWord(b) && IsWord(z)
    ensures IsWord(rem0) && IsWord(rem1)
    ensures var rem := Join(a0, a1) - b * z; Join(rem0, rem1) == if rem >= 0 then rem else rem + W128
  {
    var term0, term1 := Mul64To128(b, z);
    rem0, rem1 := Sub128(a0, a1, term0, term1);
  }

  /** The correction loop: while the remainder is negative, the digit is one too large. */
  method Correct(ghost a: nat, ghost bs: nat, ghost d0: nat, ghost rem: int, r0: nat, r1: nat, b: nat, z0: nat)
    returns (ghost d: nat, ghost rem': int, rem0: nat, rem1: nat, z: nat)
    requires TOP <= b < W64 && bs == b * W32 && Correcting(a, bs, d0, rem, r0, r1) && z0 == d0 * W32
    ensures Correcting(a, bs, d, rem', rem0, rem1) && z == d * W32 && rem' >= 0 && rem0 < W32
  {
    d, rem', rem0, rem1, z := d0, rem, r0, r1, z0;
    hide Quotient, Join;
    ScaledDivisor(b);
    Sign(rem', rem0, rem1);
    while IsNegative(rem0)
      invariant Correcting(a, bs, d, rem', rem0, rem1) && z == d * W32
      invariant (IsNegative(rem0) <==> rem' < 0) && (rem' >= 0 ==> rem0 < W32)
      decreases d
    {
      CorrectionStep(a, bs, d, rem');
      z := z - W32;
      rem0, rem1 := Add128(rem0, rem1, b / W32, b * W32 % W64);
      d, rem' := d - 1, rem' + bs;
      Sign(rem', rem0, rem1);
    }
  }
}
