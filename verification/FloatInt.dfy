/** Rounding to integers, and the conversions between 64-bit integers and the extended format
    (src/halfix/softfloat.c; section 5.8 of IEEE 754-2008). */
module FloatInt {
  import opened Words
  import opened Rounding
  import opened SoftFloat32

  // --- Rounding an exact fraction to an integer ---

  /** Whether `f` and a remainder `r` of `den` round up to f + 1. */
  predicate RoundsUp(dir: Direction, f: nat, r: nat, den: nat) {
    r != 0 && match dir
              case Truncate => false
              case Enlarge => true
              case Nearest => 2 * r > den || (2 * r == den && f % 2 == 1)
  }

  function IntRounding(dir: Direction, num: nat, den: nat): nat
    requires den > 0
  {
    var f := Quotient(num, den);
    if RoundsUp(dir, f, num - f * den, den) then f + 1 else f
  }

  /** The rounded integer is the nearest, ties to even, or the nearest on the side of the direction. */
  lemma IntRoundingMeans(dir: Direction, num: nat, den: nat, k: nat)
    requires den > 0
    ensures var m := IntRounding(dir, num, den);
            match dir
            case Truncate => m * den <= num && (k * den <= num ==> k <= m)
            case Enlarge => m * den >= num && (k * den >= num ==> k >= m)
            case Nearest =>
              && Distance(m * den, num) <= Distance(k * den, num)
              && (k != m && Distance(m * den, num) == Distance(k * den, num) ==> m % 2 == 0)
  {
    var f := Quotient(num, den);
    MulMono(k, f, den);
    MulMono(f + 1, k, den);
    MulMono(f, f, den);
    if k > f + 1 {
      MulMono(f + 1, k, den);
    }
  }

  /** Only the integer part and how the remainder compares with a half matter. */
  lemma SameRounding(dir: Direction, num: nat, den: nat, num': nat, den': nat, f: nat)
    requires den > 0 && den' > 0 && f * den <= num < f * den + den && f * den' <= num' < f * den' + den'
    requires var r, r' := num - f * den, num' - f * den';
             (r == 0 <==> r' == 0) && (2 * r < den <==> 2 * r' < den') && (2 * r == den <==> 2 * r' == den')
    ensures IntRounding(dir, num, den) == IntRounding(dir, num', den')
  {
    QuotientIs(num, den, f);
    QuotientIs(num', den', f);
    hide Quotient;
  }

  function Signed(negative: bool, m: int): int {
    if negative then -m else m
  }

  function Abs(a: int): nat {
    if a < 0 then -a else a
  }

  /** Rounded down, a signed value becomes the greatest integer not above it. */
  lemma DownIsFloor(negative: bool, num: nat, den: nat, k: int)
    requires den > 0
    ensures var v, x := Signed(negative, IntRounding(DirectionOf(Down, negative), num, den)), Signed(negative, num);
            v * den <= x && (k * den <= x ==> k <= v)
  {
    IntRoundingMeans(DirectionOf(Down, negative), num, den, Abs(k));
    NegatedTimes(Abs(k), den);
    NegatedTimes(IntRounding(DirectionOf(Down, negative), num, den), den);
    MulMono(0, Abs(k), den);
    hide IntRounding;
  }

  lemma NegatedTimes(k: nat, den: nat)
    ensures -(k as int) * den == -(k * den)
  {
  }

  /** Rounded up, the least one not below. */
  lemma UpIsCeiling(negative: bool, num: nat, den: nat, k: int)
    requires den > 0
    ensures var v, x := Signed(negative, IntRounding(DirectionOf(Up, negative), num, den)), Signed(negative, num);
            v * den >= x && (k * den >= x ==> k >= v)
  {
    IntRoundingMeans(DirectionOf(Up, negative), num, den, Abs(k));
    NegatedTimes(Abs(k), den);
    NegatedTimes(IntRounding(DirectionOf(Up, negative), num, den), den);
    MulMono(0, Abs(k), den);
    hide IntRounding;
  }

  /** Rounded to zero, its integer part. */
  lemma ToZeroIsIntegerPart(negative: bool, num: nat, den: nat)
    requires den > 0
    ensures IntRounding(DirectionOf(ToZero, negative), num, den) == Quotient(num, den)
  {
    hide Quotient;
  }

  /** Rounded to nearest, no integer is closer, and of two as close it is the even one. */
  lemma NearestHasNoCloserInteger(negative: bool, num: nat, den: nat, k: int)
    requires den > 0
    ensures var v, x := Signed(negative, IntRounding(DirectionOf(NearestEven, negative), num, den)),
                        Signed(negative, num);
            && Distance(v * den, x) <= Distance(k * den, x)
            && (Abs(k) != Abs(v) && Distance(v * den, x) == Distance(k * den, x) ==> v % 2 == 0)
  {
    var m := IntRounding(DirectionOf(NearestEven, negative), num, den);
    IntRoundingMeans(DirectionOf(NearestEven, negative), num, den, Abs(k));
    IntRoundingMeans(DirectionOf(NearestEven, negative), num, den, 0);
    NegatedTimes(Abs(k), den);
    NegatedTimes(m, den);
    MulMono(0, Abs(k), den);
    MulMono(0, m, den);
    hide IntRounding;
  }

  const INT32: int := 0x8000_0000
  const INT64: int := 0x8000_0000_0000_0000

  ghost predicate Fits(v: int, bound: int) {
    -bound <= v < bound
  }

  /** The integer that num / den rounds to, or the indefinite value -bound if that is out of range. */
  ghost function IntValue(mode: Mode, negative: bool, num: nat, den: nat, bound: int): int
    requires den > 0
  {
    var v := Signed(negative, IntRounding(DirectionOf(mode, negative), num, den));
    if Fits(v, bound) then v else -bound
  }

  ghost function IntFlags(mode: Mode, negative: bool, num: nat, den: nat, bound: int): set<Flag>
    requires den > 0
  {
    var m := IntRounding(DirectionOf(mode, negative), num, den);
    if !Fits(Signed(negative, m), bound) then {Invalid}
    else (if Quotient(num, den) * den == num then {} else {Inexact}) + (if m * den > num then {RoundedUp} else {})
  }

  /** The low 32 or 64 bits of a word as a two's complement integer. */
  function Wrap(a: int, bound: int): int
    requires bound > 0
  {
    (a + bound) % (2 * bound) - bound
  }

  // --- roundAndPackInt32 ---

  /** Its rounding, on the word. */
  lemma Rounded128(dir: Direction, a: nat)
    ensures Quotient(a, 128) == a / 128
    ensures IntRounding(dir, a, 128)
            == var r := (a + Increment(dir)) / 128; if a % 128 == 0x40 && dir == Nearest then r - r % 2 else r
    ensures a % 128 == 0 ==> IntRounding(dir, a, 128) * 128 == a
  {
    QuotientIs(a, 128, a / 128);
    hide Quotient;
  }

  lemma WrapTest32(absZ: int, negative: bool)
    requires absZ >= 0
    ensures var z0 := Wrap(absZ, INT32); var z := if negative then Wrap(-z0, INT32) else z0;
            && (absZ / W32 != 0 || (z != 0 && (z < 0) != negative) <==> !Fits(Signed(negative, absZ), INT32))
            && (Fits(Signed(negative, absZ), INT32) ==> z == Signed(negative, absZ))
  {
    if absZ < INT32 {
      assert Wrap(absZ, INT32) == absZ && Wrap(-absZ, INT32) == -absZ;
    } else if absZ < W32 {
      assert Wrap(absZ, INT32) == absZ - W32;
      assert absZ > INT32 ==> Wrap(W32 - absZ, INT32) == W32 - absZ;
      assert Wrap(INT32, INT32) == -INT32;
    }
  }

  /** The rounding of roundAndPackInt32. */
  method Round128(negative: bool, exactAbsZ: nat, status: Status) returns (absZ: nat)
    ensures absZ == IntRounding(DirectionOf(status.mode, negative), exactAbsZ, 128)
  {
    Rounded128(DirectionOf(status.mode, negative), exactAbsZ);
    hide IntRounding;
    var roundIncrement := status.RoundIncrement(negative);
    absZ := (exactAbsZ + roundIncrement) / 128;
    if exactAbsZ % 128 == 0x40 && status.mode == NearestEven {
      absZ := absZ - absZ % 2;
    }
  }

  /** roundAndPackInt32: the fixed-point value exactAbsZ / 128. */
  method RoundAndPackInt32(negative: bool, exactAbsZ: nat, status: Status) returns (z: int)
    requires exactAbsZ < INT64
    modifies status`flags
    ensures z == IntValue(status.mode, negative, exactAbsZ, 128, INT32)
    ensures status.flags == old(status.flags) + IntFlags(status.mode, negative, exactAbsZ, 128, INT32)
  {
    var roundBits := exactAbsZ % 128;
    Rounded128(DirectionOf(status.mode, negative), exactAbsZ);
    hide IntRounding, Quotient, Wrap, Increment;
    var absZ := Round128(negative, exactAbsZ, status);
    WrapTest32(absZ, negative);
    z := Wrap(absZ, INT32);
    if negative {
      z := Wrap(-z, INT32);
    }
    if absZ / W32 != 0 || (z != 0 && (z < 0) != negative) {
      status.Raise({Invalid});
      return -INT32;
    }
    if roundBits != 0 {
      status.Raise({Inexact});
      if absZ * 128 > exactAbsZ {
        status.Raise({RoundedUp});
      }
    }
  }

  // --- roundAndPackInt64 ---

  lemma Rounded64(dir: Direction, z0: nat, z1: nat)
    requires z1 < W64
    ensures Quotient(z0 * W64 + z1, W64) == z0
    ensures IntRounding(dir, z0 * W64 + z1, W64) == if RoundsUp(dir, z0, z1, W64) then z0 + 1 else z0
  {
    QuotientIs(z0 * W64 + z1, W64, z0);
    hide Quotient;
  }

  lemma WrapTest64(absZ: int, negative: bool)
    requires 0 <= absZ < W64
    ensures var z0 := Wrap(absZ, INT64); var z := if negative then Wrap(-z0, INT64) else z0;
            && (z != 0 && (z < 0) != negative <==> !Fits(Signed(negative, absZ), INT64))
            && (Fits(Signed(negative, absZ), INT64) ==> z == Signed(negative, absZ))
  {
    if absZ < INT64 {
      assert Wrap(absZ, INT64) == absZ && Wrap(-absZ, INT64) == -absZ;
    } else {
      assert Wrap(absZ, INT64) == absZ - W64;
      assert absZ > INT64 ==> Wrap(W64 - absZ, INT64) == W64 - absZ;
      assert Wrap(INT64, INT64) == -INT64;
    }
  }

  /** The increment of roundAndPackInt64, from the fraction word. */
  method IncrementInt64(negative: bool, absZ1: nat, status: Status) returns (increment: bool)
    requires absZ1 < W64
    ensures increment == match DirectionOf(status.mode, negative)
                         case Truncate => false case Enlarge => absZ1 != 0 case Nearest => absZ1 >= INT64
  {
    increment := absZ1 >= INT64;
    if status.mode != NearestEven {
      if status.mode == ToZero {
        increment := false;
      } else {
        if negative {
          increment := status.mode == Down && absZ1 != 0;
        } else {
          increment := status.mode == Up && absZ1 != 0;
        }
      }
    }
  }

  /** Its rounding: the increment may carry out of the word. */
  method Round64(negative: bool, absZ0: nat, absZ1: nat, status: Status) returns (rounded: nat)
    requires absZ0 < W64 && absZ1 < W64
    ensures rounded == IntRounding(DirectionOf(status.mode, negative), absZ0 * W64 + absZ1, W64) <= W64
    ensures absZ0 <= rounded
  {
    Rounded64(DirectionOf(status.mode, negative), absZ0, absZ1);
    hide IntRounding, Quotient;
    var increment := IncrementInt64(negative, absZ1, status);
    rounded := absZ0;
    if increment {
      rounded := rounded + 1;
      if rounded < W64 && absZ1 * 2 % W64 == 0 && status.mode == NearestEven {
        rounded := rounded - rounded % 2;
      }
    }
  }

  /** What the value and the flags are, by the parts of the word. */
  lemma Int64Outcome(mode: Mode, negative: bool, z0: nat, z1: nat, m: nat)
    requires z0 < W64 && z1 < W64 && m == IntRounding(DirectionOf(mode, negative), z0 * W64 + z1, W64) && z0 <= m <= W64
    ensures m == W64 ==> !Fits(Signed(negative, m), INT64)
    ensures IntValue(mode, negative, z0 * W64 + z1, W64, INT64)
            == if Fits(Signed(negative, m), INT64) then Signed(negative, m) else -INT64
    ensures IntFlags(mode, negative, z0 * W64 + z1, W64, INT64)
            == if !Fits(Signed(negative, m), INT64) then {Invalid}
               else (if z1 != 0 then {Inexact} else {}) + (if z1 != 0 && m > z0 then {RoundedUp} else {})
  {
    Rounded64(DirectionOf(mode, negative), z0, z1);
    hide IntRounding, Quotient, Signed;
    assert m == z0 || m == z0 + 1;
    assert z1 == 0 ==> m == z0;
  }

  /** roundAndPackInt64: the fixed-point value with integer part absZ0 and fraction absZ1. */
  method RoundAndPackInt64(negative: bool, absZ0: nat, absZ1: nat, status: Status) returns (z: int)
    requires absZ0 < W64 && absZ1 < W64
    modifies status`flags
    ensures z == IntValue(status.mode, negative, absZ0 * W64 + absZ1, W64, INT64)
    ensures status.flags == old(status.flags) + IntFlags(status.mode, negative, absZ0 * W64 + absZ1, W64, INT64)
  {
    hide Wrap, Fits, Signed, IntValue, IntFlags, IntRounding, DirectionOf;
    var rounded := Round64(negative, absZ0, absZ1, status);
    Int64Outcome(status.mode, negative, absZ0, absZ1, rounded);
    if rounded == W64 {
      status.Raise({Invalid});
      return -INT64;
    }
    WrapTest64(rounded, negative);
    z := Wrap(rounded, INT64);
    if negative {
      z := Wrap(-z, INT64);
    }
    if z != 0 && (z < 0) != negative {
      status.Raise({Invalid});
      return -INT64;
    }
    if absZ1 != 0 {
      status.Raise({Inexact});
      if rounded > absZ0 {
        status.Raise({RoundedUp});
      }
    }
  }

  // --- The extended format and 64-bit integers ---

  /** A floatx80: sign, 15-bit biased exponent, and 64-bit significand with an explicit integer bit. */
  datatype Floatx80 = Floatx80(negative: bool, exp: nat, fraction: nat)

  const BIAS64 := 0x403E

  /** An exponent without the integer bit is not a valid encoding. */
  predicate Unsupported(a: Floatx80) {
    a.exp != 0 && a.fraction < INT64
  }

  /** The magnitude of a finite value is fraction / 2^this when the exponent is at most BIAS64. */
  function Scale(exp: nat): nat {
    if exp == 0 then BIAS64 - 1 else if exp <= BIAS64 then BIAS64 - exp else 0
  }

  /** Two fractions that round to the same integer in every direction. */
  ghost predicate RoundAlike(num: nat, den: nat, num': nat, den': nat)
    requires den > 0 && den' > 0
  {
    forall dir: Direction :: IntRounding(dir, num, den) == IntRounding(dir, num', den')
  }

  /** shift64ExtraRightJamming: the pair a0, a1 shifted right as a fixed-point number, the bits lost jammed into the
      low word; what it rounds to stays the same. */
  method ShiftExtraRightJamming(a0: nat, a1: nat, count: nat) returns (z0: nat, z1: nat)
    requires a0 < W64 && a1 < W64
    ensures z0 < W64 && z1 < W64 && z0 == Quotient(a0, Pow2(count))
    ensures RoundAlike(z0 * W64 + z1, W64, a0 * W64 + a1, W64 * Pow2(count))
    ensures z1 == 0 <==> z0 * (W64 * Pow2(count)) == a0 * W64 + a1
  {
    Pow2Values();
    Pow2Small();
    hide Pow2, Quotient, IntRounding;
    if count == 0 {
      z0, z1 := a0, a1;
      QuotientIs(a0, 1, a0);
    } else if count <= 64 {
      z0 := if count < 64 then Quotient(a0, Pow2(count)) else 0;
      z1 := Jam(if count < 64 then Low(a0 * Pow2(64 - count), 64) else a0, a1 != 0);
      ShiftSome(a0, a1, count, z0, z1);
    } else {
      z0 := 0;
      z1 := if a0 != 0 || a1 != 0 then 1 else 0;
      ShiftMany(a0, a1, count, z1);
    }
    SamePair(a0, a1, Pow2(count), z0, z1);
  }

  /** The low word stands for the remainder of the shift: it is zero, below or at a half together with it. */
  ghost predicate StandsForRest(r: nat, den: nat, z1: nat) {
    (r == 0 <==> z1 == 0) && (2 * r < den <==> 2 * z1 < W64) && (2 * r == den <==> 2 * z1 == W64)
  }

  ghost predicate SplitsAt(a0: nat, a1: nat, p: nat, z0: nat, z1: nat) {
    z0 * p <= a0 < z0 * p + p && StandsForRest((a0 - z0 * p) * W64 + a1, W64 * p, z1)
  }

  lemma SamePair(a0: nat, a1: nat, p: nat, z0: nat, z1: nat)
    requires a0 < W64 && a1 < W64 && z1 < W64 && p > 0 && SplitsAt(a0, a1, p, z0, z1)
    ensures z0 == Quotient(a0, p)
    ensures RoundAlike(z0 * W64 + z1, W64, a0 * W64 + a1, W64 * p)
    ensures z1 == 0 <==> z0 * (W64 * p) == a0 * W64 + a1
  {
    QuotientIs(a0, p, z0);
    var r, num, den := a0 - z0 * p, a0 * W64 + a1, W64 * p;
    PairRest(z0, p, r, a0, a1);
    forall dir ensures IntRounding(dir, z0 * W64 + z1, W64) == IntRounding(dir, num, den) {
      SameRounding(dir, z0 * W64 + z1, W64, num, den, z0);
    }
    hide Quotient, IntRounding;
  }

  lemma PairRest(z0: nat, p: nat, r: nat, a0: nat, a1: nat)
    requires a0 == z0 * p + r && r < p && a1 < W64
    ensures a0 * W64 + a1 == z0 * (W64 * p) + (r * W64 + a1) && 0 <= r * W64 + a1 < W64 * p
  {
    assert (z0 * p) * W64 == z0 * (W64 * p);
    MulMono(r + 1, p, W64);
  }

  lemma ShiftSome(a0: nat, a1: nat, count: nat, z0: nat, z1: nat)
    requires a0 < W64 && a1 < W64 && 0 < count <= 64
    requires z0 == (if count < 64 then Quotient(a0, Pow2(count)) else 0)
    requires z1 == Jam(if count < 64 then Low(a0 * Pow2(64 - count), 64) else a0, a1 != 0)
    ensures z0 < W64 && z1 < W64 && SplitsAt(a0, a1, Pow2(count), z0, z1)
  {
    hide Quotient, Pow2, StandsForRest, Jam, Low;
    var p, s := Pow2(count), Pow2(64 - count);
    PowersAt(count);
    LostWord(a0, count, z0, p, s);
    JammedRest(a0 - z0 * p, a1, p, s, Pow2(count - 1), z1);
  }

  lemma PowersAt(count: nat)
    requires 0 < count <= 64
    ensures Pow2(count) == 2 * Pow2(count - 1) && Pow2(count) * Pow2(64 - count) == W64
    ensures count == 64 ==> Pow2(64 - count) == 1
  {
    assert Pow2(0) == 1;
    hide Pow2;
    Pow2Values();
    Pow2Add(count, 64 - count);
  }

  /** What the shift left keeps is what the shift right loses. */
  lemma LostWord(a0: nat, count: nat, z0: nat, p: nat, s: nat)
    requires a0 < W64 && 0 < count <= 64 && p == Pow2(count) && s == Pow2(64 - count) && p * s == W64 && p > 1
    requires z0 == (if count < 64 then Quotient(a0, p) else 0) && (count == 64 ==> s == 1)
    ensures z0 * p <= a0 < z0 * p + p && z0 < W64
    ensures (if count < 64 then Low(a0 * s, 64) else a0) == (a0 - z0 * p) * s
  {
    Pow2Values();
    hide Quotient, Pow2;
    if count < 64 {
      ShiftedParts(z0, p, s, a0 - z0 * p, a0);
      QuotientIs(a0 * s, W64, z0);
      MulMono(1, p, z0);
    }
  }

  /** A remainder `r` of p = 2 * h, with the lost word jammed in. */
  lemma JammedRest(r: nat, a1: nat, p: nat, s: nat, h: nat, z1: nat)
    requires r < p == 2 * h && p * s == W64 && a1 < W64 && z1 == Jam(r * s, a1 != 0)
    ensures z1 < W64 && StandsForRest(r * W64 + a1, W64 * p, z1)
  {
    assert h * s == W64 / 2;
    MulMono(r, h, s);
    MulMono(h, r, s);
    MulMono(r, p, s);
    MulMono(0, r, s);
    MulMono(r + 1, h, W64);
    MulMono(h, r, W64);
    MulMono(0, r, W64);
    assert W64 * p == 2 * (h * W64);
  }

  lemma ShiftMany(a0: nat, a1: nat, count: nat, z1: nat)
    requires a0 < W64 && a1 < W64 && count > 64 && z1 == if a0 != 0 || a1 != 0 then 1 else 0
    ensures SplitsAt(a0, a1, Pow2(count), 0, z1)
  {
    hide Pow2;
    TwiceW64(count);
    var p := Pow2(count);
    MulMono(2 * W64, p, W64);
    assert 0 * p == 0;
  }

  lemma ShiftNone(a: nat)
    requires a < W64
    ensures RoundAlike(a * W64, W64, a, Pow2(0))
    ensures a == Quotient(a, Pow2(0)) && a * Pow2(0) == a
  {
    QuotientIs(a, 1, a);
    forall dir ensures IntRounding(dir, a * W64, W64) == IntRounding(dir, a, Pow2(0)) {
      SameRounding(dir, a * W64, W64, a, 1, a);
    }
    hide Quotient, IntRounding;
  }

  /** A word and no fraction is a fraction of its own. */
  lemma WholeWord(a: nat, p: nat, z: nat)
    requires p > 0 && z == Quotient(a, p)
    ensures RoundAlike(a * W64 + 0, W64 * p, a, p)
    ensures z * (W64 * p) == a * W64 + 0 <==> z * p == a
  {
    var r := a - z * p;
    PairRest(z, p, r, a, 0);
    assert W64 * p == p * W64 && (2 * r) * W64 == 2 * (r * W64);
    MulMono(2 * r, p, W64);
    MulMono(p, 2 * r, W64);
    forall dir ensures IntRounding(dir, a * W64 + 0, W64 * p) == IntRounding(dir, a, p) {
      SameRounding(dir, a * W64 + 0, W64 * p, a, p, z);
    }
    hide Quotient, IntRounding;
  }

  lemma TwiceW64(count: nat)
    requires count > 64
    ensures Pow2(count) >= 2 * W64
  {
    Pow2Values();
    assert Pow2(65) == 2 * Pow2(64);
    Pow2Mono(65, count);
  }

  /** For values below 1 / 2, the exact scale does not matter. */
  lemma TinyRounding(mode: Mode, negative: bool, a: nat, i: nat, j: nat)
    requires a < W64 && i > 64 && j > 64
    ensures IntValue(mode, negative, a, Pow2(i), INT64) == IntValue(mode, negative, a, Pow2(j), INT64)
    ensures IntFlags(mode, negative, a, Pow2(i), INT64) == IntFlags(mode, negative, a, Pow2(j), INT64)
  {
    TwiceW64(i);
    TwiceW64(j);
    QuotientIs(a, Pow2(i), 0);
    QuotientIs(a, Pow2(j), 0);
    var m := IntRounding(DirectionOf(mode, negative), a, Pow2(i));
    assert m <= 1 && m == IntRounding(DirectionOf(mode, negative), a, Pow2(j));
    hide Quotient, Pow2;
  }

  lemma RoundsNear(dir: Direction, num: nat, den: nat)
    requires den > 0
    ensures var q, m := Quotient(num, den), IntRounding(dir, num, den);
            (m == q || m == q + 1) && (m * den > num <==> m == q + 1)
  {
    var q := Quotient(num, den);
    MulMono(q, q, den);
    hide Quotient;
  }

  lemma SameOutcome(mode: Mode, negative: bool, z0: nat, z1: nat, a: nat, den: nat)
    requires den > 0 && z1 < W64 && z0 == Quotient(a, den) && (z1 == 0 <==> z0 * den == a)
    requires RoundAlike(z0 * W64 + z1, W64, a, den)
    ensures IntValue(mode, negative, z0 * W64 + z1, W64, INT64) == IntValue(mode, negative, a, den, INT64)
    ensures IntFlags(mode, negative, z0 * W64 + z1, W64, INT64) == IntFlags(mode, negative, a, den, INT64)
  {
    hide Quotient, IntRounding;
    QuotientIs(z0 * W64 + z1, W64, z0);
    RoundsNear(DirectionOf(mode, negative), z0 * W64 + z1, W64);
    RoundsNear(DirectionOf(mode, negative), a, den);
  }

  /** floatx80_to_int64: the value rounded to a 64-bit integer, or the indefinite integer with invalid
      raised exactly when it does not fit. */
  method Floatx80ToInt64(a: Floatx80, status: Status) returns (z: int)
    requires a.exp < 0x8000 && a.fraction < W64
    modifies status`flags
    ensures var scale := Scale(a.exp);
            if Unsupported(a) || a.exp > BIAS64 then z == -INT64 && status.flags == old(status.flags) + {Invalid}
            else
              && z == IntValue(status.mode, a.negative, a.fraction, Pow2(scale), INT64)
              && status.flags == old(status.flags) + IntFlags(status.mode, a.negative, a.fraction, Pow2(scale), INT64)
  {
    if Unsupported(a) {
      status.Raise({Invalid});
      return -INT64;
    }
    var shiftCount := BIAS64 - a.exp as int;
    hide IntRounding, Pow2, Quotient, IntValue, IntFlags, Scale;
    if shiftCount < 0 {
      status.Raise({Invalid});
      return -INT64;
    }
    var aSig, aSigExtra := FixedPoint(a, shiftCount, status.mode);
    z := RoundAndPackInt64(a.negative, aSig, aSigExtra, status);
  }

  /** The significand as a fixed-point value with integer part `z0` and fraction `z1`. */
  method FixedPoint(a: Floatx80, shiftCount: nat, ghost mode: Mode) returns (z0: nat, z1: nat)
    requires a.fraction < W64 && a.exp <= BIAS64 && shiftCount == BIAS64 - a.exp
    ensures z0 < W64 && z1 < W64
    ensures IntValue(mode, a.negative, z0 * W64 + z1, W64, INT64)
            == IntValue(mode, a.negative, a.fraction, Pow2(Scale(a.exp)), INT64)
    ensures IntFlags(mode, a.negative, z0 * W64 + z1, W64, INT64)
            == IntFlags(mode, a.negative, a.fraction, Pow2(Scale(a.exp)), INT64)
  {
    hide IntRounding, Pow2, Quotient, IntValue, IntFlags;
    if shiftCount == 0 {
      z0, z1 := a.fraction, 0;
      ShiftNone(a.fraction);
    } else {
      z0, z1 := ShiftExtraRightJamming(a.fraction, 0, shiftCount);
      WholeWord(a.fraction, Pow2(shiftCount), z0);
    }
    SameOutcome(mode, a.negative, z0, z1, a.fraction, Pow2(shiftCount));
    if a.exp == 0 {
      TinyRounding(mode, a.negative, a.fraction, shiftCount, Scale(a.exp));
    }
  }

  /** `f` is the normalized extended value of the integer `a`. */
  ghost predicate Represents(f: Floatx80, a: int) {
    if a == 0 then f == Floatx80(false, 0, 0)
    else
      && f.negative == (a < 0) && 0 < f.exp <= BIAS64 && INT64 <= f.fraction < W64
      && f.fraction == Abs(a) * Pow2(BIAS64 - f.exp)
  }

  /** int64_to_floatx80 is exact. */
  method Int64ToFloatx80(a: int) returns (f: Floatx80)
    requires -INT64 <= a < INT64
    ensures Represents(f, a)
  {
    if a == 0 {
      return Floatx80(false, 0, 0);
    }
    var absA := Abs(a);
    var shiftCount := CountLeadingZeros64(absA);
    f := Floatx80(a < 0, BIAS64 - shiftCount, absA * Pow2(shiftCount));
    assert BIAS64 - f.exp == shiftCount;
  }

  /** Converting a 64-bit integer to the extended format and back gives the integer, and raises nothing. */
  lemma RoundTrip(f: Floatx80, a: int, mode: Mode)
    requires -INT64 <= a < INT64 && Represents(f, a)
    ensures !Unsupported(f) && f.exp <= BIAS64
    ensures IntValue(mode, f.negative, f.fraction, Pow2(Scale(f.exp)), INT64) == a
    ensures IntFlags(mode, f.negative, f.fraction, Pow2(Scale(f.exp)), INT64) == {}
  {
    var p := Pow2(Scale(f.exp));
    QuotientIs(f.fraction, p, Abs(a));
    hide Quotient, Pow2;
  }
}
