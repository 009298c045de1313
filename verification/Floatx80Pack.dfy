/** Rounding and packing to the extended format at its full precision (roundAndPackFloatx80 and
    normalizeRoundAndPackFloatx80 of src/halfix/softfloat.c). Magnitudes are measured in units of 2^-16445, the
    smallest subnormal. */
module Floatx80Pack {
  import opened Words
  import opened Words128
  import opened Rounding
  import opened SoftFloat32
  import opened FloatInt

  /** The exponent field of infinities and NaNs. */
  const SPECIAL := 0x7FFF

  /** What a trapped underflow or overflow adds to or takes off the exponent. */
  const WRAP := 0x6000

  function Magnitude(x: Floatx80): nat {
    x.fraction * Pow2(if x.exp == 0 then 0 else x.exp - 1)
  }

  // --- The result, on the exact significand ---

  /** A pair at exponent `exp` holds this fraction of the unit in the last place of its result. */
  function Divisor(exp: int): (d: nat)
    ensures d > 0
  {
    if exp >= 1 then W64
    else
      MulMono(0, Pow2(1 - exp), W64);
      W64 * Pow2(1 - exp)
  }

  /** The significand, rounded to that unit. */
  function RoundedSig(dir: Direction, exp: int, sig: nat): nat { IntRounding(dir, sig, Divisor(exp)) }

  function Encoded(negative: bool, exp: int, m: nat): Floatx80 {
    if exp < 1 then Floatx80(negative, if m >= TOP then 1 else 0, m)
    else if m == 0 then Floatx80(negative, 0, 0)
    else if m == W64 then Floatx80(negative, exp + 1, TOP)
    else Floatx80(negative, exp, m)
  }

  predicate OutOfRange(dir: Direction, exp: int, sig: nat) {
    exp >= SPECIAL || (exp == SPECIAL - 1 && RoundedSig(dir, exp, sig) == W64)
  }

  /** Rounded to 64 bits with an unbounded exponent, the value stays below the smallest normal one. */
  predicate TinySig(dir: Direction, exp: int, sig: nat) {
    exp < 0 || (exp == 0 && IntRounding(dir, sig, W64) < W64)
  }

  datatype Packing80 = Packing80(z: Floatx80, raised: set<Flag>)

  function PackOutOfRange(dir: Direction, negative: bool): Packing80 {
    if dir == Truncate then Packing80(Floatx80(negative, SPECIAL - 1, W64 - 1), {Overflow, Inexact})
    else Packing80(Floatx80(negative, SPECIAL, TOP), {Overflow, Inexact, RoundedUp})
  }

  function RaisedIn(dir: Direction, masks: set<Flag>, exp: int, sig: nat): set<Flag> {
    var v := RoundedSig(dir, exp, sig) * Divisor(exp);
    (if v != sig then {Inexact} else {}) + (if v > sig then {RoundedUp} else {})
    + if TinySig(dir, exp, sig) && (v != sig || (sig != 0 && Underflow !in masks)) then {Underflow} else {}
  }

  /** What rounding and packing makes of a pair, before a trap. */
  function PackedOnce(dir: Direction, masks: set<Flag>, negative: bool, exp: int, sig: nat): Packing80 {
    if OutOfRange(dir, exp, sig) then PackOutOfRange(dir, negative)
    else Packing80(Encoded(negative, exp, RoundedSig(dir, exp, sig)), RaisedIn(dir, masks, exp, sig))
  }

  predicate Traps(flag: Flag, flags: set<Flag>, masks: set<Flag>) { flag in flags && flag !in masks }

  /** The packed number, and the exceptions afterwards. An unmasked underflow or overflow, one that was raised before
      included, delivers a number with its exponent moved. */
  function Packed80(dir: Direction, flags: set<Flag>, masks: set<Flag>, negative: bool, exp: int, sig: nat): Packing80 {
    var p := PackedOnce(dir, masks, negative, exp, sig);
    if Traps(Underflow, flags + p.raised, masks) then
      var t := PackedOnce(dir, masks, negative, exp + WRAP, sig);
      Packing80(t.z, flags + {Underflow} + t.raised)
    else if Traps(Overflow, flags + p.raised, masks) then
      var t := PackedOnce(dir, masks, negative, exp - WRAP, sig);
      Packing80(t.z, flags + {Overflow} + t.raised)
    else Packing80(p.z, flags + p.raised)
  }

  // --- What it means ---

  /** A normalized pair, or nothing. */
  predicate NormalPair(sig: nat) { sig == 0 || TOP * W64 <= sig < W128 }

  /** The exponent of the unit in the last place. */
  function UnitOf(exp: int): nat { if exp >= 1 then exp - 1 else 0 }

  /** In range the packed number is the exact value rounded to a multiple of the unit in its last place: subnormal
      results and carries into the next exponent included. */
  lemma PackedIsRounded(dir: Direction, masks: set<Flag>, negative: bool, exp: int, sig: nat)
    requires NormalPair(sig) && !OutOfRange(dir, exp, sig)
    ensures var z := PackedOnce(dir, masks, negative, exp, sig).z;
            && Magnitude(z) == IntRounding(dir, sig, Divisor(exp)) * Pow2(UnitOf(exp))
            && z.negative == negative && z.exp < SPECIAL && z.fraction < W64 && !Unsupported(z)
            && (z.exp == 0 ==> z.fraction < TOP)
  {
    var m := RoundedSig(dir, exp, sig);
    RoundedBounds(dir, exp, sig);
    hide IntRounding, RoundedSig, Pow2;
    if exp >= 1 && m == W64 {
      CarryMagnitude(exp);
    }
  }

  lemma CarryMagnitude(exp: nat)
    requires exp >= 1
    ensures TOP * Pow2(exp) == W64 * Pow2(exp - 1)
  {
    assert Pow2(exp) == 2 * Pow2(exp - 1);
    hide Pow2;
  }

  /** How large a rounded significand is. */
  lemma RoundedBounds(dir: Direction, exp: int, sig: nat)
    requires NormalPair(sig)
    ensures var m := RoundedSig(dir, exp, sig);
            && (sig == 0 ==> m == 0) && m <= (if exp >= 1 then W64 else TOP)
            && (exp >= 1 && sig != 0 ==> m >= TOP)
  {
    var d := Divisor(exp);
    RoundsNear(dir, sig, d);
    var q := Quotient(sig, d);
    hide IntRounding, Quotient;
    if sig == 0 {
      QuotientIs(0, d, 0);
      IntRoundingMeans(dir, 0, d, 0);
    }
    if exp < 1 {
      HalfAtMost(1 - exp);
      MulMono(TOP, q, d);
      MulMono(2 * W64, d, TOP);
      LargestFraction(dir, sig, d, q);
    } else {
      MulMono(W64, q, W64);
      MulMono(q + 1, TOP, W64);
    }
  }

  lemma HalfAtMost(n: nat)
    requires n >= 1
    ensures W64 * Pow2(n) >= 2 * W64
  {
    Pow2Mono(1, n);
    Pow2Small();
    hide Pow2;
    MulMono(2, Pow2(n), W64);
  }

  lemma LargestFraction(dir: Direction, sig: nat, d: nat, q: nat)
    requires sig < W128 && d >= 2 * W64 && q * d <= sig < q * d + d
    ensures q < TOP
  {
    MulMono(TOP, q, d);
    MulMono(2 * W64, d, TOP);
  }

  /** A pair at exponent `exp` is exactly `v` units of the smallest subnormal. */
  ghost predicate IsExactly(exp: int, sig: nat, v: nat) {
    sig * Pow2(UnitOf(exp)) == v * Divisor(exp)
  }

  /** Nothing unmasked is pending, so that packing can only trap on its own account. */
  predicate NothingPending(flags: set<Flag>, masks: set<Flag>) {
    !Traps(Underflow, flags, masks) && !Traps(Overflow, flags, masks)
  }

  /** A supported finite number of this sign and magnitude. */
  ghost predicate IsFinite(z: Floatx80, negative: bool, v: nat) {
    && Magnitude(z) == v && z.negative == negative && z.exp < SPECIAL && z.fraction < W64
    && !Unsupported(z) && (z.exp == 0 ==> z.fraction < TOP)
  }

  /** What packing a value that fits delivers: the value; if it is subnormal and underflow unmasked, scaled up. */
  ghost predicate Delivers(p: Packing80, flags: set<Flag>, masks: set<Flag>, negative: bool, v: nat) {
    if 0 < v < TOP && Underflow !in masks then
      IsFinite(p.z, negative, v * Pow2(WRAP)) && p.raised == flags + {Underflow}
    else IsFinite(p.z, negative, v) && p.raised == flags
  }

  lemma ExactRounding(dir: Direction, num: nat, den: nat, q: nat)
    requires den > 0 && num == q * den
    ensures IntRounding(dir, num, den) == q
  {
    QuotientIs(num, den, q);
    hide Quotient;
  }

  /** The significand of a value that fits is a whole number of units. */
  lemma ExactSig(dir: Direction, exp: int, sig: nat, v: nat)
    requires NormalPair(sig) && sig % W64 == 0 && IsExactly(exp, sig, v)
    ensures var m := RoundedSig(dir, exp, sig);
            && m * Divisor(exp) == sig && m < W64 && v == m * Pow2(UnitOf(exp))
            && (if exp >= 1 then v == 0 || v >= TOP else v < TOP) && (v == 0 <==> sig == 0)
    ensures exp < 1 ==> TinySig(dir, exp, sig)
  {
    var j := sig / W64;
    assert sig == j * W64;
    ExactRounding(dir, sig, W64, j);
    if exp >= 1 {
      Exchange(j, W64, Pow2(exp - 1));
      CancelFactor(j * Pow2(exp - 1), v, W64);
      MulMono(1, Pow2(exp - 1), j);
    } else {
      assert Pow2(0) == 1;
      ExactRounding(dir, sig, Divisor(exp), v);
      HalfAtMost(1 - exp);
      LargestFraction(dir, sig, Divisor(exp), v);
      MulMono(1, v, Divisor(exp));
    }
    hide Pow2, IntRounding;
  }

  lemma Exchange(j: nat, w: nat, p: nat)
    ensures j * w * p == j * p * w && j * p == p * j
  {
  }

  /** A value that fits, before a trap: rounding changes nothing. */
  lemma ExactOnce(dir: Direction, masks: set<Flag>, negative: bool, exp: int, sig: nat, v: nat)
    requires NormalPair(sig) && sig % W64 == 0 && exp < SPECIAL && IsExactly(exp, sig, v)
    ensures var p := PackedOnce(dir, masks, negative, exp, sig);
            IsFinite(p.z, negative, v) && p.raised == if 0 < v < TOP && Underflow !in masks then {Underflow} else {}
    ensures if exp >= 1 then v == 0 || v >= TOP else v < TOP
  {
    ExactSig(dir, exp, sig, v);
    hide IntRounding, Pow2, Divisor, RoundedSig, IsExactly;
    PackedIsRounded(dir, masks, negative, exp, sig);
    hide Magnitude, Unsupported, UnitOf, Encoded;
  }

  /** A subnormal value with its exponent moved up. */
  lemma MovedUp(exp: int, sig: nat, v: nat)
    requires IsExactly(exp, sig, v) && -WRAP < exp < 1
    ensures IsExactly(exp + WRAP, sig, v * Pow2(WRAP)) && v * Pow2(WRAP) >= v
  {
    hide Pow2;
    Pow2Small();
    Pow2Add(1 - exp, exp + WRAP - 1);
    var p, q, r := Pow2(1 - exp), Pow2(exp + WRAP - 1), Pow2(WRAP);
    assert sig == v * (W64 * p) && r == p * q;
    hide Divisor;
    Regroup3(v, W64, p, q);
    MulMono(1, r, v);
    DivisorAbove(exp + WRAP);
  }

  lemma DivisorAbove(exp: int)
    requires exp >= 1
    ensures Divisor(exp) == W64
  {
  }

  lemma Regroup3(v: nat, w: nat, p: nat, q: nat)
    ensures v * (w * p) * q == v * (p * q) * w
  {
  }

  /** A value that fits the format is packed exactly, subnormal or not, in every rounding mode. */
  lemma PackedExactly(dir: Direction, flags: set<Flag>, masks: set<Flag>, negative: bool, exp: int, sig: nat, v: nat)
    requires NormalPair(sig) && sig % W64 == 0 && IsExactly(exp, sig, v) && -WRAP < exp < SPECIAL
    requires NothingPending(flags, masks)
    ensures Delivers(Packed80(dir, flags, masks, negative, exp, sig), flags, masks, negative, v)
  {
    hide IsExactly, IsFinite, PackedOnce, Pow2;
    ExactOnce(dir, masks, negative, exp, sig, v);
    if 0 < v < TOP && Underflow !in masks {
      MovedUp(exp, sig, v);
      ExactOnce(dir, masks, negative, exp + WRAP, sig, v * Pow2(WRAP));
    }
  }

  // --- No number of the format lies between the exact value and the packed one ---

  /** A supported finite number. */
  predicate IsNumber80(w: Floatx80) {
    w.exp < SPECIAL && w.fraction < W64 && !Unsupported(w)
  }

  /** A number of the format is a multiple of the unit in a pair's last place, or below every pair of that exponent. */
  lemma OnGrid(w: Floatx80, exp: int)
    requires IsNumber80(w)
    ensures Magnitude(w) < TOP * Pow2(UnitOf(exp)) || exists j: nat :: Magnitude(w) == j * Pow2(UnitOf(exp))
  {
    hide Pow2;
    var e, u := if w.exp == 0 then 0 else w.exp - 1, UnitOf(exp);
    if e >= u {
      Pow2Add(e - u, u);
      Assoc(w.fraction, Pow2(e - u), Pow2(u));
      assert Magnitude(w) == (w.fraction * Pow2(e - u)) * Pow2(u);
    } else {
      Pow2Mono(e + 1, u);
      HalfPower(e + 1);
      AtMostDouble(w.fraction, Pow2(e), Pow2(u));
    }
  }

  lemma AtMostDouble(f: nat, p: nat, q: nat)
    requires f < W64 && 2 * p <= q && p > 0
    ensures f * p < TOP * q
  {
    MulMono(f, W64, p);
    MulMono(2 * p, q, TOP);
    assert W64 * p == TOP * (2 * p);
  }

  /** The exact value's magnitude is sig * unit / divisor; how a number compares with it. */
  predicate UpTo(w: nat, exp: int, sig: nat) { w * Divisor(exp) <= sig * Pow2(UnitOf(exp)) }

  predicate From(w: nat, exp: int, sig: nat) { sig * Pow2(UnitOf(exp)) <= w * Divisor(exp) }

  lemma MultipleCompares(j: nat, u: nat, d: nat, sig: nat)
    requires u > 0
    ensures (j * u) * d <= sig * u <==> j * d <= sig
    ensures sig * u <= (j * u) * d <==> sig <= j * d
  {
    assert (j * u) * d == (j * d) * u;
    MulMono(j * d, sig, u);
    MulMono(sig, j * d, u);
  }

  /** A number below every pair of the exponent lies below the exact value and its rounding. */
  lemma BelowPairs(dir: Direction, w: nat, exp: int, sig: nat)
    requires NormalPair(sig) && sig != 0 && exp >= 1 && w < TOP * Pow2(UnitOf(exp))
    ensures UpTo(w, exp, sig) && !From(w, exp, sig) && w <= RoundedSig(dir, exp, sig) * Pow2(UnitOf(exp))
  {
    hide Pow2, RoundedSig;
    var u := Pow2(UnitOf(exp));
    RoundedBounds(dir, exp, sig);
    MulMono(TOP, RoundedSig(dir, exp, sig), u);
    MulMono(w, TOP * u, W64);
    MulMono(TOP * W64, sig, u);
    SwapFactors(TOP, u, W64);
  }

  /** The magnitude that rounding delivers, against any other: the greatest up to the exact value, or the least from
      it on. */
  lemma RoundedIsTight(dir: Direction, exp: int, sig: nat, w: Floatx80)
    requires NormalPair(sig) && sig != 0 && IsNumber80(w)
    ensures var z := RoundedSig(dir, exp, sig) * Pow2(UnitOf(exp));
            && (dir == Truncate ==> UpTo(z, exp, sig) && (UpTo(Magnitude(w), exp, sig) ==> Magnitude(w) <= z))
            && (dir == Enlarge ==> From(z, exp, sig) && (From(Magnitude(w), exp, sig) ==> z <= Magnitude(w)))
  {
    hide Pow2, Magnitude, IntRounding, Divisor;
    var m, u, d := RoundedSig(dir, exp, sig), Pow2(UnitOf(exp)), Divisor(exp);
    IntRoundingMeans(dir, sig, d, 0);
    MultipleCompares(m, u, d, sig);
    OnGrid(w, exp);
    if j: nat :| Magnitude(w) == j * u {
      IntRoundingMeans(dir, sig, d, j);
      MultipleCompares(j, u, d, sig);
      MulMono(j, m, u);
      MulMono(m, j, u);
    } else {
      if exp >= 1 {
        BelowPairs(dir, Magnitude(w), exp, sig);
      } else {
        UnitIsOne(Magnitude(w));
      }
    }
  }

  lemma UnitIsOne(w: nat)
    ensures w == w * Pow2(0)
  {
  }

  /** No number is larger than the largest one. */
  lemma LargestNumber(w: Floatx80)
    requires IsNumber80(w)
    ensures Magnitude(w) <= (W64 - 1) * Pow2(SPECIAL - 2)
  {
    hide Pow2;
    var e := if w.exp == 0 then 0 else w.exp - 1;
    Pow2Mono(e, SPECIAL - 2);
    MulMono(w.fraction, W64 - 1, Pow2(e));
    MulMono(Pow2(e), Pow2(SPECIAL - 2), W64 - 1);
  }

  /** A value out of range, under a directed rounding, is beyond every number. */
  lemma BeyondAll(dir: Direction, exp: int, sig: nat, w: Floatx80)
    requires NormalPair(sig) && sig != 0 && IsNumber80(w) && dir != Nearest && OutOfRange(dir, exp, sig)
    ensures exp >= SPECIAL - 1 && UpTo(Magnitude(w), exp, sig) && !From(Magnitude(w), exp, sig)
  {
    hide Pow2, Magnitude, IntRounding;
    LargestNumber(w);
    var b := Pow2(SPECIAL - 2);
    if exp >= SPECIAL {
      Pow2Mono(SPECIAL - 1, exp - 1);
      HalfPower(SPECIAL - 1);
      BeyondByExponent(Magnitude(w), sig, b, Pow2(exp - 1));
    } else {
      IntRoundingMeans(dir, sig, W64, W64 - 1);
      BeyondByCarry(Magnitude(w), sig, b);
    }
  }

  lemma BeyondByExponent(w: nat, sig: nat, b: nat, p: nat)
    requires w <= (W64 - 1) * b && TOP * W64 <= sig && 2 * b <= p && b > 0
    ensures w * W64 < sig * p
  {
    MulMono(TOP * W64, sig, p);
    MulMono(2 * b, p, TOP * W64);
    assert (2 * b) * (TOP * W64) == W64 * W64 * b;
  }

  lemma BeyondByCarry(w: nat, sig: nat, b: nat)
    requires w <= (W64 - 1) * b && (W64 - 1) * W64 < sig && b > 0
    ensures w * W64 < sig * b
  {
    MulMono((W64 - 1) * W64, sig, b);
    assert (W64 - 1) * b * W64 == (W64 - 1) * W64 * b;
  }

  /** What is packed under a directed rounding, overflow included, against any number of the format. */
  lemma PackedIsTight(dir: Direction, masks: set<Flag>, negative: bool, exp: int, sig: nat, w: Floatx80)
    requires NormalPair(sig) && sig != 0 && IsNumber80(w)
    ensures var z := PackedOnce(dir, masks, negative, exp, sig).z;
            && z.negative == negative && z.exp <= SPECIAL
            && (dir == Truncate ==>
                  && z.exp < SPECIAL && UpTo(Magnitude(z), exp, sig)
                  && (UpTo(Magnitude(w), exp, sig) ==> Magnitude(w) <= Magnitude(z)))
            && (dir == Enlarge ==>
                  && (z.exp < SPECIAL ==> From(Magnitude(z), exp, sig))
                  && (From(Magnitude(w), exp, sig) ==> z.exp < SPECIAL && Magnitude(z) <= Magnitude(w)))
  {
    hide OutOfRange;
    if OutOfRange(dir, exp, sig) {
      OverflowIsTight(dir, masks, negative, exp, sig, w);
    } else {
      InRangeIsTight(dir, masks, negative, exp, sig, w);
    }
  }

  lemma InRangeIsTight(dir: Direction, masks: set<Flag>, negative: bool, exp: int, sig: nat, w: Floatx80)
    requires NormalPair(sig) && sig != 0 && IsNumber80(w) && !OutOfRange(dir, exp, sig)
    ensures var z := PackedOnce(dir, masks, negative, exp, sig).z;
            && z.negative == negative && z.exp < SPECIAL
            && (dir == Truncate ==>
                  UpTo(Magnitude(z), exp, sig) && (UpTo(Magnitude(w), exp, sig) ==> Magnitude(w) <= Magnitude(z)))
            && (dir == Enlarge ==>
                  From(Magnitude(z), exp, sig) && (From(Magnitude(w), exp, sig) ==> Magnitude(z) <= Magnitude(w)))
  {
    hide Pow2, IntRounding, Divisor, UpTo, From, Unsupported, RaisedIn, PackedOnce, Magnitude, OutOfRange, IsNumber80;
    PackedIsRounded(dir, masks, negative, exp, sig);
    RoundedIsTight(dir, exp, sig, w);
  }

  lemma OverflowIsTight(dir: Direction, masks: set<Flag>, negative: bool, exp: int, sig: nat, w: Floatx80)
    requires NormalPair(sig) && sig != 0 && IsNumber80(w) && OutOfRange(dir, exp, sig)
    ensures var z := PackedOnce(dir, masks, negative, exp, sig).z;
            && z.negative == negative && z.exp <= SPECIAL
            && (dir == Truncate ==>
                  z.exp < SPECIAL && UpTo(Magnitude(z), exp, sig) && Magnitude(w) <= Magnitude(z))
            && (dir == Enlarge ==> z.exp == SPECIAL && !From(Magnitude(w), exp, sig))
  {
    hide Pow2, RoundedSig, Divisor, UpTo, From, RaisedIn, OutOfRange;
    if dir != Nearest {
      BeyondAll(dir, exp, sig, w);
      BeyondAll(dir, exp, sig, Floatx80(negative, SPECIAL - 1, W64 - 1));
      LargestNumber(w);
    }
  }

  /** A number's magnitude and the exact one, over a common denominator. */
  function Over80(w: Floatx80, exp: int): nat {
    MulMono(0, Magnitude(w), Divisor(exp));
    Magnitude(w) * Divisor(exp)
  }

  function Exact80(exp: int, sig: nat): nat {
    MulMono(0, sig, Pow2(UnitOf(exp)));
    sig * Pow2(UnitOf(exp))
  }

  /** How a number compares with the signed exact value. */
  predicate SignedUpTo(w: Floatx80, negative: bool, exp: int, sig: nat) {
    if w.exp == SPECIAL then w.negative
    else WithSign(w.negative, Over80(w, exp)) <= WithSign(negative, Exact80(exp, sig))
  }

  predicate SignedFrom(w: Floatx80, negative: bool, exp: int, sig: nat) {
    if w.exp == SPECIAL then !w.negative
    else WithSign(negative, Exact80(exp, sig)) <= WithSign(w.negative, Over80(w, exp))
  }

  /** How a finite number compares with one that may be infinite. */
  predicate NotAfter(w: Floatx80, z: Floatx80) {
    if z.exp == SPECIAL then !z.negative
    else WithSign(w.negative, Magnitude(w)) <= WithSign(z.negative, Magnitude(z))
  }

  predicate NotBefore(w: Floatx80, z: Floatx80) {
    if z.exp == SPECIAL then z.negative
    else WithSign(z.negative, Magnitude(z)) <= WithSign(w.negative, Magnitude(w))
  }

  lemma SignedCompares(w: Floatx80, exp: int, sig: nat)
    requires w.exp < SPECIAL && sig != 0
    ensures forall negative ::
              (SignedUpTo(w, negative, exp, sig) <==>
                 if negative then w.negative && From(Magnitude(w), exp, sig)
                 else w.negative || UpTo(Magnitude(w), exp, sig))
              && (SignedFrom(w, negative, exp, sig) <==>
                    if negative then w.negative ==> UpTo(Magnitude(w), exp, sig)
                    else !w.negative && From(Magnitude(w), exp, sig))
  {
    hide Pow2, Magnitude, Divisor;
    MulMono(0, Magnitude(w), Divisor(exp));
    MulMono(0, sig, Pow2(UnitOf(exp)));
  }

  /** Mode Down packs the greatest number that is not above the signed exact value. */
  lemma DownIsGreatest80(masks: set<Flag>, negative: bool, exp: int, sig: nat, w: Floatx80)
    requires NormalPair(sig) && sig != 0 && IsNumber80(w)
    ensures var z := PackedOnce(DirectionOf(Down, negative), masks, negative, exp, sig).z;
            SignedUpTo(z, negative, exp, sig) && (SignedUpTo(w, negative, exp, sig) ==> NotAfter(w, z))
  {
    var z := PackedOnce(DirectionOf(Down, negative), masks, negative, exp, sig).z;
    PackedIsTight(DirectionOf(Down, negative), masks, negative, exp, sig, w);
    hide PackedOnce, Magnitude, UpTo, From, SignedUpTo, SignedFrom, IsNumber80;
    SignedCompares(w, exp, sig);
    if z.exp < SPECIAL {
      SignedCompares(z, exp, sig);
    } else {
      InfinityCompares(z, exp, sig);
    }
  }

  lemma InfinityCompares(z: Floatx80, exp: int, sig: nat)
    requires z.exp == SPECIAL
    ensures forall negative {:trigger SignedUpTo(z, negative, exp, sig)} ::
              SignedUpTo(z, negative, exp, sig) == z.negative
    ensures forall negative {:trigger SignedFrom(z, negative, exp, sig)} ::
              SignedFrom(z, negative, exp, sig) == !z.negative
  {
  }

  /** Mode Up packs the least one that is not below it. */
  lemma UpIsLeast80(masks: set<Flag>, negative: bool, exp: int, sig: nat, w: Floatx80)
    requires NormalPair(sig) && sig != 0 && IsNumber80(w)
    ensures var z := PackedOnce(DirectionOf(Up, negative), masks, negative, exp, sig).z;
            SignedFrom(z, negative, exp, sig) && (SignedFrom(w, negative, exp, sig) ==> NotBefore(w, z))
  {
    var z := PackedOnce(DirectionOf(Up, negative), masks, negative, exp, sig).z;
    PackedIsTight(DirectionOf(Up, negative), masks, negative, exp, sig, w);
    hide PackedOnce, Magnitude, UpTo, From, SignedUpTo, SignedFrom, IsNumber80;
    SignedCompares(w, exp, sig);
    if z.exp < SPECIAL {
      SignedCompares(z, exp, sig);
    } else {
      InfinityCompares(z, exp, sig);
    }
  }

  /** Mode ToZero packs the one of the greatest magnitude that is not beyond the exact one, with the value's sign. */
  lemma ToZeroIsShortest80(masks: set<Flag>, negative: bool, exp: int, sig: nat, w: Floatx80)
    requires NormalPair(sig) && sig != 0 && IsNumber80(w)
    ensures var z := PackedOnce(DirectionOf(ToZero, negative), masks, negative, exp, sig).z;
            && z.negative == negative && z.exp < SPECIAL && UpTo(Magnitude(z), exp, sig)
            && (UpTo(Magnitude(w), exp, sig) ==> Magnitude(w) <= Magnitude(z))
  {
    PackedIsTight(DirectionOf(ToZero, negative), masks, negative, exp, sig, w);
    hide PackedOnce, Magnitude, UpTo, From;
  }

  /** Mode NearestEven packs a number than which none is closer, unless the value is out of range; then infinity. */
  lemma NearestHasNoCloser80(masks: set<Flag>, negative: bool, exp: int, sig: nat, w: Floatx80)
    requires NormalPair(sig) && sig != 0 && IsNumber80(w)
    ensures var dir := DirectionOf(NearestEven, negative);
            var z, x := PackedOnce(dir, masks, negative, exp, sig).z, WithSign(negative, Exact80(exp, sig));
            if OutOfRange(dir, exp, sig) then z == Floatx80(negative, SPECIAL, TOP)
            else
              Distance(WithSign(negative, Over80(z, exp)), x) <= Distance(WithSign(w.negative, Over80(w, exp)), x)
  {
    hide Pow2, RoundedSig, Divisor, Magnitude, OutOfRange, IsNumber80, NormalPair, PackedOnce, WithSign, Distance;
    var dir := DirectionOf(NearestEven, negative);
    if OutOfRange(dir, exp, sig) {
      NearestIsInfinity(masks, negative, exp, sig);
    } else {
      NearestParts(masks, negative, exp, sig);
      NearestMagnitude(exp, sig, w);
      var z := PackedOnce(dir, masks, negative, exp, sig).z;
      CloserSigned(negative, w.negative, Over80(z, exp), Over80(w, exp), Exact80(exp, sig));
    }
  }

  lemma NearestIsInfinity(masks: set<Flag>, negative: bool, exp: int, sig: nat)
    requires OutOfRange(Nearest, exp, sig)
    ensures var z := PackedOnce(DirectionOf(NearestEven, negative), masks, negative, exp, sig).z;
            z == Floatx80(negative, SPECIAL, TOP)
  {
    hide OutOfRange, RoundedSig;
  }

  lemma NearestParts(masks: set<Flag>, negative: bool, exp: int, sig: nat)
    requires NormalPair(sig) && sig != 0 && !OutOfRange(Nearest, exp, sig)
    ensures var z := PackedOnce(DirectionOf(NearestEven, negative), masks, negative, exp, sig).z;
            Magnitude(z) == RoundedSig(Nearest, exp, sig) * Pow2(UnitOf(exp))
  {
    hide Pow2, IntRounding, Divisor, Unsupported, RaisedIn, Magnitude, OutOfRange, NormalPair;
    PackedIsRounded(Nearest, masks, negative, exp, sig);
  }

  lemma CloserSigned(negative: bool, other: bool, z: nat, w: nat, x: nat)
    requires Distance(z, x) <= Distance(w, x) && Distance(z, x) <= x
    ensures Distance(WithSign(negative, z), WithSign(negative, x))
            <= Distance(WithSign(other, w), WithSign(negative, x))
  {
  }

  lemma NearestMagnitude(exp: int, sig: nat, w: Floatx80)
    requires NormalPair(sig) && sig != 0 && IsNumber80(w)
    ensures var z, x := RoundedSig(Nearest, exp, sig) * Pow2(UnitOf(exp)), sig * Pow2(UnitOf(exp));
            && x >= 0 && Distance(z * Divisor(exp), x) <= Distance(Magnitude(w) * Divisor(exp), x)
            && Distance(z * Divisor(exp), x) <= x
  {
    hide Pow2, Magnitude, IntRounding, Divisor;
    var u := Pow2(UnitOf(exp));
    MulMono(0, sig, u);
    NearestMultiple(exp, sig, 0);
    OnGrid(w, exp);
    if j: nat :| Magnitude(w) == j * u {
      NearestMultiple(exp, sig, j);
    } else if exp >= 1 {
      NearestMultiple(exp, sig, TOP);
      FartherBelow(Magnitude(w), u, Divisor(exp), sig, exp);
    } else {
      UnitIsOne(Magnitude(w));
    }
    assert 0 * u * Divisor(exp) == 0;
  }

  /** No multiple of the unit is closer than the rounded one. */
  lemma NearestMultiple(exp: int, sig: nat, j: nat)
    ensures var z, x := RoundedSig(Nearest, exp, sig) * Pow2(UnitOf(exp)), sig * Pow2(UnitOf(exp));
            Distance(z * Divisor(exp), x) <= Distance(j * Pow2(UnitOf(exp)) * Divisor(exp), x)
  {
    hide Pow2, IntRounding, Divisor;
    var m, u, d := RoundedSig(Nearest, exp, sig), Pow2(UnitOf(exp)), Divisor(exp);
    IntRoundingMeans(Nearest, sig, d, j);
    ScaledDistance(m, u, d, sig);
    ScaledDistance(j, u, d, sig);
    MulMono(Distance(m * d, sig), Distance(j * d, sig), u);
  }

  lemma ScaledDistance(j: nat, u: nat, d: nat, sig: nat)
    ensures Distance((j * u) * d, sig * u) == Distance(j * d, sig) * u
  {
    assert (j * u) * d == (j * d) * u;
    if j * d < sig {
      MulMono(j * d, sig, u);
      assert (sig - j * d) * u == sig * u - (j * d) * u;
    } else {
      MulMono(sig, j * d, u);
      assert (j * d - sig) * u == (j * d) * u - sig * u;
    }
  }

  lemma FartherBelow(w: nat, u: nat, d: nat, sig: nat, exp: int)
    requires w < TOP * u && d == Divisor(exp) && exp >= 1 && TOP * W64 <= sig
    ensures Distance((TOP * u) * d, sig * u) <= Distance(w * d, sig * u)
  {
    MulMono(w, TOP * u, d);
    MulMono(TOP * W64, sig, u);
    SwapFactors(TOP, u, W64);
  }

  // --- The code ---

  lemma CarriesOut(dir: Direction, sig0: nat, sig1: nat)
    requires IsWord(sig0) && IsWord(sig1)
    ensures var m := IntRounding(dir, Join(sig0, sig1), W64);
            && (m == W64 <==> sig0 == W64 - 1 && Increments(dir, sig1))
            && (m * W64 == Join(sig0, sig1) <==> sig1 == 0) && (m * W64 > Join(sig0, sig1) <==> m > sig0)
  {
    Rounded64(dir, sig0, sig1);
    hide IntRounding;
  }

  /** The increment, from the low word. */
  predicate Increments(dir: Direction, sig1: nat) {
    match dir case Truncate => false case Enlarge => sig1 != 0 case Nearest => sig1 >= TOP
  }

  /** Beyond the range: infinity, or the largest finite number. */
  method PackOverflow(negative: bool, status: Status) returns (z: Floatx80)
    modifies status`flags
    ensures var p := PackOutOfRange(DirectionOf(status.mode, negative), negative);
            z == p.z && status.flags == old(status.flags) + p.raised
  {
    status.Raise({Overflow, Inexact});
    if status.mode == ToZero || (negative && status.mode == Up) || (!negative && status.mode == Down) {
      return Floatx80(negative, SPECIAL - 1, W64 - 1);
    }
    status.Raise({RoundedUp});
    z := Floatx80(negative, SPECIAL, TOP);
  }

  /** The exceptions of a result below the normal range, from the shifted pair and its rounding. */
  function SmallFlags(tiny: bool, masks: set<Flag>, z0: nat, z1: nat, rounded: nat): set<Flag> {
    (if z1 != 0 then {Inexact} else {}) + (if rounded > z0 then {RoundedUp} else {})
    + if tiny && (z1 != 0 || (z0 != 0 && Underflow !in masks)) then {Underflow} else {}
  }

  method RoundSmall(negative: bool, tiny: bool, z0: nat, z1: nat, status: Status) returns (rounded: nat)
    requires IsWord(z0) && IsWord(z1)
    modifies status`flags
    ensures rounded == IntRounding(DirectionOf(status.mode, negative), Join(z0, z1), W64)
    ensures status.flags == old(status.flags) + SmallFlags(tiny, status.masks, z0, z1, rounded)
  {
    hide IntRounding;
    if tiny {
      if z1 != 0 || (z0 != 0 && Underflow !in status.masks) {
        status.Raise({Underflow});
      }
    }
    if z1 != 0 {
      status.Raise({Inexact});
    }
    rounded := Round64(negative, z0, z1, status);
    if rounded > z0 {
      status.Raise({RoundedUp});
    }
  }

  /** At an exponent below the normal range. */
  method PackSubnormal(negative: bool, exp: int, sig0: nat, sig1: nat, increment: bool, status: Status)
    returns (z: Floatx80)
    requires IsWord(sig0) && IsWord(sig1) && NormalPair(Join(sig0, sig1)) && exp < 1
    requires increment == Increments(DirectionOf(status.mode, negative), sig1)
    modifies status`flags
    ensures var dir, sig := DirectionOf(status.mode, negative), Join(sig0, sig1);
            && z == Encoded(negative, exp, RoundedSig(dir, exp, sig))
            && status.flags == old(status.flags) + RaisedIn(dir, status.masks, exp, sig)
  {
    ghost var dir := DirectionOf(status.mode, negative);
    hide IntRounding, Pow2, Quotient, DirectionOf, SmallFlags, RaisedIn, RoundedSig, Increments;
    var tiny := exp < 0 || !increment || sig0 < W64 - 1;
    var z0, z1 := ShiftExtraRightJamming(sig0, sig1, 1 - exp);
    SmallOutcome(dir, status.masks, exp, sig0, sig1, z0, z1);
    var rounded := RoundSmall(negative, tiny, z0, z1, status);
    z := Floatx80(negative, if rounded >= TOP then 1 else 0, rounded);
  }

  lemma SmallOutcome(dir: Direction, masks: set<Flag>, exp: int, sig0: nat, sig1: nat, z0: nat, z1: nat)
    requires IsWord(sig0) && IsWord(sig1) && exp < 1 && IsWord(z0) && IsWord(z1)
    requires z0 == Quotient(sig0, Pow2(1 - exp))
    requires RoundAlike(z0 * W64 + z1, W64, sig0 * W64 + sig1, W64 * Pow2(1 - exp))
    requires z1 == 0 <==> z0 * (W64 * Pow2(1 - exp)) == sig0 * W64 + sig1
    ensures var sig, m := Join(sig0, sig1), IntRounding(dir, Join(z0, z1), W64);
            && m == RoundedSig(dir, exp, sig)
            && SmallFlags(exp < 0 || !Increments(dir, sig1) || sig0 < W64 - 1, masks, z0, z1, m)
               == RaisedIn(dir, masks, exp, sig)
  {
    var p := Pow2(1 - exp);
    CarriesOut(dir, sig0, sig1);
    IntRoundingBelow(dir, sig0, sig1);
    PairRest(z0, p, sig0 - z0 * p, sig0, sig1);
    ShiftedOutcome(dir, exp, Join(sig0, sig1), z0, z1);
    hide IntRounding, Pow2, Quotient, Increments, RoundedSig, Divisor, RoundAlike;
  }

  lemma IntRoundingBelow(dir: Direction, sig0: nat, sig1: nat)
    requires IsWord(sig0) && IsWord(sig1)
    ensures IntRounding(dir, Join(sig0, sig1), W64) <= W64
  {
    Rounded64(dir, sig0, sig1);
    hide IntRounding;
  }

  /** Rounding the shifted pair is rounding the pair. */
  lemma ShiftedOutcome(dir: Direction, exp: int, sig: nat, z0: nat, z1: nat)
    requires exp < 1 && IsWord(z0) && IsWord(z1) && RoundAlike(z0 * W64 + z1, W64, sig, W64 * Pow2(1 - exp))
    requires z1 == 0 <==> z0 * (W64 * Pow2(1 - exp)) == sig
    requires z0 * (W64 * Pow2(1 - exp)) <= sig < z0 * (W64 * Pow2(1 - exp)) + W64 * Pow2(1 - exp)
    ensures var m, d := RoundedSig(dir, exp, sig), Divisor(exp);
            && m == IntRounding(dir, Join(z0, z1), W64)
            && (m * d != sig <==> z1 != 0) && (m * d > sig <==> m > z0) && (z0 == 0 && z1 == 0 <==> sig == 0)
  {
    var d := Divisor(exp);
    QuotientIs(sig, d, z0);
    RoundsNear(dir, sig, d);
    hide Quotient, Pow2;
    MulMono(1, z0, d);
    var m := RoundedSig(dir, exp, sig);
    assert m == IntRounding(dir, z0 * W64 + z1, W64);
    if z1 == 0 {
      ExactRounding(dir, sig, d, z0);
    }
    hide IntRounding;
  }

  /** At a normal exponent, without overflow. */
  method PackInRange(negative: bool, exp: int, sig0: nat, sig1: nat, status: Status) returns (z: Floatx80)
    requires IsWord(sig0) && IsWord(sig1) && exp >= 1
    modifies status`flags
    ensures var dir, sig := DirectionOf(status.mode, negative), Join(sig0, sig1);
            && z == Encoded(negative, exp, RoundedSig(dir, exp, sig))
            && status.flags == old(status.flags) + RaisedIn(dir, status.masks, exp, sig)
  {
    CarriesOut(DirectionOf(status.mode, negative), sig0, sig1);
    hide IntRounding, Pow2, DirectionOf, Increments;
    if sig1 != 0 {
      status.Raise({Inexact});
    }
    var rounded := Round64(negative, sig0, sig1, status);
    if rounded > sig0 {
      status.Raise({RoundedUp});
    }
    z := if rounded == W64 then Floatx80(negative, exp + 1, TOP)
         else Floatx80(negative, if rounded == 0 then 0 else exp, rounded);
  }

  /** Rounding and packing once, as SoftFloatRoundAndPackFloatx80 does at precision 80. */
  method PackOnce(negative: bool, exp: int, sig0: nat, sig1: nat, status: Status) returns (z: Floatx80)
    requires IsWord(sig0) && IsWord(sig1) && NormalPair(Join(sig0, sig1))
    modifies status`flags
    ensures var p := PackedOnce(DirectionOf(status.mode, negative), status.masks, negative, exp, Join(sig0, sig1));
            z == p.z && status.flags == old(status.flags) + p.raised
  {
    CarriesOut(DirectionOf(status.mode, negative), sig0, sig1);
    hide IntRounding, Pow2, DirectionOf, RaisedIn, Encoded, PackOutOfRange, NormalPair;
    var increment := IncrementInt64(negative, sig1, status);
    if exp < 1 || exp >= SPECIAL - 1 {
      if exp > SPECIAL - 1 || (exp == SPECIAL - 1 && sig0 == W64 - 1 && increment) {
        z := PackOverflow(negative, status);
        return;
      }
      if exp < 1 {
        z := PackSubnormal(negative, exp, sig0, sig1, increment, status);
        return;
      }
    }
    z := PackInRange(negative, exp, sig0, sig1, status);
  }

  /** roundAndPackFloatx80 at precision 80. */
  method RoundAndPackFloatx80(negative: bool, exp: int, sig0: nat, sig1: nat, status: Status) returns (z: Floatx80)
    requires IsWord(sig0) && IsWord(sig1) && NormalPair(Join(sig0, sig1))
    modifies status`flags
    ensures var p := Packed80(DirectionOf(status.mode, negative), old(status.flags), status.masks, negative, exp,
                              Join(sig0, sig1));
            z == p.z && status.flags == p.raised
  {
    hide PackedOnce, NormalPair, Join;
    var before := status.flags;
    z := PackOnce(negative, exp, sig0, sig1, status);
    if Underflow in status.flags && Underflow !in status.masks {
      status.flags := before;
      status.Raise({Underflow});
      z := PackOnce(negative, exp + WRAP, sig0, sig1, status);
      return;
    }
    if Overflow in status.flags && Overflow !in status.masks {
      status.flags := before;
      status.Raise({Overflow});
      z := PackOnce(negative, exp - WRAP, sig0, sig1, status);
    }
  }

  // --- Normalizing ---

  /** How often a number below 2 * top is doubled until it reaches top. */
  function Shift(sig: nat, top: nat): (n: nat)
    requires 0 < sig < 2 * top
    ensures top <= sig * Pow2(n) < 2 * top
    decreases 2 * top - sig
  {
    if sig >= top then
      Pow2Small();
      0
    else
      var n := Shift(2 * sig, top);
      assert sig * Pow2(n + 1) == 2 * sig * Pow2(n);
      n + 1
  }

  lemma ShiftIs(sig: nat, top: nat, n: nat)
    requires 0 < sig < 2 * top && top <= sig * Pow2(n) < 2 * top
    ensures n == Shift(sig, top)
  {
    hide Pow2;
    var k := Shift(sig, top);
    if n < k {
      Doubled(sig, n, k);
    } else if k < n {
      Doubled(sig, k, n);
    }
  }

  lemma Doubled(sig: nat, n: nat, k: nat)
    requires n < k
    ensures 2 * (sig * Pow2(n)) <= sig * Pow2(k)
  {
    Pow2Mono(n + 1, k);
    assert Pow2(n + 1) == 2 * Pow2(n);
    hide Pow2;
    MulMono(2 * Pow2(n), Pow2(k), sig);
    Exchange(sig, 2, Pow2(n));
    Exchange(sig, 1, Pow2(k));
  }

  /** How far normalizing shifts a pair. */
  function Zeros(sig: nat): nat
    requires sig < W128
  {
    if sig == 0 then 128 else Shift(sig, TOP * W64)
  }

  /** normalizeRoundAndPackFloatx80: any pair, shifted left until it is normalized. */
  method NormalizeRoundAndPackFloatx80(negative: bool, exp: int, sig0: nat, sig1: nat, status: Status)
    returns (z: Floatx80)
    requires IsWord(sig0) && IsWord(sig1)
    modifies status`flags
    ensures Join(sig0, sig1) < W128
    ensures var sig, n := Join(sig0, sig1), Zeros(Join(sig0, sig1));
            var p := Packed80(DirectionOf(status.mode, negative), old(status.flags), status.masks, negative, exp - n,
                              sig * Pow2(n));
            z == p.z && status.flags == p.raised
  {
    hide Packed80, DirectionOf, Pow2, Shift;
    var z0, z1, e := sig0, sig1, exp;
    if z0 == 0 {
      z0, z1, e := z1, 0, e - 64;
    }
    var count := CountLeadingZeros64(z0);
    if z0 != 0 {
      ghost var a0, a1 := z0, z1;
      z0, z1 := ShortShift128Left(z0, z1, count);
      NormalizedPair(sig0, sig1, a0, a1, count, z0, z1);
    }
    z := RoundAndPackFloatx80(negative, e - count, z0, z1, status);
  }

  lemma NormalizedPair(sig0: nat, sig1: nat, a0: nat, a1: nat, count: nat, z0: nat, z1: nat)
    requires IsWord(sig0) && IsWord(sig1) && IsWord(a1) && IsWord(z1) && count < 64
    requires if sig0 == 0 then a0 == sig1 && a1 == 0 else a0 == sig0 && a1 == sig1
    requires a0 > 0 && TOP <= a0 * Pow2(count) < W64 && IsWord(z0) && Join(z0, z1) == Join(a0, a1) * Pow2(count)
    ensures var sig, n := Join(sig0, sig1), if sig0 == 0 then count + 64 else count;
            0 < sig < W128 && NormalPair(Join(z0, z1)) && Join(z0, z1) == sig * Pow2(n) && n == Zeros(sig)
  {
    hide Pow2, Shift;
    var sig, n := Join(sig0, sig1), if sig0 == 0 then count + 64 else count;
    TopSet(a0, a1, Pow2(count), z0, z1, a0 * Pow2(count));
    if sig0 == 0 {
      Pow2Values();
      Pow2Add(count, 64);
      ByWord(sig1, Pow2(count));
    }
    ShiftIs(sig, TOP * W64, n);
  }

  lemma TopSet(a0: nat, a1: nat, p: nat, z0: nat, z1: nat, x: nat)
    requires x == a0 * p && x >= TOP && IsWord(z0) && IsWord(z1) && Join(z0, z1) == Join(a0, a1) * p
    ensures TOP * W64 <= Join(z0, z1) < W128
  {
    PairTimes(a0, a1, p, x);
    MulMono(0, a1, p);
    MulMono(TOP, x, W64);
  }

  lemma ByWord(a: nat, p: nat)
    ensures Join(a, 0) * p == a * (p * W64)
  {
    assert (a * W64) * p == a * (p * W64);
  }

  // --- Values that fit, before they are normalized ---

  /** No exponent here is lower. */
  const LOW: int := -256

  /** A pair at exponent `exp` is worth `v` units, measured in a unit below every pair here. */
  ghost predicate IsWorth(exp: int, sig: nat, v: nat)
    requires exp >= LOW
  {
    sig * Pow2(exp - LOW) == v * (W64 * Pow2(1 - LOW))
  }

  lemma WorthShifts(exp: int, sig: nat, v: nat, n: nat)
    requires exp - n >= LOW && IsWorth(exp, sig, v)
    ensures IsWorth(exp - n, sig * Pow2(n), v)
  {
    Pow2Add(n, exp - n - LOW);
    hide Pow2;
    Assoc(sig, Pow2(n), Pow2(exp - n - LOW));
  }

  lemma WorthIsExact(exp: int, sig: nat, v: nat)
    requires exp >= LOW && IsWorth(exp, sig, v)
    ensures IsExactly(exp, sig, v)
  {
    hide Pow2;
    Pow2Small();
    if exp >= 1 {
      Pow2Add(exp - 1, 1 - LOW);
      Assoc(sig, Pow2(exp - 1), Pow2(1 - LOW));
      Assoc(v, W64, Pow2(1 - LOW));
      CancelFactor(sig * Pow2(exp - 1), v * W64, Pow2(1 - LOW));
    } else {
      Pow2Add(1 - exp, exp - LOW);
      Assoc(W64, Pow2(1 - exp), Pow2(exp - LOW));
      Assoc(v, W64 * Pow2(1 - exp), Pow2(exp - LOW));
      CancelFactor(sig, v * (W64 * Pow2(1 - exp)), Pow2(exp - LOW));
    }
  }

  /** A pair of at most 64 significant bits. */
  predicate ShortPair(sig: nat) {
    sig % W64 == 0 || (sig % TOP == 0 && sig < TOP * W64)
  }

  lemma ShortNormalizes(sig: nat)
    requires 0 < sig < W128 && ShortPair(sig)
    ensures sig * Pow2(Zeros(sig)) % W64 == 0 && NormalPair(sig * Pow2(Zeros(sig)))
  {
    hide Pow2, Shift;
    var n := Zeros(sig);
    var p := Pow2(n);
    if sig % W64 == 0 {
      WholeWords(sig / W64, p);
    } else {
      if n == 0 {
        Pow2Small();
      }
      HalfPower(n);
      WholeWords(sig / TOP, Pow2(n - 1));
      assert sig == sig / TOP * TOP;
      Halfway(sig / TOP, Pow2(n - 1));
    }
  }

  lemma HalfPower(n: nat)
    requires n > 0
    ensures Pow2(n) == 2 * Pow2(n - 1)
  {
  }

  lemma WholeWords(j: nat, p: nat)
    ensures (j * W64) * p % W64 == 0
  {
    assert (j * W64) * p == (j * p) * W64;
  }

  lemma Halfway(j: nat, p: nat)
    ensures (j * TOP) * (2 * p) == (j * W64) * p
  {
  }

  /** Normalizing and packing a pair that is worth `v` and has at most 64 significant bits delivers `v` exactly,
      subnormal results included. */
  lemma NormalizedExactly(dir: Direction, flags: set<Flag>, masks: set<Flag>, negative: bool, exp: int, sig: nat,
                          v: nat)
    requires sig < W128 && ShortPair(sig) && LOW + 128 <= exp < SPECIAL && IsWorth(exp, sig, v)
    requires NothingPending(flags, masks)
    ensures Delivers(Packed80(dir, flags, masks, negative, exp - Zeros(sig), sig * Pow2(Zeros(sig))), flags, masks,
                     negative, v)
  {
    hide Delivers, Packed80, IsWorth, IsExactly, Pow2, Shift, NothingPending;
    var n := Zeros(sig);
    if sig == 0 {
      assert 0 * Pow2(n) == 0;
    } else {
      ShortNormalizes(sig);
      ZerosBelow(sig);
    }
    WorthShifts(exp, sig, v, n);
    WorthIsExact(exp - n, sig * Pow2(n), v);
    PackedExactly(dir, flags, masks, negative, exp - n, sig * Pow2(n), v);
  }

  lemma ZerosBelow(sig: nat)
    requires 0 < sig < W128
    ensures Zeros(sig) < 128
  {
    hide Pow2, Shift;
    var n := Zeros(sig);
    if n >= 128 {
      Pow2Mono(128, n);
      Pow2Values();
      Pow2Add(64, 64);
      MulMono(1, sig, Pow2(n));
    }
  }
}
