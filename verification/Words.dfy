/** Machine words as natural numbers, with the truncations written out: the helpers of
    include/halfix/softfloat/softfloat-macros.h, and the powers of two they shift by. */
module Words {
  const W32 := 0x1_0000_0000
  const W64 := 0x1_0000_0000_0000_0000

  function Pow2(n: nat): (p: nat)
    ensures p > 0
  {
    if n == 0 then 1 else 2 * Pow2(n - 1)
  }

  lemma {:induction false} Pow2Add(m: nat, n: nat)
    ensures Pow2(m + n) == Pow2(m) * Pow2(n)
  {
    if m > 0 {
      Pow2Add(m - 1, n);
      Twice(Pow2(m - 1), Pow2(n));
    }
  }

  lemma Twice(p: nat, q: nat)
    ensures 2 * (p * q) == (2 * p) * q
  {
  }

  lemma {:induction false} Pow2Mono(m: nat, n: nat)
    requires m <= n
    ensures Pow2(m) <= Pow2(n)
  {
    if m < n {
      Pow2Mono(m, n - 1);
    }
  }

  lemma Pow2Values()
    ensures Pow2(7) == 128 && Pow2(8) == 256 && Pow2(16) == 0x1_0000 && Pow2(32) == W32 && Pow2(64) == W64
  {
    assert Pow2(4) == 16 && Pow2(8) == 256;
    Pow2Add(8, 8);
    Pow2Add(16, 16);
    Pow2Add(32, 32);
    hide Pow2;
  }

  // --- Shifting right with the lost bits jammed into bit 0 ---

  /** `z | 1` when `lost`, else `z`. */
  function Jam(z: nat, lost: bool): nat {
    if lost && z % 2 == 0 then z + 1 else z
  }

  /** Division rounding down. */
  function {:induction false} Quotient(a: nat, d: nat): (q: nat)
    requires d > 0
    ensures q * d <= a < q * d + d
    decreases a
  {
    if a < d then 0
    else
      var q := Quotient(a - d, d);
      assert (q + 1) * d == q * d + d;
      q + 1
  }

  /** Only one number is the quotient. */
  lemma QuotientIs(a: nat, d: nat, q: nat)
    requires d > 0 && q * d <= a < q * d + d
    ensures Quotient(a, d) == q
  {
    var r := Quotient(a, d);
    if r < q {
      MulMono(r + 1, q, d);
    } else if q < r {
      MulMono(q + 1, r, d);
    }
  }

  lemma MulMono(a: int, b: int, d: nat)
    ensures a <= b ==> a * d <= b * d
    ensures a < b && d > 0 ==> a * d < b * d
    ensures (a + 1) * d == a * d + d
  {
  }

  /** shift32RightJamming and shift64RightJamming: `width` is 32 or 64, and the shift left drops the
      bits that do not fit. */
  function ShiftRightJamming(a: nat, count: nat, width: nat): nat {
    if count == 0 then a
    else if count < width then Jam(Quotient(a, Pow2(count)), Low(a * Pow2(width - count), width) != 0)
    else if a != 0 then 1 else 0
  }

  /** The low `width` bits. */
  function Low(a: nat, width: nat): nat {
    a - Quotient(a, Pow2(width)) * Pow2(width)
  }

  /** The shift left keeps exactly the bits that the shift right loses. */
  lemma LostBits(a: nat, count: nat, width: nat)
    requires count <= width
    ensures Low(a * Pow2(width - count), width) != 0 <==> Quotient(a, Pow2(count)) * Pow2(count) != a
  {
    hide Quotient, Pow2;
    Pow2Add(count, width - count);
    LostParts(a, Quotient(a, Pow2(count)), Pow2(count), Pow2(width - count), Pow2(width));
  }

  lemma LostParts(a: nat, q: nat, p: nat, s: nat, w: nat)
    requires q * p <= a < q * p + p && s > 0 && w > 0 && w == p * s
    ensures Quotient(a * s, w) == q && (a * s - q * w != 0 <==> q * p != a)
  {
    hide Quotient;
    ShiftedParts(q, p, s, a - q * p, a);
    QuotientIs(a * s, w, q);
  }

  lemma ShiftedParts(q: nat, p: nat, s: nat, r: nat, a: nat)
    requires a == q * p + r && r < p && s > 0
    ensures a * s == q * (p * s) + r * s && 0 <= r * s < p * s && (r * s == 0 <==> r == 0)
  {
    assert a * s == (q * p) * s + r * s;
    assert (q * p) * s == q * (p * s);
    MulMono(r, p, s);
    MulMono(0, r, s);
  }

  /** Shifting right with jamming: the quotient, made odd if it is not exact. */
  lemma JammingIs(a: nat, count: nat, width: nat)
    requires a < Pow2(width)
    ensures ShiftRightJamming(a, count, width)
            == Jam(Quotient(a, Pow2(count)), Quotient(a, Pow2(count)) * Pow2(count) != a)
  {
    if count == 0 {
      QuotientIs(a, 1, a);
    } else if count < width {
      LostBits(a, count, width);
    } else {
      Pow2Mono(width, count);
      QuotientIs(a, Pow2(count), 0);
    }
  }

  // --- A word that stands for an exact value ---

  /** The integer `z` is the value num / den, or both lie strictly between the same two multiples of
      `w`: then z compares with every multiple of w as the exact value does. */
  ghost predicate Stands(z: nat, num: nat, den: nat, w: nat)
    requires w > 0
  {
    num == z * den || (z % w != 0 && (z - z % w) * den < num < (z - z % w + w) * den)
  }

  lemma StandsCompares(z: nat, num: nat, den: nat, t: nat)
    requires den > 0 && Stands(z, num, den, 64) && t % 64 == 0
    ensures z < t <==> num < t * den
    ensures z == t <==> num == t * den
  {
    var low := z - z % 64;
    MulMono(z, t, den);
    MulMono(t, z, den);
    MulMono(t, low, den);
    MulMono(low + 64, t, den);
  }

  /** Jamming a word that stands for a value gives one that stands for the value shifted. */
  lemma JamStands(z: nat, num: nat, den: nat, p: nat, q: nat)
    requires den > 0 && p > 0 && Stands(z, num, den, 64) && q * p <= z < q * p + p
    ensures Stands(Jam(q, q * p != z), num, den * p, 64)
  {
    hide Stands;
    if q * p == z && num == z * den {
      Regroup(q, den, p);
      ExactStands(q, num, den * p);
    } else {
      if q * p == z {
        OddPart(z, p, q);
        InexactIsOdd(z, num, den);
      }
      JamBounds(z, num, den, p, q, q - q % 64);
      JamBetween(q, q * p != z, num, den * p);
    }
  }

  lemma ExactStands(q: nat, num: nat, d: nat)
    requires num == q * d
    ensures Stands(Jam(q, false), num, d, 64)
  {
  }

  lemma InexactIsOdd(z: nat, num: nat, den: nat)
    requires Stands(z, num, den, 64) && num != z * den
    ensures z % 64 != 0
  {
  }

  lemma JamBetween(q: nat, lost: bool, num: nat, d: nat)
    requires lost || q % 64 != 0
    requires (q - q % 64) * d < num < (q - q % 64 + 64) * d
    ensures Stands(Jam(q, lost), num, d, 64)
  {
    var j, low := Jam(q, lost), q - q % 64;
    JamKeepsLow(q, lost);
    assert j - j % 64 == low;
  }

  lemma JamKeepsLow(q: nat, lost: bool)
    requires lost || q % 64 != 0
    ensures var j := Jam(q, lost); j % 64 != 0 && j - j % 64 == q - q % 64
  {
    var a, b := q / 64, q % 64;
    Parity64(q, a, b);
    if b % 2 == 0 {
      Mod64(q + 1, a, b + 1);
    }
  }

  lemma Mod64(x: nat, a: nat, b: nat)
    requires x == 64 * a + b && b < 64
    ensures x % 64 == b
  {
  }

  lemma Parity64(q: nat, a: nat, b: nat)
    requires q == 64 * a + b
    ensures q % 2 == b % 2
  {
    assert q == 2 * (32 * a) + b;
  }

  lemma OddPart(z: nat, p: nat, q: nat)
    requires z == q * p
    ensures z % 64 != 0 ==> q % 64 != 0
  {
    Multiple64(q, p);
  }

  lemma JamBounds(z: nat, num: nat, den: nat, p: nat, q: nat, low: nat)
    requires den > 0 && p > 0 && Stands(z, num, den, 64) && q * p <= z < q * p + p && low == q - q % 64
    requires q * p != z || num != z * den
    ensures low * (den * p) < num < (low + 64) * (den * p)
  {
    MulMono(low, q, p);
    MulMono(q + 1, low + 64, p);
    MulMono(q, q, p);
    JamSide(z, num, den, p, low);
    JamSide(z, num, den, p, low + 64);
    hide Stands;
  }

  lemma JamSide(z: nat, num: nat, den: nat, p: nat, t: nat)
    requires den > 0 && t % 64 == 0 && Stands(z, num, den, 64)
    ensures z < t * p ==> num < t * (den * p)
    ensures t * p < z ==> t * (den * p) < num
    ensures t * p == z ==> num == z * den
  {
    hide Stands;
    Multiple64(t, p);
    StandsCompares(z, num, den, t * p);
    Regroup(t, den, p);
  }

  lemma Regroup(a: nat, den: nat, p: nat)
    ensures a * (den * p) == (a * p) * den
  {
  }

  lemma Multiple64(low: nat, p: nat)
    ensures low % 64 == 0 ==> low * p % 64 == 0
  {
    if low % 64 == 0 {
      var t := low / 64;
      assert low * p == 64 * (t * p);
    }
  }

  // --- Leading zeros ---

  /** The table countLeadingZeros8. */
  function LeadingZeros8(a: nat): nat
    requires a < 0x100
  {
    if a < 1 then 8 else if a < 2 then 7 else if a < 4 then 6 else if a < 8 then 5
    else if a < 0x10 then 4 else if a < 0x20 then 3 else if a < 0x40 then 2 else if a < 0x80 then 1 else 0
  }

  lemma Pow2Small()
    ensures Pow2(0) == 1 && Pow2(1) == 2 && Pow2(2) == 4 && Pow2(3) == 8 && Pow2(4) == 16
    ensures Pow2(5) == 32 && Pow2(6) == 64 && Pow2(7) == 128 && Pow2(8) == 256 && Pow2(16) == 0x1_0000
  {
    Pow2Values();
  }

  method CountLeadingZeros32(word: nat) returns (shiftCount: nat)
    requires word < W32
    ensures word == 0 ==> shiftCount == 32
    ensures word > 0 ==> shiftCount < 32 && 0x8000_0000 <= word * Pow2(shiftCount) < W32
  {
    shiftCount := 0;
    var a := word;
    Pow2Small();
    hide Pow2;
    if a < 0x1_0000 {
      shiftCount := shiftCount + 16;
      a := a * 0x1_0000;
    }
    assert a == word * Pow2(shiftCount);
    if a < 0x100_0000 {
      Pow2Add(shiftCount, 8);
      Regroup(word, 0x100, Pow2(shiftCount));
      shiftCount := shiftCount + 8;
      a := a * 0x100;
    }
    assert a == word * Pow2(shiftCount);
    var n := LeadingZeros8(a / 0x100_0000);
    if word > 0 {
      LastShift(word, a, shiftCount, n);
    }
    shiftCount := shiftCount + n;
  }

  lemma LastShift(word: nat, a: nat, shiftCount: nat, n: nat)
    requires a == word * Pow2(shiftCount) && 0x100_0000 <= a < W32 && n == LeadingZeros8(a / 0x100_0000)
    ensures 0x8000_0000 <= word * Pow2(shiftCount + n) < W32 && n < 8
  {
    hide Pow2, LeadingZeros8;
    TopByte(a, n);
    Pow2Add(shiftCount, n);
    Regroup(word, Pow2(n), Pow2(shiftCount));
    assert Pow2(n) * Pow2(shiftCount) == Pow2(shiftCount) * Pow2(n);
  }

  lemma TopByte(a: nat, n: nat)
    requires 0x100_0000 <= a < W32 && n == LeadingZeros8(a / 0x100_0000)
    ensures 0x8000_0000 <= a * Pow2(n) < W32 && n < 8
  {
    Pow2Small();
    hide Pow2;
  }

  method CountLeadingZeros64(word: nat) returns (shiftCount: nat)
    requires word < W64
    ensures word == 0 ==> shiftCount == 64
    ensures word > 0 ==> shiftCount < 64 && 0x8000_0000_0000_0000 <= word * Pow2(shiftCount) < W64
  {
    shiftCount := 0;
    var a := word;
    if a < W32 {
      shiftCount := shiftCount + 32;
    } else {
      a := a / W32;
    }
    var n := CountLeadingZeros32(a);
    if word > 0 {
      hide Pow2;
      Pow2Values();
      Pow2Add(32, n);
      Regroup(word, W32, Pow2(n));
      if word >= W32 {
        TopHalf(word, a, n);
      }
    }
    shiftCount := shiftCount + n;
  }

  /** The leading zeros of a word are those of its high half. */
  lemma TopHalf(word: nat, a: nat, n: nat)
    requires W32 <= word < W64 && a == word / W32 && n < 32 && 0x8000_0000 <= a * Pow2(n) < W32
    ensures 0x8000_0000_0000_0000 <= word * Pow2(n) < W64
  {
    hide Pow2;
    Pow2Values();
    Pow2Add(n, 32 - n);
    TopHalfAt(word, a, Pow2(n), Pow2(32 - n));
  }

  lemma TopHalfAt(word: nat, a: nat, p: nat, r: nat)
    requires a == word / W32 && 0x8000_0000 <= a * p < W32 && p > 0 && p * r == W32
    ensures 0x8000_0000_0000_0000 <= word * p < W64
  {
    if a >= r {
      MulMono(r, a, p);
    }
    assert a * W32 <= word <= r * W32 - 1;
    MulMono(word, r * W32 - 1, p);
    MulMono(a * W32, word, p);
    SwapW32(a, p);
    SwapW32(r, p);
  }

  lemma SwapW32(a: nat, p: nat)
    ensures a * W32 * p == a * p * W32
    ensures (a * W32 - 1) * p == a * p * W32 - p
  {
  }
}
