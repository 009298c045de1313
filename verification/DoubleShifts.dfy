/** SHLD and SHRD (src/halfix/ops/arith.c): the double shifts, against the word that repeats the destination on both
    sides of the source. */
module DoubleShifts {
  import opened Words
  import opened Eflags
  import opened ArithFlags

  /** Destination, source, destination, from the top. */
  function Around(dest: nat, src: nat, k: nat): nat { (dest * k + src) * k + dest }

  /** The word above the lowest one. */
  function Above(x: nat, w: Width): nat {
    EvenRange(w);
    Quotient(x, Range(w))
  }

  /** That word moved left by `n`: what then stands in the place of the first destination, above two others, and the
      last bit that left it. */
  function MovedLeft(dest: nat, src: nat, n: nat, w: Width): Stepped {
    var x := Above(Above(Around(dest, src, Range(w)) * Pow2(n), w), w);
    Stepped(x % Range(w), Odd(Above(x, w)))
  }

  /** Moved right: what then stands in the place of the second one. */
  function MovedRight(dest: nat, src: nat, n: nat, w: Width): Stepped
    requires n > 0
  {
    EvenRange(w);
    Stepped(Quotient(Around(dest, src, Range(w)), Pow2(n)) % Range(w),
            Odd(Quotient(Around(dest, src, Range(w)), Pow2(n - 1))))
  }

  // --- Digits ---

  lemma DropDigit(y: nat, b: nat, w: Width)
    requires b < Range(w)
    ensures Above(y * Range(w) + b, w) == y && (y * Range(w) + b) % Range(w) == b
  {
    EvenRange(w);
    QuotientIs(y * Range(w) + b, Range(w), y);
    UniqueRemainder(y * Range(w) + b, Range(w), y, b);
  }

  /** A word cut at a place: the quotient and the rest, both moved up by `p` places where `p * r` is the width. */
  lemma Cut(a: nat, p: nat, r: nat, k: nat)
    requires p > 0 && r > 0 && p * r == k && a < k
    ensures var q := Quotient(a, r); var m := a - q * r;
            && 0 <= m < r && q < p && a * p == q * k + m * p && m * p + p <= k && a * p % k == m * p
  {
    hide Quotient;
    var q := Quotient(a, r);
    var m := a - q * r;
    CutParts(a, q, m, p, r, k);
    UniqueRemainder(a * p, k, q, m * p);
  }

  lemma CutParts(a: nat, q: nat, m: nat, p: nat, r: nat, k: nat)
    requires p > 0 && p * r == k && a < k && a == q * r + m && m < r
    ensures q < p && a * p == q * k + m * p && m * p + p <= k && m * p >= 0
  {
    if q >= p {
      MulMono(p, q, r);
    }
    Moved(q, m, p, r, k);
    MulMono(m + 1, r, p);
    MulMono(m, m, p);
    Swap(p, r);
  }

  lemma Moved(q: nat, m: nat, p: nat, r: nat, k: nat)
    requires p * r == k
    ensures (q * r + m) * p == q * k + m * p
  {
    assert (q * r + m) * p == q * r * p + m * p;
    Regroup(q, p, r);
  }

  lemma Swap(p: int, r: int)
    ensures p * r == r * p
  {
  }

  /** The digits of the word moved left by `p`. */
  lemma LeftDigits(dest: nat, src: nat, p: nat, r: nat, k: nat)
    requires p > 0 && r > 0 && p * r == k && dest < k && src < k
    ensures var q, t := Quotient(dest, r), Quotient(src, r);
            var a, b, c := dest * p % k + t, src * p % k + q, dest * p % k;
            && a < k && b < k && c < k && Around(dest, src, k) * p == ((q * k + a) * k + b) * k + c
  {
    hide Quotient;
    Cut(dest, p, r, k);
    Cut(src, p, r, k);
    var q, t := Quotient(dest, r), Quotient(src, r);
    Spread(dest, src, p, k, q, dest * p % k, t, src * p % k);
  }

  lemma Spread(dest: nat, src: nat, p: nat, k: nat, q: nat, m: nat, t: nat, u: nat)
    requires dest * p == q * k + m && src * p == t * k + u
    ensures Around(dest, src, k) * p == ((q * k + (m + t)) * k + (u + q)) * k + m
  {
    SpreadOnce(dest, src, p, k);
    Distributed(dest * k, src, p);
    Exchanged(dest, k, p);
    Distributed(q * k, m, k);
    Distributed(q * k, m + t, k);
    Distributed(t * k, 0, k);
    var y := (dest * k + src) * p;
    assert y == (q * k + (m + t)) * k + u by {
      Distributed(q * k + m, t, k);
    }
    Distributed((q * k + (m + t)) * k, u, k);
    Distributed((q * k + (m + t)) * k + u, q, k);
  }

  lemma Exchanged(x: nat, k: nat, p: nat)
    ensures x * k * p == x * p * k
  {
  }

  lemma SpreadOnce(dest: nat, src: nat, p: nat, k: nat)
    ensures Around(dest, src, k) * p == (dest * k + src) * p * k + dest * p
  {
    Distributed((dest * k + src) * k, dest, p);
    Exchanged(dest * k + src, k, p);
  }

  /** The words above, of a word of four digits. */
  lemma FourDigits(x: nat, q: nat, a: nat, b: nat, c: nat, w: Width)
    requires a < Range(w) && b < Range(w) && c < Range(w)
    requires x == ((q * Range(w) + a) * Range(w) + b) * Range(w) + c
    ensures var y := Above(Above(x, w), w);
            y == q * Range(w) + a && y % Range(w) == a && Above(y, w) == q
  {
    hide Above;
    var z := q * Range(w) + a;
    DropDigit(z * Range(w) + b, c, w);
    DropDigit(z, b, w);
    DropDigit(q, a, w);
  }

  /** A word shifted left, and right. */
  function Up(a: nat, n: nat, w: Width): (r: nat)
    ensures r < Range(w)
  {
    EvenRange(w);
    a * Pow2(n) % Range(w)
  }

  function Down(a: nat, n: nat): nat { Quotient(a, Pow2(n)) }

  // --- SHLD ---

  /** Up to the width: the destination moved up, the top of the source below it. */
  lemma LeftWithin(dest: nat, src: nat, n: nat, w: Width)
    requires dest < Range(w) && src < Range(w) && n <= Bits(w)
    ensures var v := Up(dest, n, w) + Down(src, Bits(w) - n);
            v < Range(w) && MovedLeft(dest, src, n, w) == Stepped(v, Odd(Down(dest, Bits(w) - n)))
  {
    LeftWords(dest, src, n, w);
    hide Pow2, Quotient, Range, Around, Up, Down, Above, Odd;
    FourDigits(Around(dest, src, Range(w)) * Pow2(n), Down(dest, Bits(w) - n), Up(dest, n, w) + Down(src, Bits(w) - n),
               Up(src, n, w) + Down(dest, Bits(w) - n), Up(dest, n, w), w);
  }

  lemma LeftWords(dest: nat, src: nat, n: nat, w: Width)
    requires dest < Range(w) && src < Range(w) && n <= Bits(w)
    ensures var k, q := Range(w), Down(dest, Bits(w) - n);
            var a, b, c := Up(dest, n, w) + Down(src, Bits(w) - n), Up(src, n, w) + q, Up(dest, n, w);
            && a < k && b < k && c < k && Around(dest, src, k) * Pow2(n) == ((q * k + a) * k + b) * k + c
  {
    hide Pow2, Quotient, Range, Around;
    RangeIsPow2(w);
    Pow2Add(n, Bits(w) - n);
    LeftDigits(dest, src, Pow2(n), Pow2(Bits(w) - n), Range(w));
  }

  /** Beyond the width: the source moved up, the top of the destination below it. */
  lemma LeftBeyond(dest: nat, src: nat, j: nat, w: Width)
    requires dest < Range(w) && src < Range(w) && 1 <= j <= Bits(w)
    ensures var v := Up(src, j, w) + Down(dest, Bits(w) - j);
            v < Range(w) && MovedLeft(dest, src, Bits(w) + j, w) == Stepped(v, Odd(Down(src, Bits(w) - j)))
  {
    hide Pow2, Quotient, Range, Around, Up, Down, Above, Odd;
    LeftWords(dest, src, j, w);
    RangeIsPow2(w);
    Pow2Add(Bits(w), j);
    var q, t := Down(dest, Bits(w) - j), Down(src, Bits(w) - j);
    FiveDigits(Around(dest, src, Range(w)), Pow2(j), q, Up(dest, j, w) + t, Up(src, j, w) + q, Up(dest, j, w), w);
    OddSum(dest, j, w, q, t);
  }

  /** One more word up. */
  lemma FiveDigits(x: nat, p: nat, q: nat, a: nat, b: nat, c: nat, w: Width)
    requires a < Range(w) && b < Range(w) && c < Range(w)
    requires x * p == ((q * Range(w) + a) * Range(w) + b) * Range(w) + c
    ensures var y := Above(Above(x * (Range(w) * p), w), w);
            y % Range(w) == b && Above(y, w) == q * Range(w) + a
  {
    hide Above;
    EvenRange(w);
    Swap(Range(w), p);
    Regroup(x, p, Range(w));
    Swap(x * p, Range(w));
    FiveDigitsOf(x * p * Range(w), q, a, b, c, w);
  }

  lemma FiveDigitsOf(x: nat, q: nat, a: nat, b: nat, c: nat, w: Width)
    requires a < Range(w) && b < Range(w) && c < Range(w)
    requires x == (((q * Range(w) + a) * Range(w) + b) * Range(w) + c) * Range(w)
    ensures var y := Above(Above(x, w), w);
            y % Range(w) == b && Above(y, w) == q * Range(w) + a
  {
    hide Above;
    EvenRange(w);
    FourDigits(x, q * Range(w) + a, b, c, 0, w);
  }

  lemma OddSum(dest: nat, j: nat, w: Width, q: nat, t: nat)
    requires dest < Range(w) && 1 <= j <= Bits(w)
    ensures Odd(q * Range(w) + (Up(dest, j, w) + t)) == Odd(t)
  {
    hide Quotient, Range, Pow2, Odd;
    var m := RestMoved(dest, j, w);
    EvenRange(w);
    OneMorePower(j - 1);
    OddRest(q, m, Range(w), Range(w) / 2, Pow2(j), Pow2(j - 1), t);
  }

  lemma RestMoved(dest: nat, j: nat, w: Width) returns (m: nat)
    requires dest < Range(w) && j <= Bits(w)
    ensures Up(dest, j, w) == m * Pow2(j)
  {
    hide Quotient, Range, Pow2;
    RangeIsPow2(w);
    Pow2Add(j, Bits(w) - j);
    var r := Pow2(Bits(w) - j);
    Cut(dest, Pow2(j), r, Range(w));
    m := dest - Quotient(dest, r) * r;
  }

  lemma OddRest(q: nat, m: nat, k: nat, h: nat, p: nat, g: nat, t: nat)
    requires k == 2 * h && p == 2 * g
    ensures Odd(q * k + (m * p + t)) == Odd(t)
  {
    EvenProduct(q, k, h);
    EvenProduct(m, p, g);
    SameParity(t, q * h + m * g);
  }

  lemma EvenProduct(q: nat, k: nat, h: nat)
    requires k == 2 * h
    ensures q * k == 2 * (q * h)
  {
  }

  // --- SHRD ---

  /** The rest below a cut, moved up to the top of the word. */
  lemma RightCut(a: nat, p: nat, r: nat, k: nat)
    requires p > 0 && r > 0 && p * r == k && a < k
    ensures var q, t := Quotient(a, p), a * r / k;
            && q < r && a * r == t * k + a * r % k && a * r % k + r <= k && t >= 0 && t == q
  {
    hide Quotient;
    assert r * p == k by { assert p * r == r * p; }
    Cut(a, r, p, k);
    var q := Quotient(a, p);
    UniqueQuotient(a * r, k, q, a * r % k);
  }

  lemma RightQuotient(x: nat, dest: nat, p: nat, r: nat, k: nat)
    requires p > 0 && r > 0 && p * r == k
    ensures Quotient(x * k + dest, p) == x * r + Quotient(dest, p)
  {
    hide Quotient;
    var q := Quotient(dest, p);
    assert x * k == x * r * p by { assert x * (p * r) == x * r * p; }
    assert (x * r + q) * p == x * r * p + q * p;
    QuotientIs(x * k + dest, p, x * r + q);
  }

  /** Below the width: the bottom of the source above what is left of the destination. */
  lemma RightWithin(dest: nat, src: nat, n: nat, w: Width)
    requires dest < Range(w) && src < Range(w) && 1 <= n <= Bits(w)
    ensures var v := Down(dest, n) + Up(src, Bits(w) - n, w);
            v < Range(w) && MovedRight(dest, src, n, w) == Stepped(v, Odd(Down(dest, n - 1)))
  {
    hide Pow2, Quotient, Range, Odd, Around, Up, Down;
    RightValue(dest, src, n, w);
    RightLast(dest, src, n - 1, w);
  }

  lemma RightValue(dest: nat, src: nat, n: nat, w: Width)
    requires dest < Range(w) && src < Range(w) && n <= Bits(w)
    ensures var v := Down(dest, n) + Up(src, Bits(w) - n, w);
            0 < Range(w) && v < Range(w) && Quotient(Around(dest, src, Range(w)), Pow2(n)) % Range(w) == v
  {
    hide Pow2, Quotient, Range, Around;
    RangeIsPow2(w);
    Pow2Add(n, Bits(w) - n);
    RightWords(dest, src, Pow2(n), Pow2(Bits(w) - n), Range(w));
  }

  lemma RightLast(dest: nat, src: nat, i: nat, w: Width)
    requires i < Bits(w)
    ensures Odd(Quotient(Around(dest, src, Range(w)), Pow2(i))) == Odd(Down(dest, i))
  {
    hide Pow2, Quotient, Range, Odd;
    RightOdd(dest * Range(w) + src, dest, i, w);
  }

  lemma RightWords(dest: nat, src: nat, p: nat, r: nat, k: nat)
    requires p > 0 && r > 0 && k > 0 && p * r == k && dest < k && src < k
    ensures var v := Quotient(dest, p) + src * r % k;
            v < k && Quotient(Around(dest, src, k), p) % k == v
  {
    hide Quotient;
    var y, q := dest * k + src, Quotient(dest, p);
    RightQuotient(y, dest, p, r, k);
    RightCut(dest, p, r, k);
    RightCut(src, p, r, k);
    RightDigits(dest, src, r, k, q);
    UniqueRemainder(y * r + q, k, dest * r + src * r / k, q + src * r % k);
  }

  lemma RightOdd(y: nat, dest: nat, i: nat, w: Width)
    requires i < Bits(w)
    ensures Odd(Quotient(y * Range(w) + dest, Pow2(i))) == Odd(Quotient(dest, Pow2(i)))
  {
    hide Pow2, Quotient, Range, Odd;
    RangeIsPow2(w);
    Pow2Add(i, Bits(w) - i);
    RightQuotient(y, dest, Pow2(i), Pow2(Bits(w) - i), Range(w));
    OneMorePower(Bits(w) - i - 1);
    EvenTimes(y, Pow2(Bits(w) - i), Pow2(Bits(w) - i - 1), Quotient(dest, Pow2(i)));
  }

  lemma RightDigits(dest: nat, src: nat, r: nat, k: nat, q: nat)
    requires k > 0
    ensures (dest * k + src) * r + q == (dest * r + src * r / k) * k + (q + src * r % k)
  {
    DividedBy(src * r, k);
    assert (dest * k + src) * r == dest * k * r + src * r;
    assert dest * k * r == dest * r * k;
    assert (dest * r + src * r / k) * k == dest * r * k + src * r / k * k;
  }

  lemma EvenTimes(y: nat, r: nat, h: nat, q: nat)
    requires r == 2 * h
    ensures Odd(y * r + q) == Odd(q)
  {
    EvenProduct(y, r, h);
    SameParity(q, y * h);
  }

  /** Beyond the width: the source moved down, the bottom of the destination above it. */
  lemma RightBeyond(dest: nat, src: nat, j: nat, w: Width)
    requires dest < Range(w) && src < Range(w) && j <= Bits(w)
    ensures var v := Down(src, j) + Up(dest, Bits(w) - j, w);
            v < Range(w) && MovedRight(dest, src, Bits(w) + j, w)
                            == Stepped(v, if j == 0 then Top(dest, w) else Odd(Down(src, j - 1)))
  {
    hide Pow2, Quotient, Range, Odd, Top, Around;
    RangeIsPow2(w);
    Pow2Add(Bits(w), j);
    Pow2Add(j, Bits(w) - j);
    BeyondWords(dest, src, Pow2(j), Pow2(Bits(w) - j), Range(w));
    RightBeyondBit(dest, src, j, w);
  }

  lemma BeyondWords(dest: nat, src: nat, p: nat, r: nat, k: nat)
    requires p > 0 && r > 0 && k > 0 && p * r == k && dest < k && src < k
    ensures k * p > 0
    ensures var v := Quotient(src, p) + dest * r % k;
            v < k && Quotient(Around(dest, src, k), k * p) % k == v
  {
    hide Quotient, Around;
    DropThenCut(dest, src, p, r, k);
    RightCut(dest, p, r, k);
    RightCut(src, p, r, k);
    UniqueRemainder(dest * r + Quotient(src, p), k, dest * r / k, Quotient(src, p) + dest * r % k);
  }

  /** Dropping the low digit and then cutting the next. */
  lemma DropThenCut(dest: nat, src: nat, p: nat, r: nat, k: nat)
    requires p > 0 && r > 0 && k > 0 && p * r == k && dest < k
    ensures k * p > 0 && Quotient(Around(dest, src, k), k * p) == dest * r + Quotient(src, p)
  {
    hide Quotient;
    RightQuotient(dest, src, p, r, k);
    QuotientIs((dest * k + src) * k + dest, k, dest * k + src);
    QuotientTwice(Around(dest, src, k), k, p);
  }

  lemma QuotientTwice(x: nat, k: nat, p: nat)
    requires k > 0 && p > 0
    ensures k * p > 0 && Quotient(x, k * p) == Quotient(Quotient(x, k), p)
  {
    hide Quotient;
    var q := Quotient(x, k);
    var t := Quotient(q, p);
    Nested(x, q, t * p, p, k);
    MulMono(0, k, p);
    Swap(k, p);
    Regroup(t, k, p);
    QuotientIs(x, k * p, t);
  }

  lemma Nested(x: nat, q: nat, s: nat, p: nat, k: nat)
    requires q * k <= x < q * k + k && s <= q < s + p
    ensures s * k <= x < s * k + p * k
  {
    MulMono(s, q, k);
    MulMono(q + 1, s + p, k);
    MulMono(q, q, k);
    Distributed(s, p, k);
  }

  lemma Distributed(x: nat, y: nat, k: nat)
    ensures (x + y) * k == x * k + y * k
  {
  }

  lemma RightBeyondBit(dest: nat, src: nat, j: nat, w: Width)
    requires dest < Range(w) && src < Range(w) && j <= Bits(w)
    ensures Odd(Quotient(Around(dest, src, Range(w)), Pow2(Bits(w) + j - 1)))
            == if j == 0 then Top(dest, w) else Odd(Quotient(src, Pow2(j - 1)))
  {
    hide Pow2, Quotient, Range, Odd, Top, Around;
    if j == 0 {
      RangeIsPow2(w);
      LastOfAround(dest, src, w);
    } else {
      RightBeyondOdd(dest, src, j - 1, w);
      assert Bits(w) + j - 1 == Bits(w) + (j - 1);
    }
  }

  lemma RightBeyondOdd(dest: nat, src: nat, i: nat, w: Width)
    requires dest < Range(w) && i < Bits(w)
    ensures Odd(Quotient(Around(dest, src, Range(w)), Pow2(Bits(w) + i))) == Odd(Quotient(src, Pow2(i)))
  {
    hide Pow2, Quotient, Range, Odd, Around;
    RangeIsPow2(w);
    Pow2Add(Bits(w), i);
    Pow2Add(i, Bits(w) - i);
    DropThenCut(dest, src, Pow2(i), Pow2(Bits(w) - i), Range(w));
    OneMorePower(Bits(w) - i - 1);
    EvenTimes(dest, Pow2(Bits(w) - i), Pow2(Bits(w) - i - 1), Quotient(src, Pow2(i)));
  }

  lemma LastOfAround(dest: nat, src: nat, w: Width)
    requires dest < Range(w)
    ensures Range(w) / 2 > 0 && Odd(Quotient(Around(dest, src, Range(w)), Range(w) / 2)) == Top(dest, w)
  {
    hide Quotient, Range, Odd, Top;
    TopOfLast(dest * Range(w) + src, dest, w);
  }

  lemma TopOfLast(y: nat, dest: nat, w: Width)
    requires dest < Range(w)
    ensures Range(w) / 2 > 0 && Odd(Quotient(y * Range(w) + dest, Range(w) / 2)) == Top(dest, w)
  {
    hide Quotient, Range, Odd, Top;
    EvenRange(w);
    RightQuotient(y, dest, Range(w) / 2, 2, Range(w));
    EvenTimes(y, 2, 1, Quotient(dest, Range(w) / 2));
    HighestBit(dest, w);
  }

  lemma HighestBit(a: nat, w: Width)
    requires a < Range(w)
    ensures Range(w) / 2 > 0 && Odd(Quotient(a, Range(w) / 2)) == Top(a, w)
  {
    EvenRange(w);
    WordSign(a, w);
    QuotientIs(a, Range(w) / 2, if a < Range(w) / 2 then 0 else 1);
    hide Quotient, Range, Top;
  }

  // --- The handlers ---

  /** What both SHLD handlers leave: the word that carries the last bit out, the count and the result. */
  function Doubled(s: State, lop1: nat, n: nat, r: nat, laux: bv32, w: Width): State {
    s.(lop1 := lop1, lop2 := n, lr := SignExtend(r, w), laux := laux)
  }

  lemma LeftShows(s: State, lop1: nat, n: nat, r: nat, w: Width)
    requires w != Byte && 1 <= n <= 31 && r < Range(w)
    ensures var out := ShiftedBit(lop1, if w == Half && n <= 16 then 16 - n else 32 - n);
            Shows(Doubled(s, lop1, n, r, if w == Half then SHLD16 else SHLD32, w), r, w, out, out != Top(r, w), false)
  {
    hide SignExtend, GetZf, GetSf, GetPf, Top, IsPlain, EvenOnes, ShiftedBit, Pow2, Range;
    DoublePlain();
    ResultTop(r, w);
    ResultFlags(Doubled(s, lop1, n, r, if w == Half then SHLD16 else SHLD32, w), r, w);
  }

  lemma RightShows(s: State, lop1: nat, n: nat, r: nat, w: Width)
    requires w != Byte && r < Range(w)
    ensures var out := ShiftedBit(lop1, n - 1);
            Shows(Doubled(s, lop1, n, r, if w == Half then SHRD16 else SHRD32, w), r, w, out,
                  Top(2 * r, w) != Top(r, w), false)
  {
    hide SignExtend, GetZf, GetSf, GetPf, Top, IsPlain, EvenOnes, ShiftedBit, Pow2, Range;
    DoublePlain();
    ResultTop(r, w);
    TwiceTop(SignExtend(r, w), r, w);
    ResultFlags(Doubled(s, lop1, n, r, if w == Half then SHRD16 else SHRD32, w), r, w);
  }

  lemma TwiceTop(x: nat, y: nat, w: Width)
    requires x % Range(w) == y % Range(w)
    ensures Top(2 * x, w) == Top(2 * y, w)
  {
    EvenRange(w);
    TwiceRemainder(x, Range(w));
    TwiceRemainder(y, Range(w));
    SameTop(2 * x, 2 * y, w);
    hide Top, Range;
  }

  lemma DoublePlain()
    ensures IsPlain(SHLD16) && IsPlain(SHLD32) && IsPlain(SHRD16) && IsPlain(SHRD32)
    ensures SHLD16 & METHOD == SHLD16 && SHLD32 & METHOD == SHLD32 && SHRD16 & METHOD == SHRD16
            && SHRD32 & METHOD == SHRD32
  {
  }

  /** Moved by its own width, a word leaves nothing. */
  lemma WholeWord(a: nat)
    requires a < 0x1_0000
    ensures Up(a, 16, Half) == 0 && Up(a, 0, Half) == a && Down(a, 16) == 0 && Down(a, 0) == a
  {
    hide Pow2, Quotient;
    Pow2Small();
    QuotientIs(a, 0x1_0000, 0);
    QuotientIs(a, 1, a);
    UniqueRemainder(a * 0x1_0000, 0x1_0000, a, 0);
    UniqueRemainder(a, 0x1_0000, 0, a);
  }

  lemma BitOfDown(a: nat, n: nat)
    requires n < 32
    ensures ShiftedBit(a, n) == Odd(Down(a, n))
  {
    hide Quotient, Pow2;
  }

  lemma Left16(dest: nat, src: nat, n: nat)
    requires dest < 0x1_0000 && src < 0x1_0000 && 1 <= n <= 31
    ensures var st := MovedLeft(dest, src, n, Half);
            && st.value == (if n < 16 then Up(dest, n, Half) + Down(src, 16 - n)
                            else Up(src, n - 16, Half) + Down(dest, 32 - n)) < 0x1_0000
            && st.out == ShiftedBit(if n > 16 then src else dest, if n <= 16 then 16 - n else 32 - n)
  {
    hide MovedLeft, Up, Down, ShiftedBit, Odd;
    if n <= 16 {
      LeftWithin(dest, src, n, Half);
      BitOfDown(dest, 16 - n);
    } else {
      LeftBeyond(dest, src, n - 16, Half);
      BitOfDown(src, 32 - n);
    }
    WholeWord(dest);
    WholeWord(src);
  }

  lemma Right16(dest: nat, src: nat, n: nat)
    requires dest < 0x1_0000 && src < 0x1_0000 && 1 <= n <= 31
    ensures var st := MovedRight(dest, src, n, Half);
            && st.value == (if n < 16 then Down(dest, n) + Up(src, 16 - n, Half)
                            else Down(src, n - 16) + Up(dest, 32 - n, Half)) < 0x1_0000
            && st.out == if n == 16 then Top(dest, Half)
                         else ShiftedBit(if n > 16 then src else dest, if n < 16 then n - 1 else n - 17)
  {
    hide MovedRight, Up, Down, ShiftedBit, Odd, Top;
    if n < 16 {
      RightWithin(dest, src, n, Half);
      BitOfDown(dest, n - 1);
    } else {
      RightBeyond(dest, src, n - 16, Half);
      if n > 16 {
        BitOfDown(src, n - 17);
      }
    }
  }

  /** cpu_shld16. The two parts of the result have no bit in common, so that joining them adds them. */
  method Shld16(f: Flags, dest: nat, src: nat, count: nat) returns (r: nat)
    requires dest < 0x1_0000 && src < 0x1_0000
    modifies f
    ensures count % 32 == 0 ==> r == dest && f.View() == old(f.View())
    ensures count % 32 != 0 ==>
              var st := MovedLeft(dest, src, count % 32, Half);
              r == st.value && Shows(f.View(), r, Half, st.out, st.out != Top(r, Half), false)
  {
    hide Shows, SignExtend, Top, MovedLeft, ShiftedBit, Up, Down;
    ghost var s := f.View();
    var n := count % 32;
    if n == 0 {
      return dest;
    }
    Left16(dest, src, n);
    var word := dest;
    if n < 16 {
      r := Up(dest, n, Half) + Down(src, 16 - n);
    } else {
      r := Up(src, n - 16, Half) + Down(dest, 32 - n);
    }
    if n > 16 {
      word := src;
    }
    f.lr := SignExtend(r, Half);
    f.lop1, f.lop2 := word, n;
    f.laux := SHLD16;
    LeftShows(s, word, n, r, Half);
  }

  /** cpu_shld32 */
  method Shld32(f: Flags, dest: nat, src: nat, count: nat) returns (r: nat)
    requires dest < W32 && src < W32
    modifies f
    ensures count % 32 == 0 ==> r == dest && f.View() == old(f.View())
    ensures count % 32 != 0 ==>
              var st := MovedLeft(dest, src, count % 32, Full);
              r == st.value && Shows(f.View(), r, Full, st.out, st.out != Top(r, Full), false)
  {
    hide Shows, SignExtend, Top, MovedLeft, ShiftedBit, Up, Down;
    ghost var s := f.View();
    var n := count % 32;
    if n == 0 {
      return dest;
    }
    Both32(dest, src, n);
    r := Up(dest, n, Full) + Down(src, 32 - n);
    f.lr := SignExtend(r, Full);
    f.lop1, f.lop2 := dest, n;
    f.laux := SHLD32;
    LeftShows(s, dest, n, r, Full);
  }

  lemma Both32(dest: nat, src: nat, n: nat)
    requires dest < W32 && src < W32 && 1 <= n <= 31
    ensures var st := MovedLeft(dest, src, n, Full);
            st.value == Up(dest, n, Full) + Down(src, 32 - n) < W32 && st.out == ShiftedBit(dest, 32 - n)
    ensures var st := MovedRight(dest, src, n, Full);
            st.value == Down(dest, n) + Up(src, 32 - n, Full) < W32 && st.out == ShiftedBit(dest, n - 1)
  {
    hide MovedLeft, MovedRight, Up, Down, ShiftedBit, Odd;
    LeftWithin(dest, src, n, Full);
    RightWithin(dest, src, n, Full);
    BitOfDown(dest, 32 - n);
    BitOfDown(dest, n - 1);
  }

  /** cpu_shrd16. For a count of 16 the carry reads as clear; the bit shifted out last was the destination's sign. */
  method Shrd16(f: Flags, dest: nat, src: nat, count: nat) returns (r: nat)
    requires dest < 0x1_0000 && src < 0x1_0000
    modifies f
    ensures count % 32 == 0 ==> r == dest && f.View() == old(f.View())
    ensures count % 32 != 0 ==>
              var st := MovedRight(dest, src, count % 32, Half);
              && r == st.value && (count % 32 == 16 ==> st.out == Top(dest, Half))
              && Shows(f.View(), r, Half, count % 32 != 16 && st.out, Top(2 * r, Half) != Top(r, Half), false)
  {
    hide Shows, SignExtend, Top, MovedRight, ShiftedBit, Up, Down;
    ghost var s := f.View();
    var n := count % 32;
    if n == 0 {
      return dest;
    }
    Right16(dest, src, n);
    NoBit(src);
    var word, left := dest, n;
    if n < 16 {
      r := Down(dest, n) + Up(src, 16 - n, Half);
    } else {
      r := Down(src, n - 16) + Up(dest, 32 - n, Half);
      word, left := src, n - 16;
    }
    f.lr := SignExtend(r, Half);
    f.lop1, f.lop2 := word, left;
    f.laux := SHRD16;
    RightShows(s, word, left, r, Half);
  }

  /** The distance -1 is 31 for the hardware. */
  lemma NoBit(a: nat)
    requires a < 0x1_0000
    ensures !ShiftedBit(a, -1)
  {
    hide Pow2, Quotient;
    Pow2Mono(16, 31);
    Pow2Small();
    QuotientIs(a, Pow2(31), 0);
  }

  /** cpu_shrd32 */
  method Shrd32(f: Flags, dest: nat, src: nat, count: nat) returns (r: nat)
    requires dest < W32 && src < W32
    modifies f
    ensures count % 32 == 0 ==> r == dest && f.View() == old(f.View())
    ensures count % 32 != 0 ==>
              var st := MovedRight(dest, src, count % 32, Full);
              r == st.value && Shows(f.View(), r, Full, st.out, Top(2 * r, Full) != Top(r, Full), false)
  {
    hide Shows, SignExtend, Top, MovedRight, ShiftedBit, Up, Down;
    ghost var s := f.View();
    var n := count % 32;
    if n == 0 {
      return dest;
    }
    Both32(dest, src, n);
    r := Down(dest, n) + Up(src, 32 - n, Full);
    f.lr := SignExtend(r, Full);
    f.lop1, f.lop2 := dest, n;
    f.laux := SHRD32;
    RightShows(s, dest, n, r, Full);
  }

  /** By one place, the overflow of either double shift says whether the sign changes. */
  lemma OnePlace(dest: nat, src: nat, w: Width)
    requires dest < Range(w) && src < Range(w)
    ensures MovedLeft(dest, src, 1, w).out == Top(dest, w)
    ensures Top(2 * MovedRight(dest, src, 1, w).value, w) == Top(dest, w)
  {
    hide Top, Range, MovedLeft, MovedRight, Up, Down, Odd;
    LeftWithin(dest, src, 1, w);
    RightWithin(dest, src, 1, w);
    ByOne(dest, src, w);
  }

  lemma ByOne(dest: nat, src: nat, w: Width)
    requires dest < Range(w)
    ensures Odd(Down(dest, Bits(w) - 1)) == Top(dest, w)
    ensures Top(2 * (Down(dest, 1) + Up(src, Bits(w) - 1, w)), w) == Top(dest, w)
  {
    hide Quotient, Top, Pow2, Range, Odd;
    RangeIsPow2(w);
    HighestBit(dest, w);
    Pow2Small();
    QuotientIs(dest, 2, dest / 2);
    OnePlaceRight(dest, src, w);
  }

  lemma OnePlaceRight(dest: nat, src: nat, w: Width)
    requires dest < Range(w)
    ensures Top(2 * (dest / 2 + src * (Range(w) / 2) % Range(w)), w) == Top(dest, w)
  {
    EvenRange(w);
    var z := src * (Range(w) / 2) % Range(w);
    HalvesOf(src, Range(w), Range(w) / 2);
    WordSign(dest, w);
    var x := 2 * (dest / 2) + 2 * z;
    UniqueRemainder(x, Range(w), if z == 0 then 0 else 1, 2 * (dest / 2));
    QuarterRange(w);
    hide Range, Top;
  }

  lemma HalvesOf(x: nat, r: nat, h: nat)
    requires r == 2 * h && h > 0
    ensures x * h % r == 0 || x * h % r == h
  {
    if x % 2 == 0 {
      assert x * h == x / 2 * r by { Distributed(x / 2, x / 2, h); }
      UniqueRemainder(x * h, r, x / 2, 0);
    } else {
      assert x * h == x / 2 * r + h by {
        Distributed(x / 2, x / 2, h);
        Distributed(x / 2 + x / 2, 1, h);
      }
      UniqueRemainder(x * h, r, x / 2, h);
    }
  }
}
