/** The arithmetic handlers of src/halfix/ops/arith.c as far as they set the lazy flags, and what the flags read
    afterwards mean: carry and borrow, signed overflow, the carry out of the low nibble, and for shifts the bit that
    the last single step shifts out. */
module ArithFlags {
  import opened Words
  import opened Eflags

  /** The method of a width, given the one for bytes. */
  function Nth(first: bv32, w: Width): bv32 {
    match w case Byte => first case Half => first + 1 case Full => first + 2
  }

  // --- What the handlers leave ---

  /** ADD */
  function Added(s: State, a: nat, b: nat, w: Width): State {
    s.(lop2 := b, lr := SignExtend(a + b, w), laux := Nth(ADD8, w))
  }

  function Carry(s: State): (c: nat)
    ensures c <= 1
  {
    if GetCf(s) then 1 else 0
  }

  /** ADC reads the carry first. */
  function AddedWithCarry(s: State, a: nat, b: nat, w: Width): State {
    s.(lop1 := a, lop2 := b, lr := SignExtend(a + b + Carry(s), w), laux := Nth(ADC8, w))
  }

  /** SUB leaves what CMP leaves, and NEG what subtracting from zero leaves. */
  function Subtracted(s: State, a: nat, b: nat, w: Width): State { Compared(s, a, b, w) }

  /** SBB */
  function SubtractedWithBorrow(s: State, a: nat, b: nat, w: Width): State {
    s.(lop1 := a, lop2 := b, lr := SignExtend(a - b - Carry(s), w), laux := Nth(SBB8, w))
  }

  /** OR, AND, XOR and TEST, with their result. */
  function Combined(s: State, x: nat, w: Width): State {
    s.(lr := SignExtend(x, w), laux := BIT)
  }

  /** INC and DEC store the carry before they change the method. */
  function Incremented(s: State, a: nat, w: Width): State {
    s.(eflags := With(s.eflags, CF, GetCf(s)), lr := SignExtend(a + 1, w), laux := Nth(INC8, w))
  }

  function Decremented(s: State, a: nat, w: Width): State {
    s.(eflags := With(s.eflags, CF, GetCf(s)), lr := SignExtend(a - 1, w), laux := Nth(DEC8, w))
  }

  /** MUL: the high half is compared with zero. */
  function Multiplied(s: State, a: nat, b: nat, w: Width): State {
    MulMono(0, a, b);
    s.(lop1 := 0, lop2 := a * b / Range(w), lr := SignExtend(a * b, w), laux := MUL)
  }

  /** IMUL: the high half is compared with the low half's sign. */
  function SignedMultiplied(s: State, a: nat, b: nat, w: Width): State {
    var p := Signed(a, w) * Signed(b, w);
    s.(lop1 := if Top(p, w) then W32 - 1 else 0, lop2 := SignExtend(p / Range(w), w), lr := SignExtend(p, w),
       laux := MUL)
  }

  /** SHL by 1 to 31. */
  function ShiftedLeft(s: State, a: nat, n: nat, w: Width): State {
    s.(lop1 := a, lop2 := n, lr := SignExtend(a * Pow2(n), w), laux := Nth(SHL8, w))
  }

  /** SHR */
  function ShiftedRight(s: State, a: nat, n: nat, w: Width): State {
    s.(lop1 := a, lop2 := n, lr := SignExtend(Quotient(a, Pow2(n)), w), laux := Nth(SHR8, w))
  }

  /** SAR works on the sign-extended operand. */
  function ShiftedSigned(s: State, a: nat, n: nat, w: Width): State {
    s.(lop1 := SignExtend(a, w), lop2 := n, lr := SignExtend(Signed(a, w) / Pow2(n), w), laux := Nth(SAR8, w))
  }

  // --- Flags of the result ---

  predicate IsPlain(laux: bv32) { !Bit(laux, 31) && !Bit(laux, 7) }

  /** ZF, SF and PF, for every method that leaves no correction in `laux`. */
  lemma ResultFlags(s: State, x: int, w: Width)
    requires s.lr == SignExtend(x, w) && IsPlain(s.laux)
    ensures GetZf(s) == (x % Range(w) == 0) && GetSf(s) == Top(x, w) && GetPf(s) == EvenOnes(x)
  {
    ExtendedResult(x, w);
    hide Bit, SignExtend, Top, Ones, InTable, Folded;
    TableCountsOnes(s.lr);
    LowByte(s.lr, x, w);
  }

  /** The result as it is kept: the low bits of the exact one, sign-extended to 32 bits. */
  lemma ExtendedResult(x: int, w: Width)
    ensures var d := SignExtend(x, w);
            && d < W32 && d % Range(w) == x % Range(w) && (d == 0 <==> x % Range(w) == 0) && Top(d, Full) == Top(x, w)
            && d % 32 == x % 32
  {
    var e := x % Range(w);
    LowPart(x, w);
    Extension(e, w);
    assert SignExtend(x, w) == (if e < Range(w) / 2 then e else e - Range(w)) % W32;
    var d := SignExtend(x, w);
    assert Top(d, Full) == (d >= W32 / 2) && Top(x, w) == (e >= Range(w) / 2);
    LowFive(d, x, w);
  }

  lemma LowPart(x: int, w: Width)
    ensures x % W32 % Range(w) == x % Range(w)
  {
    match w
    case Byte => ByteOfWord(x);
    case Half => HalfOfWord(x);
    case Full =>
  }

  lemma HalfOfWord(x: int)
    ensures x % W32 % 0x1_0000 == x % 0x1_0000
  {
    var q, m := x / W32, x % W32;
    HalfIs(x, 0x1_0000 * q + m / 0x1_0000, m % 0x1_0000);
  }

  lemma HalfIs(x: int, k: int, m: int)
    requires x == 0x1_0000 * k + m && 0 <= m < 0x1_0000
    ensures x % 0x1_0000 == m
  {
  }

  lemma LowFive(x: int, y: int, w: Width)
    requires x % Range(w) == y % Range(w)
    ensures x % 32 == y % 32
  {
    hide Range;
    LowByte(x, y, w);
    FiveOfByte(x);
    FiveOfByte(y);
  }

  lemma FiveOfByte(x: int)
    ensures x % 256 % 32 == x % 32
  {
    var q, m := x / 256, x % 256;
    FiveIs(x, 8 * q + m / 32, m % 32);
  }

  lemma FiveIs(x: int, k: int, m: int)
    requires x == 32 * k + m && 0 <= m < 32
    ensures x % 32 == m
  {
  }

  lemma SixteenIs(x: int, k: int, m: int)
    requires x == 16 * k + m && 0 <= m < 16
    ensures x % 16 == m
  {
  }

  // --- The methods ---

  lemma NthIs(first: bv32, w: Width)
    requires first <= 30
    ensures var m := Nth(first, w);
            m & METHOD == m && IsPlain(m) && first <= m <= first + 2 && WidthOf(m, first) == w
  {
  }

  // --- Addition and subtraction ---

  /** The exact result is a value of the width, read as signed numbers. */
  predicate Fits(v: int, w: Width) { -(Range(w) / 2) <= v < Range(w) / 2 }

  /** What the six flags read for an exact result `x` of a width. */
  ghost predicate Shows(f: State, x: int, w: Width, cf: bool, of: bool, af: bool) {
    && GetCf(f) == cf && GetOf(f) == of && GetAf(f) == af
    && GetZf(f) == (x % Range(w) == 0) && GetSf(f) == Top(x, w) && GetPf(f) == EvenOnes(x)
  }

  /** A remainder, from a multiple and a rest. */
  lemma UniqueRemainder(x: int, r: nat, q: int, m: int)
    requires r > 0 && x == q * r + m && 0 <= m < r
    ensures x % r == m
  {
    var q', m' := x / r, x % r;
    assert x == q' * r + m';
    if q < q' {
      MulMono(q + 1, q', r);
    } else if q' < q {
      MulMono(q' + 1, q, r);
    }
  }

  /** The sign bit of a sum, from its size. */
  lemma TopOfSum(a: nat, b: nat, c: nat, w: Width)
    requires a < Range(w) && b < Range(w) && c <= 1
    ensures var x := a + b + c;
            && x % Range(w) == (if x < Range(w) then x else x - Range(w))
            && Top(x, w) == (x % Range(w) >= Range(w) / 2)
  {
    var x := a + b + c;
    if x < Range(w) {
      UniqueRemainder(x, Range(w), 0, x);
    } else {
      UniqueRemainder(x, Range(w), 1, x - Range(w));
    }
  }

  lemma TopOfDifference(a: nat, b: nat, c: nat, w: Width)
    requires a < Range(w) && b < Range(w) && c <= 1
    ensures var x := a - b - c;
            && x % Range(w) == (if x >= 0 then x else x + Range(w))
            && Top(x, w) == (x % Range(w) >= Range(w) / 2)
  {
    var x := a - b - c;
    if x >= 0 {
      UniqueRemainder(x, Range(w), 0, x);
    } else {
      UniqueRemainder(x, Range(w), -1, x + Range(w));
    }
  }

  lemma EvenRange(w: Width)
    ensures Range(w) == 2 * (Range(w) / 2) && Range(w) / 2 >= 16
  {
  }

  /** The carry formula for ADC, and signed overflow of a sum with its carry-in. */
  lemma SumFormulas(a: nat, b: nat, c: nat, w: Width)
    requires a < Range(w) && b < Range(w) && c <= 1
    ensures var x := a + b + c;
            && (Top(a, w) != ((Top(a, w) != Top(b, w)) && (Top(b, w) != Top(x, w)))) == (x >= Range(w))
            && (Top(a, w) != Top(x, w) && Top(b, w) != Top(x, w)) == !Fits(Signed(a, w) + Signed(b, w) + c, w)
  {
    TopOfSum(a, b, c, w);
    WordSign(a, w);
    WordSign(b, w);
    EvenRange(w);
    hide Top, Signed, Range;
  }

  /** The borrow formula for SBB, and signed overflow of a difference with its borrow. */
  lemma DifferenceFormulas(a: nat, b: nat, c: nat, w: Width)
    requires a < Range(w) && b < Range(w) && c <= 1
    ensures var x := a - b - c;
            && (Top(x, w) != ((Top(x, w) != Top(b, w)) && (Top(a, w) != Top(b, w)))) == (a < b + c)
            && (Top(x, w) != Top(a, w) && Top(b, w) != Top(a, w)) == !Fits(Signed(a, w) - Signed(b, w) - c, w)
  {
    TopOfDifference(a, b, c, w);
    WordSign(a, w);
    WordSign(b, w);
    EvenRange(w);
    hide Top, Signed, Range;
  }

  /** A low nibble and the bit above it. */
  lemma Nibble(x: int)
    ensures x % 32 == (if Fifth(x) then 16 else 0) + x % 16 && 0 <= x % 16 < 16
  {
    var k, m := x / 32, x % 32;
    SixteenIs(x, 2 * k + m / 16, m % 16);
  }

  /** Bit 4 of a sum differs from the operands' by the carry out of the low nibbles. */
  lemma NibbleCarry(a: int, b: int, c: nat)
    requires c <= 1
    ensures ((Fifth(a) != Fifth(b)) != Fifth(a + b + c)) == (a % 16 + b % 16 + c >= 16)
  {
    Nibble(a);
    Nibble(b);
    var m := a % 32 + b % 32 + c;
    FiveIs(a + b + c, a / 32 + b / 32 + m / 32, m % 32);
    assert Fifth(a + b + c) == (m % 32 >= 16);
    hide Fifth;
  }

  lemma NibbleBorrow(a: int, b: int, c: nat)
    requires c <= 1
    ensures ((Fifth(a) != Fifth(b)) != Fifth(a - b - c)) == (a % 16 < b % 16 + c)
  {
    Nibble(a);
    Nibble(b);
    var m := a % 32 - b % 32 - c;
    FiveIs(a - b - c, a / 32 - b / 32 + m / 32, m % 32);
    assert Fifth(a - b - c) == (m % 32 >= 16);
    hide Fifth;
  }

  lemma SameFifth(x: int, y: int)
    requires x % 32 == y % 32
    ensures Fifth(x) == Fifth(y)
  {
  }

  /** What the extended result keeps, for every getter. */
  lemma ResultTop(x: int, w: Width)
    ensures var d := SignExtend(x, w);
            && d < W32 && d % Range(w) == x % Range(w) && Top(d, w) == Top(x, w) && d % 32 == x % 32
  {
    ExtendedResult(x, w);
    SameTop(SignExtend(x, w), x, w);
  }

  /** After ADD: the carry out of the exact sum, its signed overflow, and the carry out of the low nibbles. */
  lemma AddFlags(s: State, a: nat, b: nat, w: Width)
    requires a < Range(w) && b < Range(w)
    ensures Shows(Added(s, a, b, w), a + b, w, a + b >= Range(w), !Fits(Signed(a, w) + Signed(b, w), w),
                  a % 16 + b % 16 >= 16)
  {
    hide CfBy, OfBy, AfBy, SignExtend, Nth, GetZf, GetSf, GetPf, Top, Fits, Signed, IsPlain, EvenOnes;
    NthIs(ADD8, w);
    ResultFlags(Added(s, a, b, w), a + b, w);
    AddCarry(Nth(ADD8, w), s.eflags, s.lop1, a, b, SignExtend(a + b, w), w);
    AddOverflow(Nth(ADD8, w), s.eflags, s.lop1, a, b, SignExtend(a + b, w), w);
    AddNibble(Nth(ADD8, w), s.eflags, s.lop1, a, b, SignExtend(a + b, w), w);
  }

  lemma AddCarry(m: bv32, e: bv32, lop1: nat, a: nat, b: nat, d: nat, w: Width)
    requires ADD8 <= m <= ADD32 && WidthOf(m, ADD8) == w && a < Range(w) && b < Range(w) && d == SignExtend(a + b, w)
    ensures CfBy(m, e, lop1, b, d) == (a + b >= Range(w))
  {
    ResultTop(a + b, w);
    TopOfSum(a, b, 0, w);
    assert CfBy(m, e, lop1, b, d) == (d % Range(w) < b % Range(w));
    UniqueRemainder(b, Range(w), 0, b);
    hide CfBy, Range, SignExtend, WidthOf;
  }

  lemma AddOverflow(m: bv32, e: bv32, lop1: nat, a: nat, b: nat, d: nat, w: Width)
    requires ADD8 <= m <= ADD32 && WidthOf(m, ADD8) == w && a < Range(w) && b < Range(w) && d == SignExtend(a + b, w)
    ensures OfBy(m, e, lop1, b, d) == !Fits(Signed(a, w) + Signed(b, w), w)
  {
    hide CfBy, SignExtend, Fits, Signed, Top;
    ResultTop(a + b, w);
    SubtractedBack(a, b, d, w);
    SumFormulas(a, b, 0, w);
    assert OfBy(m, e, lop1, b, d) == (Top((d - b) % W32, w) == Top(b, w) && Top(b, w) != Top(d, w));
  }

  /** Taking an operand off the sum gives the other one back, in the low bits. */
  lemma SubtractedBack(a: nat, b: nat, d: nat, w: Width)
    requires a < Range(w) && b < Range(w) && d % Range(w) == (a + b) % Range(w)
    ensures Top((d - b) % W32, w) == Top(a, w)
  {
    LowPart(d - b, w);
    SameDifference(d, a + b, b, Range(w));
    SameTop((d - b) % W32, a, w);
  }

  lemma SameDifference(x: int, y: int, b: int, r: nat)
    requires r > 0 && x % r == y % r
    ensures (x - b) % r == (y - b) % r
  {
    var q := (y - b) / r;
    var turns := x / r - y / r;
    assert x - y == turns * r by {
      assert x == x / r * r + x % r && y == y / r * r + y % r;
    }
    UniqueRemainder(x - b, r, q + turns, (y - b) % r);
  }

  lemma AddNibble(m: bv32, e: bv32, lop1: nat, a: nat, b: nat, d: nat, w: Width)
    requires ADD8 <= m <= ADD32 && d == SignExtend(a + b, w)
    ensures AfBy(m, e, lop1, b, d) == (a % 16 + b % 16 >= 16)
  {
    hide SignExtend, Fifth;
    ResultTop(a + b, w);
    SameDifference(d, a + b, b, 32);
    SameFifth(d - b, a);
    SameFifth(d, a + b);
    NibbleCarry(a, b, 0);
    assert AfBy(m, e, lop1, b, d) == ((Fifth(d - b) != Fifth(b)) != Fifth(d));
  }

  /** After ADC: the same with the carry that was in force before. */
  lemma AddCarryFlags(s: State, a: nat, b: nat, w: Width)
    requires a < Range(w) && b < Range(w)
    ensures var c := Carry(s);
            Shows(AddedWithCarry(s, a, b, w), a + b + c, w, a + b + c >= Range(w),
                  !Fits(Signed(a, w) + Signed(b, w) + c, w), a % 16 + b % 16 + c >= 16)
  {
    var c := Carry(s);
    hide CfBy, OfBy, AfBy, SignExtend, Nth, GetZf, GetSf, GetPf, Top, Fits, Signed, IsPlain, EvenOnes, Carry, Fifth;
    NthIs(ADC8, w);
    ResultFlags(AddedWithCarry(s, a, b, w), a + b + c, w);
    ResultTop(a + b + c, w);
    SumFormulas(a, b, c, w);
    NibbleCarry(a, b, c);
    SameFifth(SignExtend(a + b + c, w), a + b + c);
    CarryGetters(Nth(ADC8, w), s.eflags, a, b, SignExtend(a + b + c, w), w);
  }

  lemma CarryGetters(m: bv32, e: bv32, a: nat, b: nat, d: nat, w: Width)
    requires ADC8 <= m <= ADC32 && WidthOf(m, ADC8) == w
    ensures CfBy(m, e, a, b, d) == (Top(a, w) != ((Top(a, w) != Top(b, w)) && (Top(b, w) != Top(d, w))))
    ensures OfBy(m, e, a, b, d) == (Top(a, w) != Top(d, w) && Top(b, w) != Top(d, w))
    ensures AfBy(m, e, a, b, d) == ((Fifth(a) != Fifth(b)) != Fifth(d))
  {
    hide Top, Fifth;
  }

  /** After SBB: the borrow, signed overflow and the borrow of the low nibbles, with the carry as borrow-in. */
  lemma SubtractBorrowFlags(s: State, a: nat, b: nat, w: Width)
    requires a < Range(w) && b < Range(w)
    ensures var c := Carry(s);
            Shows(SubtractedWithBorrow(s, a, b, w), a - b - c, w, a < b + c,
                  !Fits(Signed(a, w) - Signed(b, w) - c, w), a % 16 < b % 16 + c)
  {
    var c := Carry(s);
    hide CfBy, OfBy, AfBy, SignExtend, Nth, GetZf, GetSf, GetPf, Top, Fits, Signed, IsPlain, EvenOnes, Carry, Fifth;
    NthIs(SBB8, w);
    ResultFlags(SubtractedWithBorrow(s, a, b, w), a - b - c, w);
    ResultTop(a - b - c, w);
    DifferenceFormulas(a, b, c, w);
    NibbleBorrow(a, b, c);
    SameFifth(SignExtend(a - b - c, w), a - b - c);
    BorrowGetters(Nth(SBB8, w), s.eflags, a, b, SignExtend(a - b - c, w), w);
  }

  lemma BorrowGetters(m: bv32, e: bv32, a: nat, b: nat, d: nat, w: Width)
    requires SBB8 <= m <= SBB32 && WidthOf(m, SBB8) == w
    ensures CfBy(m, e, a, b, d) == (Top(d, w) != ((Top(d, w) != Top(b, w)) && (Top(a, w) != Top(b, w))))
    ensures OfBy(m, e, a, b, d) == (Top(d, w) != Top(a, w) && Top(b, w) != Top(a, w))
    ensures AfBy(m, e, a, b, d) == ((Fifth(a) != Fifth(b)) != Fifth(d))
  {
    hide Top, Fifth;
  }

  /** After SUB, CMP, or NEG with `a` zero: all six flags, the borrow of the low nibbles among them. */
  lemma SubtractFlags(s: State, a: nat, b: nat, w: Width)
    requires a < Range(w) && b < Range(w)
    ensures Shows(Subtracted(s, a, b, w), a - b, w, a < b, !Fits(Signed(a, w) - Signed(b, w), w), a % 16 < b % 16)
  {
    hide CfBy, OfBy, AfBy, SignExtend, GetZf, GetSf, GetPf, GetCf, GetOf, Top, Fits, Signed, Overflows, IsPlain,
         EvenOnes, SubMethod, Bit;
    SubLaux(w);
    assert IsPlain(SubMethod(w)) by { PlainMethod(w); }
    ResultFlags(Subtracted(s, a, b, w), a - b, w);
    ComparedFlags(s, a, b, w);
    ComparedOverflow(s, a, b, w);
    SubtractNibble(SubMethod(w), s.eflags, s.lop1, a, b, SignExtend(a - b, w), w);
    assert Overflows(a, b, w) == !Fits(Signed(a, w) - Signed(b, w), w) by { OverflowsIs(a, b, w); }
  }

  lemma PlainMethod(w: Width)
    ensures IsPlain(SubMethod(w))
  {
  }

  lemma OverflowsIs(a: nat, b: nat, w: Width)
    ensures Overflows(a, b, w) == !Fits(Signed(a, w) - Signed(b, w), w)
  {
    hide Signed;
  }

  lemma SubtractNibble(m: bv32, e: bv32, lop1: nat, a: nat, b: nat, d: nat, w: Width)
    requires SUB8 <= m <= SUB32 && d == SignExtend(a - b, w)
    ensures AfBy(m, e, lop1, b, d) == (a % 16 < b % 16)
  {
    hide SignExtend, Fifth;
    ResultTop(a - b, w);
    SameDifference(d, a - b, 0 - b, 32);
    SameFifth(d + b, a);
    SameFifth(d, a - b);
    NibbleBorrow(a, b, 0);
    assert AfBy(m, e, lop1, b, d) == ((Fifth(d + b) != Fifth(b)) != Fifth(d));
  }

  // --- INC and DEC ---

  /** INC reads as adding one, but keeps the carry. */
  lemma IncrementFlags(s: State, a: nat, w: Width)
    requires a < Range(w)
    ensures Shows(Incremented(s, a, w), a + 1, w, GetCf(s), !Fits(Signed(a, w) + 1, w), a % 16 + 1 >= 16)
  {
    hide CfBy, OfBy, AfBy, SignExtend, Nth, GetZf, GetSf, GetPf, Top, Fits, Signed, IsPlain, EvenOnes, Bit, With;
    NthIs(INC8, w);
    ResultFlags(Incremented(s, a, w), a + 1, w);
    StoredCarry(s.eflags, GetCf(s));
    var e := With(s.eflags, CF, GetCf(s));
    var d := SignExtend(a + 1, w);
    CarryIsKept(Nth(INC8, w), e, s.lop1, s.lop2, d);
    IncrementGetters(Nth(INC8, w), e, s.lop1, s.lop2, d, w);
    OneMore(a, d, w);
  }

  lemma StoredCarry(e: bv32, c: bool)
    ensures Bit(With(e, CF, c), 0) == c
  {
  }

  lemma CarryIsKept(m: bv32, e: bv32, lop1: nat, lop2: nat, d: nat)
    requires INC8 <= m <= DEC32
    ensures CfBy(m, e, lop1, lop2, d) == Bit(e, 0)
  {
    hide Bit;
  }

  lemma IncrementGetters(m: bv32, e: bv32, lop1: nat, lop2: nat, d: nat, w: Width)
    requires INC8 <= m <= INC32 && WidthOf(m, INC8) == w
    ensures OfBy(m, e, lop1, lop2, d) == (d % Range(w) == Range(w) / 2)
    ensures AfBy(m, e, lop1, lop2, d) == (d % 16 == 0)
  {
    hide Bit, CfBy;
  }

  lemma OneMore(a: nat, d: nat, w: Width)
    requires a < Range(w) && d == SignExtend(a + 1, w)
    ensures (d % Range(w) == Range(w) / 2) == !Fits(Signed(a, w) + 1, w)
    ensures (d % 16 == 0) == (a % 16 + 1 >= 16)
  {
    ResultTop(a + 1, w);
    LowNibble(d, a + 1);
    EvenRange(w);
    TopOfSum(a, 0, 1, w);
    WordSign(a, w);
    hide Range, Signed, SignExtend, Top;
    SixteenIs(a + 1, a / 16 + (a % 16 + 1) / 16, (a % 16 + 1) % 16);
    NextNibble(a % 16);
  }

  lemma LowNibble(x: int, y: int)
    requires x % 32 == y % 32
    ensures x % 16 == y % 16
  {
    Nibble(x);
    Nibble(y);
    SameFifth(x, y);
    hide Fifth;
  }

  lemma NextNibble(n: nat)
    requires n < 16
    ensures ((n + 1) % 16 == 0) == (n + 1 >= 16) && ((n - 1) % 16 == 15) == (n < 1)
  {
  }

  /** DEC reads as subtracting one, but keeps the carry. */
  lemma DecrementFlags(s: State, a: nat, w: Width)
    requires a < Range(w)
    ensures Shows(Decremented(s, a, w), a - 1, w, GetCf(s), !Fits(Signed(a, w) - 1, w), a % 16 < 1)
  {
    hide CfBy, OfBy, AfBy, SignExtend, Nth, GetZf, GetSf, GetPf, Top, Fits, Signed, IsPlain, EvenOnes, Bit, With;
    NthIs(DEC8, w);
    ResultFlags(Decremented(s, a, w), a - 1, w);
    StoredCarry(s.eflags, GetCf(s));
    var e := With(s.eflags, CF, GetCf(s));
    var d := SignExtend(a - 1, w);
    CarryIsKept(Nth(DEC8, w), e, s.lop1, s.lop2, d);
    DecrementGetters(Nth(DEC8, w), e, s.lop1, s.lop2, d, w);
    OneLess(a, d, w);
  }

  lemma DecrementGetters(m: bv32, e: bv32, lop1: nat, lop2: nat, d: nat, w: Width)
    requires DEC8 <= m <= DEC32 && WidthOf(m, DEC8) == w
    ensures OfBy(m, e, lop1, lop2, d) == (d % Range(w) == Range(w) / 2 - 1)
    ensures AfBy(m, e, lop1, lop2, d) == (d % 16 == 15)
  {
    hide Bit, CfBy;
  }

  lemma OneLess(a: nat, d: nat, w: Width)
    requires a < Range(w) && d == SignExtend(a - 1, w)
    ensures (d % Range(w) == Range(w) / 2 - 1) == !Fits(Signed(a, w) - 1, w)
    ensures (d % 16 == 15) == (a % 16 < 1)
  {
    ResultTop(a - 1, w);
    LowNibble(d, a - 1);
    EvenRange(w);
    TopOfDifference(a, 0, 1, w);
    WordSign(a, w);
    hide Range, Signed, SignExtend, Top;
    SixteenIs(a - 1, a / 16 + (a % 16 - 1) / 16, (a % 16 - 1) % 16);
    NextNibble(a % 16);
  }

  // --- The logical operations and multiplication ---

  /** OR, AND, XOR and TEST clear carry, overflow and AF. */
  lemma CombineFlags(s: State, x: nat, w: Width)
    ensures Shows(Combined(s, x, w), x, w, false, false, false)
  {
    hide SignExtend, GetZf, GetSf, GetPf, Top, EvenOnes, IsPlain;
    assert IsPlain(BIT) && BIT & METHOD == BIT by { PlainConstants(); }
    ResultFlags(Combined(s, x, w), x, w);
  }

  lemma PlainConstants()
    ensures IsPlain(BIT) && BIT & METHOD == BIT && IsPlain(MUL) && MUL & METHOD == MUL
  {
  }

  /** MUL: carry and overflow say that the product does not fit the width. */
  lemma MultiplyFlags(s: State, a: nat, b: nat, w: Width)
    requires a < Range(w) && b < Range(w)
    ensures var big := a * b >= Range(w);
            Shows(Multiplied(s, a, b, w), a * b, w, big, big, false)
  {
    hide SignExtend, GetZf, GetSf, GetPf, Top, EvenOnes, IsPlain, Range;
    PlainConstants();
    ResultFlags(Multiplied(s, a, b, w), a * b, w);
    MulMono(0, a, b);
    HighPart(a * b, Range(w)) by { EvenRange(w); }
  }

  lemma HighPart(p: nat, r: nat)
    requires r > 0
    ensures (p / r != 0) == (p >= r)
  {
    assert p == p / r * r + p % r;
    MulMono(1, p / r, r);
  }

  /** IMUL: carry and overflow say that the signed product is not a value of the width. */
  lemma SignedMultiplyFlags(s: State, a: nat, b: nat, w: Width)
    requires a < Range(w) && b < Range(w)
    ensures var p := Signed(a, w) * Signed(b, w);
            Shows(SignedMultiplied(s, a, b, w), p, w, !Fits(p, w), !Fits(p, w), false)
  {
    var p := Signed(a, w) * Signed(b, w);
    ProductBound(a, b, w);
    SignOfLow(p, w);
    hide SignExtend, GetZf, GetSf, GetPf, Top, EvenOnes, IsPlain, Signed, Range, Fits;
    PlainConstants();
    ResultFlags(SignedMultiplied(s, a, b, w), p, w);
  }

  lemma SignedSize(a: nat, w: Width)
    ensures -(Range(w) / 2) <= Signed(a, w) < Range(w) / 2
  {
    EvenRange(w);
  }

  lemma ProductBound(a: nat, b: nat, w: Width)
    ensures var p, h := Signed(a, w) * Signed(b, w), Range(w) / 2;
            -(h * h) <= p <= h * h
  {
    SignedSize(a, w);
    SignedSize(b, w);
    EvenRange(w);
    hide Signed, Range;
    BoundedProduct(Signed(a, w), Signed(b, w), Range(w) / 2);
  }

  lemma BoundedProduct(x: int, y: int, h: int)
    requires -h <= x <= h && -h <= y <= h
    ensures -(h * h) <= x * y <= h * h
  {
    assert (h - x) * (h + y) >= 0 && (h + x) * (h - y) >= 0;
    assert (h - x) * (h - y) >= 0 && (h + x) * (h + y) >= 0;
    assert (h - x) * (h + y) + (h + x) * (h - y) == 2 * (h * h) - 2 * (x * y);
    assert (h - x) * (h - y) + (h + x) * (h + y) == 2 * (h * h) + 2 * (x * y);
  }

  /** The sign of the low half, extended, equals the high half exactly if the product fits the low half. */
  lemma SignOfLow(p: int, w: Width)
    requires var h := Range(w) / 2; -(h * h) <= p <= h * h
    ensures ((if Top(p, w) then W32 - 1 else 0) == SignExtend(p / Range(w), w)) == Fits(p, w)
  {
    EvenRange(w);
    var r, q := Range(w), p / Range(w);
    DividedBy(p, r);
    HighBound(p, q, p % r, r, r / 2);
    ExtendedSmall(q, w);
    FitsByHigh(p, q, p % r, r, r / 2);
    assert Top(p, w) == (p % r >= r / 2);
    hide SignExtend, Top, Range;
  }

  lemma DividedBy(p: int, r: nat)
    requires r > 0
    ensures p == p / r * r + p % r && 0 <= p % r < r
  {
  }

  /** Only a high half of all zeros or all ones leaves a number that fits the low half. */
  lemma FitsByHigh(p: int, q: int, m: int, r: nat, h: int)
    requires r == 2 * h && h >= 16 && p == q * r + m && 0 <= m < r
    ensures (-h <= p < h) == ((q == 0 && m < h) || (q == -1 && m >= h))
  {
    if q > 0 {
      MulMono(1, q, r);
    } else if q < -1 {
      MulMono(q, -2, r);
    }
  }

  lemma HighBound(p: int, q: int, m: int, r: nat, h: int)
    requires r == 2 * h && h >= 16 && p == q * r + m && 0 <= m < r && -(h * h) <= p <= h * h
    ensures -h <= q < h
  {
    var s := h * h;
    Squares(h, r, s);
    if q >= h {
      MulMono(h, q, r);
    } else if q < -h {
      MulMono(q, -h - 1, r);
    }
    hide *;
    assert p == q * r + m;
  }

  lemma Squares(h: int, r: int, s: int)
    requires r == 2 * h && s == h * h
    ensures s >= 0 && h * r == 2 * s && (-h - 1) * r == -2 * s - r
  {
  }

  lemma ExtendedSmall(q: int, w: Width)
    requires -(Range(w) / 2) <= q < Range(w) / 2
    ensures SignExtend(q, w) == if q >= 0 then q else q + W32
  {
    LowPart(q, w);
    if q >= 0 {
      UniqueRemainder(q, Range(w), 0, q);
    } else {
      UniqueRemainder(q, Range(w), -1, q + Range(w));
    }
    var e := q % Range(w);
    Extension(e, w);
    assert SignExtend(q, w) == (if e < Range(w) / 2 then e else e - Range(w)) % W32;
  }

  // --- Shifts, against shifting one place at a time ---

  /** A word of a width, and the bit that the last step pushed out. */
  datatype Stepped = Stepped(value: nat, out: bool)

  function StepsLeft(a: nat, n: nat, w: Width): Stepped {
    if n == 0 then Stepped(a, false)
    else
      var st := StepsLeft(a, n - 1, w);
      Stepped(2 * st.value % Range(w), Top(st.value, w))
  }

  /** Shifting right; with `signed` the sign bit stays. */
  function StepsRight(a: nat, n: nat, w: Width, signed: bool): Stepped {
    if n == 0 then Stepped(a, false)
    else
      var st := StepsRight(a, n - 1, w, signed);
      Stepped(st.value / 2 + (if signed && Top(st.value, w) then Range(w) / 2 else 0), Odd(st.value))
  }

  function Bits(w: Width): nat {
    match w case Byte => 8 case Half => 16 case Full => 32
  }

  lemma RangeIsPow2(w: Width)
    ensures Range(w) == Pow2(Bits(w)) && Range(w) / 2 == Pow2(Bits(w) - 1)
  {
    Pow2Values();
    assert Pow2(Bits(w)) == 2 * Pow2(Bits(w) - 1);
    hide Pow2;
  }

  lemma {:induction false} StepsLeftAre(a: nat, n: nat, w: Width)
    requires a < Range(w)
    ensures StepsLeft(a, n, w).value == a * Pow2(n) % Range(w)
    ensures n > 0 ==> StepsLeft(a, n, w).out == Top(a * Pow2(n - 1), w)
  {
    if n == 0 {
      UniqueRemainder(a, Range(w), 0, a);
    } else {
      StepsLeftAre(a, n - 1, w);
      var x := a * Pow2(n - 1);
      assert a * Pow2(n) == 2 * x;
      EvenRange(w);
      hide Range, Top, Pow2;
      TwiceRemainder(x, Range(w));
      SameTop(x % Range(w), x, w);
    }
  }

  lemma TwiceRemainder(x: int, r: nat)
    requires r > 0
    ensures 2 * (x % r) % r == 2 * x % r && x % r % r == x % r
  {
    var q, m := x / r, x % r;
    DividedBy(x, r);
    DividedBy(2 * m, r);
    UniqueRemainder(m, r, 0, m);
    TwiceQuotient(x, r, q, m, 2 * m / r, 2 * m % r);
  }

  lemma TwiceQuotient(x: int, r: nat, q: int, m: int, t: int, u: int)
    requires r > 0 && x == q * r + m && 2 * m == t * r + u && 0 <= u < r
    ensures 2 * x % r == u
  {
    assert 2 * x == (2 * q + t) * r + u;
    UniqueRemainder(2 * x, r, 2 * q + t, u);
  }

  /** The bit that the last step to the left pushes out, in the operand. */
  lemma LeftBit(a: nat, n: nat, w: Width)
    requires a < Range(w) && 1 <= n <= 31
    ensures Top(a * Pow2(n - 1), w) == ShiftedBit(a, Bits(w) - n)
  {
    hide Pow2, Quotient;
    RangeIsPow2(w);
    if n <= Bits(w) {
      Pow2Add(Bits(w) - n, n - 1);
      BitAtTop(a, Pow2(Bits(w) - n), Pow2(n - 1), Range(w) / 2);
      EvenRange(w);
    } else {
      Pow2Add(n - 1 - Bits(w), Bits(w));
      AllOut(a, Pow2(n - 1 - Bits(w)), Range(w));
      Pow2Mono(Bits(w), 32 + Bits(w) - n);
      QuotientIs(a, Pow2(32 + Bits(w) - n), 0);
      assert (Bits(w) - n) % 32 == 32 + Bits(w) - n;
    }
  }

  lemma BitAtTop(a: nat, d: nat, e: nat, h: nat)
    requires d > 0 && e > 0 && d * e == h && h > 0
    ensures (a * e % (2 * h) >= h) == (Quotient(a, d) % 2 == 1)
  {
    hide Quotient;
    var q := Quotient(a, d);
    MulMono(q * d, a, e);
    MulMono(a, q * d + d, e);
    assert q * d * e == q * h && (q * d + d) * e == q * h + h by { Distribute(q, d, e, h); }
    ParityOfHalf(a * e, q, h);
  }

  lemma Distribute(q: nat, d: nat, e: nat, h: nat)
    requires d * e == h
    ensures q * d * e == q * h && (q * d + d) * e == q * h + h
  {
    assert q * d * e == q * (d * e);
    assert (q * d + d) * e == q * d * e + d * e;
  }

  lemma ParityOfHalf(x: nat, q: nat, h: nat)
    requires h > 0 && q * h <= x < q * h + h
    ensures (x % (2 * h) >= h) == (q % 2 == 1)
  {
    var k := q / 2;
    assert k * (2 * h) == 2 * k * h;
    if q % 2 == 1 {
      assert q == 2 * k + 1 && q * h == 2 * k * h + h;
    } else {
      assert q == 2 * k;
    }
    UniqueRemainder(x, 2 * h, k, x - k * (2 * h));
  }

  lemma AllOut(a: nat, p: nat, r: nat)
    requires r > 0
    ensures a * (p * r) % r == 0
  {
    assert a * (p * r) == a * p * r;
    UniqueRemainder(a * (p * r), r, a * p, 0);
  }

  lemma LeftGetters(m: bv32, e: bv32, a: nat, n: nat, d: nat, w: Width)
    requires m == Nth(SHL8, w)
    ensures CfBy(m, e, a, n, d) == ShiftedBit(a, Bits(w) - n)
    ensures OfBy(m, e, a, n, d) == (Top(d, w) != ShiftedBit(a, Bits(w) - n))
    ensures !AfBy(m, e, a, n, d)
  {
    hide ShiftedBit, Top;
  }

  /** After SHL by 1 to 31: the carry is the last bit pushed out, also beyond the width, and the overflow tells
      it from the sign. */
  lemma ShiftLeftFlags(s: State, a: nat, n: nat, w: Width)
    requires a < Range(w) && 1 <= n <= 31
    ensures var st := StepsLeft(a, n, w);
            && st.value == a * Pow2(n) % Range(w)
            && Shows(ShiftedLeft(s, a, n, w), st.value, w, st.out, st.out != Top(st.value, w), false)
  {
    hide CfBy, OfBy, AfBy, SignExtend, Nth, GetZf, GetSf, GetPf, Top, IsPlain, EvenOnes, Pow2, StepsLeft, ShiftedBit,
         Range;
    NthIs(SHL8, w);
    StepsLeftAre(a, n, w);
    LeftBit(a, n, w);
    var x, v := a * Pow2(n), StepsLeft(a, n, w).value;
    LeftGetters(Nth(SHL8, w), s.eflags, a, n, SignExtend(x, w), w);
    ResultFlags(ShiftedLeft(s, a, n, w), x, w);
    ResultTop(x, w);
    SameResult(x, v, w);
  }

  /** Numbers with the same low bits show the same result. */
  lemma SameResult(x: int, v: int, w: Width)
    requires v == x % Range(w)
    ensures Top(v, w) == Top(x, w) && v % Range(w) == x % Range(w) && EvenOnes(v) == EvenOnes(x)
  {
    assert Range(w) > 0 by { EvenRange(w); }
    UniqueRemainder(v, Range(w), 0, v);
    SameTop(v, x, w);
    LowByte(v, x, w);
    hide Range, Ones;
  }

  // Shifting right.

  lemma HalfOfQuotient(a: nat, d: nat)
    requires d > 0
    ensures Quotient(a, 2 * d) == Quotient(a, d) / 2
  {
    var q := Quotient(a, d);
    var k := q / 2;
    hide Quotient;
    assert k * (2 * d) == 2 * k * d && (2 * k + 1) * d == 2 * k * d + d;
    assert q == 2 * k || q == 2 * k + 1;
    QuotientIs(a, 2 * d, k);
  }

  lemma {:induction false} StepsRightAre(a: nat, n: nat, w: Width)
    ensures StepsRight(a, n, w, false).value == Quotient(a, Pow2(n))
    ensures n > 0 ==> StepsRight(a, n, w, false).out == Odd(Quotient(a, Pow2(n - 1)))
  {
    if n == 0 {
      QuotientIs(a, 1, a);
    } else {
      StepsRightAre(a, n - 1, w);
      HalfOfQuotient(a, Pow2(n - 1));
      hide Quotient, Range, Top;
    }
  }

  lemma RightGetters(m: bv32, e: bv32, a: nat, n: nat, d: nat, w: Width)
    requires m == Nth(SHR8, w)
    ensures CfBy(m, e, a, n, d) == ShiftedBit(a, n - 1)
    ensures OfBy(m, e, a, n, d) == (Top(2 * d, w) != Top(d, w))
    ensures !AfBy(m, e, a, n, d)
  {
    hide ShiftedBit, Top;
  }

  /** After SHR by 1 to 31: the carry is the last bit pushed out; the overflow is the operand's sign, for one place. */
  lemma ShiftRightFlags(s: State, a: nat, n: nat, w: Width)
    requires a < Range(w) && 1 <= n <= 31
    ensures var st := StepsRight(a, n, w, false);
            && st.value == Quotient(a, Pow2(n)) < Range(w)
            && Shows(ShiftedRight(s, a, n, w), st.value, w, st.out, n == 1 && Top(a, w), false)
  {
    hide CfBy, OfBy, AfBy, SignExtend, Nth, GetZf, GetSf, GetPf, Top, IsPlain, EvenOnes, Pow2, Quotient, StepsRight,
         Range;
    NthIs(SHR8, w);
    StepsRightAre(a, n, w);
    var x := Quotient(a, Pow2(n));
    RightGetters(Nth(SHR8, w), s.eflags, a, n, SignExtend(x, w), w);
    ResultFlags(ShiftedRight(s, a, n, w), x, w);
    assert (n - 1) % 32 == n - 1;
    SmallResult(a, n, w);
  }

  /** The quotient loses its sign bit, and the bit below it unless it is moved by one place only. */
  lemma SmallResult(a: nat, n: nat, w: Width)
    requires a < Range(w) && 1 <= n <= 31
    ensures var q := Quotient(a, Pow2(n)); var d := SignExtend(q, w);
            q < Range(w) / 2 && (Top(2 * d, w) != Top(d, w)) == (n == 1 && Top(a, w))
  {
    var q := Quotient(a, Pow2(n));
    QuotientBound(a, n);
    EvenRange(w);
    LowPart(q, w);
    UniqueRemainder(q, Range(w), 0, q);
    Extension(q, w);
    assert SignExtend(q, w) == q;
    UniqueRemainder(2 * q, Range(w), 0, 2 * q);
    WordSign(a, w);
    WordSign(q, w);
    assert Top(2 * q, w) == (2 * q >= Range(w) / 2);
    QuarterRange(w);
    hide Quotient, Pow2, SignExtend, Top, Range;
  }

  lemma QuarterRange(w: Width)
    ensures Range(w) == 4 * (Range(w) / 2 / 2) && Range(w) / 2 == 2 * (Range(w) / 2 / 2)
  {
  }

  lemma QuotientBound(a: nat, n: nat)
    requires n >= 1
    ensures n == 1 ==> Quotient(a, Pow2(n)) == a / 2
    ensures n > 1 ==> Quotient(a, Pow2(n)) <= a / 4
  {
    hide Quotient;
    if n == 1 {
      QuotientIs(a, 2, a / 2);
    } else {
      Pow2Mono(2, n);
      var q, d := Quotient(a, Pow2(n)), Pow2(n);
      hide Pow2;
      assert Pow2(2) == 4 by { Pow2Small(); }
      MulMono(4, d, q);
      assert q * d == d * q;
    }
  }

  // Shifting right with the sign kept.

  lemma UniqueQuotient(x: int, r: nat, q: int, m: int)
    requires r > 0 && x == q * r + m && 0 <= m < r
    ensures x / r == q
  {
    UniqueRemainder(x, r, q, m);
    DividedBy(x, r);
    EqualFactors(x / r, q, r);
  }

  lemma EqualFactors(x: int, y: int, r: nat)
    requires r > 0 && x * r == y * r
    ensures x == y
  {
    MulMono(x, y, r);
    MulMono(y, x, r);
  }

  lemma HalfOfFloor(x: int, d: nat)
    requires d > 0
    ensures x / (2 * d) == x / d / 2
  {
    var q := x / d;
    var k, b := q / 2, q % 2;
    DividedBy(x, d);
    HalfParts(x, d, q, k, b, x % d);
  }

  lemma HalfParts(x: int, d: nat, q: int, k: int, b: int, m: int)
    requires d > 0 && x == q * d + m && 0 <= m < d && q == 2 * k + b && 0 <= b < 2
    ensures x / (2 * d) == k
  {
    assert q * d == k * (2 * d) + b * d;
    UniqueQuotient(x, 2 * d, k, b * d + m);
  }

  /** One step with the sign kept halves the signed value, rounding down. */
  lemma SignedStep(v: nat, w: Width)
    requires v < Range(w)
    ensures var v' := v / 2 + (if Top(v, w) then Range(w) / 2 else 0);
            v' < Range(w) && Signed(v', w) == Signed(v, w) / 2 && Odd(v) == (Signed(v, w) % 2 == 1)
  {
    QuarterRange(w);
    WordSign(v, w);
    var v' := v / 2 + (if Top(v, w) then Range(w) / 2 else 0);
    WordSign(v', w);
    hide Top, Signed, Range;
  }

  lemma {:induction false} SignedStepsAre(a: nat, n: nat, w: Width)
    requires a < Range(w)
    ensures var st := StepsRight(a, n, w, true);
            st.value < Range(w) && Signed(st.value, w) == Signed(a, w) / Pow2(n)
    ensures n > 0 ==> StepsRight(a, n, w, true).out == (Signed(a, w) / Pow2(n - 1) % 2 == 1)
  {
    if n > 0 {
      SignedStepsAre(a, n - 1, w);
      SignedStep(StepsRight(a, n - 1, w, true).value, w);
      HalfOfFloor(Signed(a, w), Pow2(n - 1));
      hide Signed, Range, Top;
    }
  }

  /** The sign-extended operand has the same bits as the signed value, below bit 31. */
  lemma SignedBit(a: nat, n: nat, w: Width)
    requires a < Range(w) && 1 <= n <= 31
    ensures ShiftedBit(SignExtend(a, w), n - 1) == (Signed(a, w) / Pow2(n - 1) % 2 == 1)
  {
    hide Pow2, Signed, SignExtend, Quotient, Range;
    var x := Signed(a, w);
    SignedWord(a, w);
    WordOfPowers(n);
    LiftedQuotient(x, if x >= 0 then 0 else 1, Pow2(n - 1), Pow2(32 - n));
    assert ShiftedBit(SignExtend(a, w), n - 1) == (Quotient(SignExtend(a, w), Pow2(n - 1)) % 2 == 1);
  }

  lemma WordOfPowers(n: nat)
    requires 1 <= n <= 31
    ensures Pow2(n - 1) * (2 * Pow2(32 - n)) == W32 && (n - 1) % 32 == n - 1
  {
    hide Pow2;
    Pow2Values();
    Pow2Add(n - 1, 33 - n);
    OneMorePower(32 - n);
  }

  lemma OneMorePower(n: nat)
    ensures Pow2(n + 1) == 2 * Pow2(n)
  {
  }

  lemma SignedWord(a: nat, w: Width)
    requires a < Range(w)
    ensures SignExtend(a, w) == if Signed(a, w) >= 0 then Signed(a, w) else Signed(a, w) + W32
  {
    LowPart(a, w);
    UniqueRemainder(a, Range(w), 0, a);
    Extension(a, w);
  }

  lemma LiftedQuotient(x: int, t: nat, d: nat, d': nat)
    requires d > 0 && t <= 1 && x + t * (d * (2 * d')) >= 0
    ensures (Quotient(x + t * (d * (2 * d')), d) % 2 == 1) == (x / d % 2 == 1)
  {
    hide Quotient;
    var q := x / d;
    DividedBy(x, d);
    assert t * (d * (2 * d')) == 2 * (t * d') * d;
    var k := q + 2 * (t * d');
    assert k * d == q * d + 2 * (t * d') * d;
    if k < 0 {
      MulMono(k, -1, d);
    }
    QuotientIs(x + t * (d * (2 * d')), d, k);
    SameParity(q, t * d');
  }

  lemma SameParity(q: int, h: int)
    ensures (q + 2 * h) % 2 == q % 2
  {
  }

  lemma SignedGetters(m: bv32, e: bv32, a: nat, n: nat, d: nat, w: Width)
    requires m == Nth(SAR8, w)
    ensures CfBy(m, e, a, n, d) == ShiftedBit(a, n - 1) && !OfBy(m, e, a, n, d) && !AfBy(m, e, a, n, d)
  {
    hide ShiftedBit;
  }

  /** After SAR by 1 to 31: the carry is the last bit pushed out while the sign stays. */
  lemma ShiftSignedFlags(s: State, a: nat, n: nat, w: Width)
    requires a < Range(w) && 1 <= n <= 31
    ensures var st := StepsRight(a, n, w, true);
            && Signed(st.value, w) == Signed(a, w) / Pow2(n)
            && Shows(ShiftedSigned(s, a, n, w), st.value, w, st.out, false, false)
  {
    hide CfBy, OfBy, AfBy, SignExtend, Nth, GetZf, GetSf, GetPf, Top, IsPlain, EvenOnes, Pow2, StepsRight, ShiftedBit,
         Range, Signed;
    NthIs(SAR8, w);
    SignedStepsAre(a, n, w);
    SignedBit(a, n, w);
    var x, v := Signed(a, w) / Pow2(n), StepsRight(a, n, w, true).value;
    SignedGetters(Nth(SAR8, w), s.eflags, SignExtend(a, w), n, SignExtend(x, w), w);
    ResultFlags(ShiftedSigned(s, a, n, w), x, w);
    SignedRemainder(v, w);
    SameResult(x, v, w);
  }

  lemma SignedRemainder(v: nat, w: Width)
    requires v < Range(w)
    ensures Signed(v, w) % Range(w) == v
  {
    WordSign(v, w);
    UniqueRemainder(Signed(v, w), Range(w), if v < Range(w) / 2 then 0 else -1, v);
  }

  // --- The handlers ---

  /** The exact result of the arithmetic operations. */
  function Exact(s: State, op: nat, a: nat, b: nat): int {
    if op == 0 then a + b
    else if op == 2 then a + b + Carry(s)
    else if op == 3 then a - b - Carry(s)
    else a - b
  }

  function Bitwise(op: nat, a: nat, b: nat): nat
    requires a < W32 && b < W32
  {
    var x, y := a as bv32, b as bv32;
    (if op == 1 then x | y else if op == 4 then x & y else x ^ y) as nat
  }

  predicate IsLogical(op: nat) { op == 1 || op == 4 || op == 6 }

  /** What cpu_arith8, cpu_arith16 and cpu_arith32 leave for the low three bits of the opcode; the last code changes
      nothing. */
  function Arithmetic(s: State, op: nat, a: nat, b: nat, w: Width): State
    requires a < Range(w) && b < Range(w)
  {
    if op == 0 then Added(s, a, b, w)
    else if op == 2 then AddedWithCarry(s, a, b, w)
    else if op == 3 then SubtractedWithBorrow(s, a, b, w)
    else if op == 5 then Subtracted(s, a, b, w)
    else if IsLogical(op) then Combined(s, Bitwise(op, a, b), w)
    else s
  }

  /** What all six flags read after the operation with code `k`, whose result is `r`. */
  ghost predicate Reads(s: State, f: State, k: nat, a: nat, b: nat, r: nat, w: Width) {
    var x, c := Exact(s, k, a, b), Carry(s);
    if k == 7 then f == s
    else if IsLogical(k) then Shows(f, r, w, false, false, false)
    else if k == 0 then
      Shows(f, x, w, x >= Range(w), !Fits(Signed(a, w) + Signed(b, w), w), a % 16 + b % 16 >= 16)
    else if k == 2 then
      Shows(f, x, w, x >= Range(w), !Fits(Signed(a, w) + Signed(b, w) + c, w), a % 16 + b % 16 + c >= 16)
    else if k == 3 then
      Shows(f, x, w, x < 0, !Fits(Signed(a, w) - Signed(b, w) - c, w), a % 16 < b % 16 + c)
    else
      Shows(f, x, w, x < 0, !Fits(Signed(a, w) - Signed(b, w), w), a % 16 < b % 16)
  }

  lemma ArithmeticReads(s: State, k: nat, a: nat, b: nat, w: Width)
    requires a < Range(w) && b < Range(w) && k < 8
    ensures Reads(s, Arithmetic(s, k, a, b, w), k, a, b, if IsLogical(k) then Bitwise(k, a, b) else 0, w)
  {
    hide Shows, Added, AddedWithCarry, SubtractedWithBorrow, Subtracted, Combined, Fits, Signed, Bitwise, Carry;
    if k == 0 {
      AddFlags(s, a, b, w);
    } else if k == 2 {
      AddCarryFlags(s, a, b, w);
    } else if k == 3 {
      SubtractBorrowFlags(s, a, b, w);
    } else if k == 5 {
      SubtractFlags(s, a, b, w);
    } else if k != 7 {
      CombineFlags(s, Bitwise(k, a, b), w);
    }
  }

  /** ADD, OR, ADC, SBB, AND, SUB and XOR: the new destination, and what all six flags then read. */
  method Arith(f: Flags, op: nat, dest: nat, src: nat, w: Width) returns (r: nat)
    requires dest < Range(w) && src < Range(w)
    modifies f
    ensures f.View() == Arithmetic(old(f.View()), op % 8, dest, src, w)
    ensures r == if op % 8 == 7 then dest
                 else if IsLogical(op % 8) then Bitwise(op % 8, dest, src)
                 else Exact(old(f.View()), op % 8, dest, src) % Range(w)
    ensures Reads(old(f.View()), f.View(), op % 8, dest, src, if IsLogical(op % 8) then r else 0, w)
  {
    hide SignExtend, Nth, SubMethod, Bitwise, GetCf, Reads;
    var k := op % 8;
    ArithmeticReads(f.View(), k, dest, src, w);
    r := dest;
    if k == 0 {
      f.lop2 := src;
      r := (dest + src) % Range(w);
      f.lr := SignExtend(dest + src, w);
      f.laux := Nth(ADD8, w);
    } else if k == 2 {
      var oldCf := if GetCf(State(f.eflags, f.laux, f.lop1, f.lop2, f.lr)) then 1 else 0;
      f.lop1, f.lop2 := dest, src;
      r := (dest + src + oldCf) % Range(w);
      f.lr := SignExtend(dest + src + oldCf, w);
      f.laux := Nth(ADC8, w);
    } else if k == 3 {
      var oldCf := if GetCf(State(f.eflags, f.laux, f.lop1, f.lop2, f.lr)) then 1 else 0;
      f.lop1, f.lop2 := dest, src;
      r := (dest - src - oldCf) % Range(w);
      f.lr := SignExtend(dest - src - oldCf, w);
      f.laux := Nth(SBB8, w);
    } else if k == 5 {
      f.lop2 := src;
      r := (dest - src) % Range(w);
      f.lr := SignExtend(dest - src, w);
      f.laux := SubMethod(w);
    } else if k != 7 {
      r := Bitwise(k, dest, src);
      f.lr := SignExtend(r, w);
      f.laux := BIT;
    }
  }

  /** The carry stored where INC and DEC read it from. */
  method StoreCarry(f: Flags)
    modifies f`eflags
    ensures f.eflags == With(old(f.eflags), CF, GetCf(old(f.View())))
  {
    hide GetCf;
    f.eflags := With(f.eflags, CF, GetCf(State(f.eflags, f.laux, f.lop1, f.lop2, f.lr)));
  }

  method Increment(f: Flags, dest: nat, w: Width) returns (r: nat)
    requires dest < Range(w)
    modifies f
    ensures r == (dest + 1) % Range(w)
    ensures Shows(f.View(), dest + 1, w, GetCf(old(f.View())), !Fits(Signed(dest, w) + 1, w), dest % 16 + 1 >= 16)
  {
    hide Shows, SignExtend, Nth, Fits, Signed, GetCf, With;
    IncrementFlags(f.View(), dest, w);
    StoreCarry(f);
    r := (dest + 1) % Range(w);
    f.lr := SignExtend(dest + 1, w);
    f.laux := Nth(INC8, w);
  }

  method Decrement(f: Flags, dest: nat, w: Width) returns (r: nat)
    requires dest < Range(w)
    modifies f
    ensures r == (dest - 1) % Range(w)
    ensures Shows(f.View(), dest - 1, w, GetCf(old(f.View())), !Fits(Signed(dest, w) - 1, w), dest % 16 < 1)
  {
    hide Shows, SignExtend, Nth, Fits, Signed, GetCf, With;
    DecrementFlags(f.View(), dest, w);
    StoreCarry(f);
    r := (dest - 1) % Range(w);
    f.lr := SignExtend(dest - 1, w);
    f.laux := Nth(DEC8, w);
  }

  /** NEG reads as subtracting from zero. */
  method Negate(f: Flags, dest: nat, w: Width) returns (r: nat)
    requires dest < Range(w)
    modifies f
    ensures r == (0 - dest) % Range(w)
    ensures Shows(f.View(), 0 - dest, w, dest != 0, !Fits(-Signed(dest, w), w), dest % 16 != 0)
  {
    ghost var s := f.View();
    f.lop2 := dest;
    r := (0 - dest) % Range(w);
    f.lr := SignExtend(0 - dest, w);
    f.laux := SubMethod(w);
    assert f.View() == Subtracted(s, 0, dest, w);
    SubtractFlags(s, 0, dest, w);
    NoSign(w);
    hide Shows, SignExtend, SubMethod, Fits, Signed;
  }

  lemma NoSign(w: Width)
    ensures Signed(0, w) == 0 && 0 < Range(w)
  {
  }

  /** MUL: both halves of the product. */
  method Multiply(f: Flags, accumulator: nat, src: nat, w: Width) returns (low: nat, high: nat)
    requires accumulator < Range(w) && src < Range(w)
    modifies f
    ensures low < Range(w) && high < Range(w) && high * Range(w) + low == accumulator * src
    ensures Shows(f.View(), accumulator * src, w, high != 0, high != 0, false)
  {
    ghost var s := f.View();
    MulMono(0, accumulator, src);
    var p := accumulator * src;
    ProductHalves(accumulator, src, w);
    low, high := p % Range(w), p / Range(w);
    f.lop1, f.lop2 := 0, high;
    f.lr := SignExtend(p, w);
    f.laux := MUL;
    assert f.View() == Multiplied(s, accumulator, src, w);
    MultiplyFlags(s, accumulator, src, w);
    hide Shows, SignExtend;
  }

  lemma ProductHalves(a: nat, b: nat, w: Width)
    requires a < Range(w) && b < Range(w)
    ensures var p := a * b; var r := Range(w);
            0 <= p / r < r && 0 <= p % r < r && p / r * r + p % r == p && (p >= r <==> p / r != 0)
  {
    EvenRange(w);
    var r := Range(w);
    hide Range;
    MulMono(a, r - 1, b);
    MulMono(b, r - 1, r);
    assert (r - 1) * b == b * r - b by { Less(b, r); }
    MulMono(0, a, b);
    DividedBy(a * b, r);
    HighPart(a * b, r);
    if a * b / r >= r {
      MulMono(r, a * b / r, r);
    }
    assert (r - 1) * r == r * r - r by { Less(r, r); }
  }

  lemma Less(b: nat, r: nat)
    ensures (r - 1) * b == b * r - b
  {
  }

  /** IMUL with one, two or three operands: the low half is the product's, and the carry tells whether the signed
      product is lost. */
  method SignedMultiply(f: Flags, op1: nat, op2: nat, w: Width) returns (low: nat, high: nat)
    requires op1 < Range(w) && op2 < Range(w)
    modifies f
    ensures var p := Signed(op1, w) * Signed(op2, w);
            && low < Range(w) && high < Range(w) && Signed(high, w) * Range(w) + low == p
            && Shows(f.View(), p, w, !Fits(p, w), !Fits(p, w), false)
  {
    ghost var s := f.View();
    var p := Signed(op1, w) * Signed(op2, w);
    SignedHalves(op1, op2, w);
    low, high := p % Range(w), p / Range(w) % Range(w);
    f.lop1 := if Top(p, w) then W32 - 1 else 0;
    f.lop2 := SignExtend(p / Range(w), w);
    f.lr := SignExtend(p, w);
    f.laux := MUL;
    assert f.View() == SignedMultiplied(s, op1, op2, w);
    SignedMultiplyFlags(s, op1, op2, w);
    hide Shows, SignExtend, Signed, Top;
  }

  lemma SignedHalves(a: nat, b: nat, w: Width)
    ensures var p := Signed(a, w) * Signed(b, w); var r := Range(w);
            0 <= p % r < r && 0 <= p / r % r < r && Signed(p / r % r, w) * r + p % r == p
  {
    ProductBound(a, b, w);
    EvenRange(w);
    var p, r := Signed(a, w) * Signed(b, w), Range(w);
    hide Range, Signed;
    DividedBy(p, r);
    HighBound(p, p / r, p % r, r, r / 2);
    SignedOfRest(p / r, w);
  }

  lemma SignedOfRest(q: int, w: Width)
    requires -(Range(w) / 2) <= q < Range(w) / 2
    ensures Range(w) > 0 && 0 <= q % Range(w) < Range(w) && Signed(q % Range(w), w) == q
  {
    EvenRange(w);
    UniqueRemainder(q, Range(w), if q >= 0 then 0 else -1, if q >= 0 then q else q + Range(w));
    WordSign(q % Range(w), w);
    hide Range, Signed;
  }

  /** SHL, SHR and SAR by a count: the operation codes 4 to 7 of cpu_shift8, cpu_shift16 and cpu_shift32, of which 6
      is 4 again. A count that is a multiple of 32 changes nothing. */
  method Shift(f: Flags, op: nat, dest: nat, src: nat, w: Width) returns (r: nat)
    requires dest < Range(w) && 4 <= op % 8
    modifies f
    ensures src % 32 == 0 ==> r == dest && f.View() == old(f.View())
    ensures src % 32 != 0 ==>
              var k, n := op % 8, src % 32;
              var st := if k == 5 then StepsRight(dest, n, w, false)
                        else if k == 7 then StepsRight(dest, n, w, true)
                        else StepsLeft(dest, n, w);
              && r == st.value
              && Shows(f.View(), r, w, st.out,
                       if k == 5 then n == 1 && Top(dest, w) else k != 7 && st.out != Top(r, w), false)
  {
    ghost var s := f.View();
    var k, n := op % 8, src % 32;
    r := dest;
    hide Shows, SignExtend, Nth, Signed, Top, StepsLeft, StepsRight, Quotient, Pow2;
    if n == 0 {
    } else if k == 5 {
      f.lop1, f.lop2 := dest, n;
      r := Quotient(dest, Pow2(n));
      f.lr := SignExtend(r, w);
      f.laux := Nth(SHR8, w);
      ShiftRightFlags(s, dest, n, w);
    } else if k == 7 {
      f.lop1, f.lop2 := SignExtend(dest, w), n;
      r := Signed(dest, w) / Pow2(n) % Range(w);
      f.lr := SignExtend(Signed(dest, w) / Pow2(n), w);
      f.laux := Nth(SAR8, w);
      ShiftSignedFlags(s, dest, n, w);
      SignedStepsAre(dest, n, w);
      SignedRemainder(StepsRight(dest, n, w, true).value, w);
    } else {
      f.lop1, f.lop2 := dest, n;
      r := dest * Pow2(n) % Range(w);
      f.lr := SignExtend(dest * Pow2(n), w);
      f.laux := Nth(SHL8, w);
      ShiftLeftFlags(s, dest, n, w);
    }
  }
}
