/** Lazily evaluated flags (src/halfix/eflags.c): OF, SF, ZF, AF, PF and CF are recomputed on demand from
    the last operands and result and from the method in the low bits of `laux`. The flag words are
    bit-vectors; operands and results are numbers below 2^32, of which single bits are read. */
module Eflags {
  import opened Words

  const CF: bv32 := 0x1
  const PF: bv32 := 0x4
  const AF: bv32 := 0x10
  const ZF: bv32 := 0x40
  const SF: bv32 := 0x80
  const OF: bv32 := 0x800
  const VALID: bv32 := 0x3F_7FD5
  const ARITH: bv32 := 0x8D5
  const METHOD: bv32 := 63

  // The methods, by their place in the source's enumeration; a 16-bit method stands between its neighbours.
  const ADD8: bv32 := 0
  const ADD32: bv32 := 2
  const BIT: bv32 := 3
  const ADC8: bv32 := 4
  const ADC32: bv32 := 6
  const SBB8: bv32 := 7
  const SBB32: bv32 := 9
  const SUB8: bv32 := 10
  const SUB16: bv32 := 11
  const SUB32: bv32 := 12
  const SHL8: bv32 := 13
  const SHL16: bv32 := 14
  const SHL32: bv32 := 15
  const SHR8: bv32 := 16
  const SHR32: bv32 := 18
  const SAR8: bv32 := 19
  const SAR32: bv32 := 21
  const SHLD16: bv32 := 22
  const SHLD32: bv32 := 23
  const SHRD16: bv32 := 24
  const SHRD32: bv32 := 25
  const MUL: bv32 := 26
  const INC8: bv32 := 27
  const INC32: bv32 := 29
  const DEC8: bv32 := 30
  const DEC32: bv32 := 32
  const FULL: bv32 := 33

  datatype State = State(eflags: bv32, laux: bv32, lop1: nat, lop2: nat, lr: nat)

  function Method(s: State): bv32 { s.laux & METHOD }

  /** Bit `n` of a flag word. */
  predicate Bit(x: bv32, n: bv32) { (x >> (n & 31)) & 1 == 1 }

  datatype Width = Byte | Half | Full

  /** The number of words of a width. */
  function Range(w: Width): nat {
    match w case Byte => 0x100 case Half => 0x1_0000 case Full => W32
  }

  /** The sign bit of a number's low byte, low half or whole. */
  predicate Top(x: int, w: Width) { x % Range(w) >= Range(w) / 2 }

  /** Bit 4, the carry out of the low nibble. */
  predicate Fifth(x: int) { x % 32 >= 16 }

  /** The bit at a shift distance, which the hardware takes modulo 32. */
  predicate ShiftedBit(x: nat, distance: int) { Quotient(x, Pow2(distance % 32)) % 2 == 1 }

  // --- The getters ---

  predicate GetZf(s: State) { s.lr == 0 }

  predicate GetSf(s: State) { Top(s.lr, Full) != Bit(s.laux, 31) }

  predicate Odd(x: nat) { x % 2 == 1 }

  /** The exclusive or of two nibbles. */
  function Xor4(x: nat, y: nat): nat {
    (if Odd(x) != Odd(y) then 1 else 0) + (if Odd(x / 2) != Odd(y / 2) then 2 else 0)
    + (if Odd(x / 4) != Odd(y / 4) then 4 else 0) + (if Odd(x / 8) != Odd(y / 8) then 8 else 0)
  }

  /** The table 0x9669: its bit `v` is set. */
  predicate InTable(v: nat) { v in {0, 3, 5, 6, 9, 10, 12, 15} }

  /** The low byte of the result, its bit 7 flipped by bit 7 of `laux`, folded to a nibble. */
  function Folded(lr: nat, flip: bool): nat {
    Xor4(lr % 16, if flip then Xor4(lr / 16 % 16, 8) else lr / 16 % 16)
  }

  predicate GetPf(s: State) { InTable(Folded(s.lr, Bit(s.laux, 7))) }

  /** The width of a method, by its position among three. */
  function WidthOf(m: bv32, first: bv32): Width {
    if m == first then Byte else if m == first + 1 then Half else Full
  }

  /** Carry by method `m`, from the stored flags, the operands and the result. */
  predicate CfBy(m: bv32, eflags: bv32, lop1: nat, lop2: nat, lr: nat) {
    if m == MUL then lop1 != lop2
    else if ADD8 <= m <= ADD32 then var w := Range(WidthOf(m, ADD8)); lr % w < lop2 % w
    else if SUB8 <= m <= SUB32 then lop2 > (lop2 + lr) % W32 % Range(WidthOf(m, SUB8))
    else if ADC8 <= m <= ADC32 then
      var w := WidthOf(m, ADC8);
      Top(lop1, w) != ((Top(lop1, w) != Top(lop2, w)) && (Top(lop2, w) != Top(lr, w)))
    else if SBB8 <= m <= SBB32 then
      var w := WidthOf(m, SBB8);
      Top(lr, w) != ((Top(lr, w) != Top(lop2, w)) && (Top(lop1, w) != Top(lop2, w)))
    else if SHR8 <= m <= SAR32 || m == SHRD16 || m == SHRD32 then ShiftedBit(lop1, lop2 - 1)
    else if m == SHL8 then ShiftedBit(lop1, 8 - lop2 as int)
    else if m == SHL16 || (m == SHLD16 && lop2 <= 16) then ShiftedBit(lop1, 16 - lop2 as int)
    else if m == SHL32 || m == SHLD16 || m == SHLD32 then ShiftedBit(lop1, 32 - lop2 as int)
    else if m == BIT then false
    else Bit(eflags, 0)
  }

  predicate OfBy(m: bv32, eflags: bv32, lop1: nat, lop2: nat, lr: nat) {
    if m == MUL then lop1 != lop2
    else if m == BIT || SAR8 <= m <= SAR32 then false
    else if ADD8 <= m <= ADD32 then
      var first, w := (lr - lop2) % W32, WidthOf(m, ADD8);
      Top(first, w) == Top(lop2, w) && Top(lop2, w) != Top(lr, w)
    else if SUB8 <= m <= SUB32 then
      var first, w := (lop2 + lr) % W32, WidthOf(m, SUB8);
      Top(first, w) != Top(lop2, w) && Top(first, w) != Top(lr, w)
    else if ADC8 <= m <= ADC32 then
      var w := WidthOf(m, ADC8);
      Top(lop1, w) != Top(lr, w) && Top(lop2, w) != Top(lr, w)
    else if SBB8 <= m <= SBB32 then
      var w := WidthOf(m, SBB8);
      Top(lr, w) != Top(lop1, w) && Top(lop2, w) != Top(lop1, w)
    else if m == SHL8 then Top(lr, Byte) != ShiftedBit(lop1, 8 - lop2 as int)
    else if m == SHL16 then Top(lr, Half) != ShiftedBit(lop1, 16 - lop2 as int)
    else if m == SHL32 then Top(lr, Full) != ShiftedBit(lop1, 32 - lop2 as int)
    else if SHR8 <= m <= SHR32 then Top(2 * lr, WidthOf(m, SHR8)) != Top(lr, WidthOf(m, SHR8))
    else if m == SHLD16 then CfBy(m, eflags, lop1, lop2, lr) != Top(lr, Half)
    else if m == SHLD32 then CfBy(m, eflags, lop1, lop2, lr) != Top(lr, Full)
    else if m == SHRD16 then Top(2 * lr, Half) != Top(lr, Half)
    else if m == SHRD32 then Top(2 * lr, Full) != Top(lr, Full)
    else if INC8 <= m <= INC32 then var w := Range(WidthOf(m, INC8)); lr % w == w / 2
    else if DEC8 <= m <= DEC32 then var w := Range(WidthOf(m, DEC8)); lr % w == w / 2 - 1
    else Bit(eflags, 11)
  }

  predicate AfBy(m: bv32, eflags: bv32, lop1: nat, lop2: nat, lr: nat) {
    if m == BIT || m == MUL || SHL8 <= m <= SHRD32 then false
    else if ADD8 <= m <= ADD32 then (Fifth(lr - lop2) != Fifth(lop2)) != Fifth(lr)
    else if SUB8 <= m <= SUB32 then (Fifth(lr + lop2) != Fifth(lop2)) != Fifth(lr)
    else if ADC8 <= m <= SBB32 then (Fifth(lop1) != Fifth(lop2)) != Fifth(lr)
    else if INC8 <= m <= INC32 then lr % 16 == 0
    else if DEC8 <= m <= DEC32 then lr % 16 == 15
    else Bit(eflags, 4)
  }

  predicate GetCf(s: State) { CfBy(Method(s), s.eflags, s.lop1, s.lop2, s.lr) }

  predicate GetOf(s: State) { OfBy(Method(s), s.eflags, s.lop1, s.lop2, s.lr) }

  predicate GetAf(s: State) { AfBy(Method(s), s.eflags, s.lop1, s.lop2, s.lr) }

  function Flag(set_: bool, mask: bv32): bv32 { if set_ then mask else 0 }

  function Assemble(e: bv32, of: bool, sf: bool, zf: bool, af: bool, pf: bool, cf: bool): bv32 {
    (e & !ARITH) | Flag(of, OF) | Flag(sf, SF) | Flag(zf, ZF) | Flag(af, AF) | Flag(pf, PF) | Flag(cf, CF)
  }

  /** cpu_get_eflags: the flags as the guest sees them. */
  function GetEflags(s: State): bv32 {
    Assemble(s.eflags, GetOf(s), GetSf(s), GetZf(s), GetAf(s), GetPf(s), GetCf(s))
  }

  /** `e` with the bit of `mask` set or cleared. */
  function With(e: bv32, mask: bv32, set_: bool): bv32 { (e & !mask) | Flag(set_, mask) }

  /** The six conditions' flags as bits of the flags word. */
  lemma EflagsBits(s: State)
    ensures GetEflags(s) & !ARITH == s.eflags & !ARITH
    ensures Bit(GetEflags(s), 11) == GetOf(s) && Bit(GetEflags(s), 7) == GetSf(s) && Bit(GetEflags(s), 6) == GetZf(s)
    ensures Bit(GetEflags(s), 4) == GetAf(s) && Bit(GetEflags(s), 2) == GetPf(s) && Bit(GetEflags(s), 0) == GetCf(s)
  {
    hide GetOf, GetSf, GetZf, GetAf, GetPf, GetCf;
  }

  // --- What a full update leaves to each getter ---

  /** Once the method is FULL, OF, AF and CF are read from `eflags`. */
  lemma FullGetters(s: State)
    requires Method(s) == FULL
    ensures GetOf(s) == Bit(s.eflags, 11) && GetAf(s) == Bit(s.eflags, 4) && GetCf(s) == Bit(s.eflags, 0)
  {
  }

  /** A flag word with OF, AF and CF stored into it. */
  function Stored(e: bv32, of: bool, af: bool, cf: bool): bv32 {
    (e & !(OF | AF | CF)) | (Flag(of, OF) | Flag(af, AF) | Flag(cf, CF))
  }

  function WithFull(laux: bv32): bv32 { (laux & !METHOD) | FULL }

  /** cpu_get_oac stores the three flags; then one is forced and the method becomes FULL. */
  function Forced(s: State, mask: bv32, set_: bool): State {
    s.(eflags := With(Stored(s.eflags, GetOf(s), GetAf(s), GetCf(s)), mask, set_), laux := WithFull(s.laux))
  }

  /** Forcing OF, AF or CF changes exactly that flag of the guest's view. */
  lemma ForcedIs(s: State, mask: bv32, set_: bool)
    requires mask in {OF, AF, CF}
    ensures GetEflags(Forced(s, mask, set_)) == With(GetEflags(s), mask, set_)
  {
    hide GetOf, GetSf, GetZf, GetAf, GetPf, GetCf, With, Forced, Assemble;
    ForcedView(s, mask, set_);
    ForcedAssembled(s.eflags, GetOf(s), GetSf(s), GetZf(s), GetAf(s), GetPf(s), GetCf(s), mask, set_);
  }

  lemma ForcedView(s: State, mask: bv32, set_: bool)
    requires mask in {OF, AF, CF}
    ensures GetEflags(Forced(s, mask, set_))
            == Assemble(s.eflags, if mask == OF then set_ else GetOf(s), GetSf(s), GetZf(s),
                        if mask == AF then set_ else GetAf(s), GetPf(s), if mask == CF then set_ else GetCf(s))
  {
    hide GetOf, GetSf, GetZf, GetAf, GetPf, GetCf, Bit, With, Flag, Method, Forced, Assemble, ForcedFlags, SameSigns,
         SameOthers;
    var f := Forced(s, mask, set_);
    ForcedParts(s, mask, set_);
    FullGetters(f);
    SameSignParity(s, f);
    ForcedBits(s.eflags, GetOf(s), GetAf(s), GetCf(s), mask, set_);
    SameRest(f.eflags, s.eflags, GetOf(f), GetSf(f), GetZf(f), GetAf(f), GetPf(f), GetCf(f));
  }

  lemma ForcedAssembled(e: bv32, of: bool, sf: bool, zf: bool, af: bool, pf: bool, cf: bool, mask: bv32, set_: bool)
    requires mask in {OF, AF, CF}
    ensures Assemble(e, if mask == OF then set_ else of, sf, zf, if mask == AF then set_ else af, pf,
            if mask == CF then set_ else cf)
            == With(Assemble(e, of, sf, zf, af, pf, cf), mask, set_)
  {
    hide Assemble, With;
    if mask == OF {
      WithOF(e, of, sf, zf, af, pf, cf, set_);
    } else if mask == AF {
      WithAF(e, of, sf, zf, af, pf, cf, set_);
    } else {
      WithCF(e, of, sf, zf, af, pf, cf, set_);
    }
  }

  /** The bits of `laux` that correct SF and PF are the same. */
  predicate SameSigns(x: bv32, y: bv32) { x & 0x8000_0080 == y & 0x8000_0080 }

  /** The flags besides the six arithmetic ones are the same. */
  predicate SameOthers(x: bv32, y: bv32) { x & !ARITH == y & !ARITH }

  lemma ForcedParts(s: State, mask: bv32, set_: bool)
    ensures var f := Forced(s, mask, set_);
            && Method(f) == FULL && f.lr == s.lr && SameSigns(f.laux, s.laux)
            && f.eflags == ForcedFlags(s.eflags, GetOf(s), GetAf(s), GetCf(s), mask, set_)
  {
    hide OfBy, AfBy, CfBy, With, Stored, WithFull, ForcedFlags, SameSigns;
    MethodIsFull(s.laux);
    ForcedIsStored(s.eflags, GetOf(s), GetAf(s), GetCf(s), mask, set_);
  }

  lemma SameRest(e: bv32, e': bv32, of: bool, sf: bool, zf: bool, af: bool, pf: bool, cf: bool)
    requires SameOthers(e, e')
    ensures Assemble(e, of, sf, zf, af, pf, cf) == Assemble(e', of, sf, zf, af, pf, cf)
  {
    hide Flag;
  }

  lemma MethodIsFull(laux: bv32)
    ensures WithFull(laux) & METHOD == FULL && SameSigns(WithFull(laux), laux)
  {
  }

  lemma SameSignParity(s: State, f: State)
    requires f.lr == s.lr && SameSigns(f.laux, s.laux)
    ensures GetSf(f) == GetSf(s) && GetPf(f) == GetPf(s) && GetZf(f) == GetZf(s)
  {
    SameLauxBits(f.laux, s.laux);
    hide Bit, Top, InTable, Folded;
  }

  lemma SameLauxBits(x: bv32, y: bv32)
    requires SameSigns(x, y)
    ensures Bit(x, 31) == Bit(y, 31) && Bit(x, 7) == Bit(y, 7)
  {
  }

  /** OF, AF and CF of the word that forcing stores. */
  function ForcedFlags(eflags: bv32, of: bool, af: bool, cf: bool, mask: bv32, set_: bool): bv32 {
    With((eflags & !(OF | AF | CF)) | (Flag(of, OF) | Flag(af, AF) | Flag(cf, CF)), mask, set_)
  }

  lemma ForcedBits(eflags: bv32, of: bool, af: bool, cf: bool, mask: bv32, set_: bool)
    requires mask in {OF, AF, CF}
    ensures var e := ForcedFlags(eflags, of, af, cf, mask, set_);
            && Bit(e, 11) == (if mask == OF then set_ else of)
            && Bit(e, 4) == (if mask == AF then set_ else af)
            && Bit(e, 0) == (if mask == CF then set_ else cf)
            && SameOthers(e, eflags)
  {
  }

  lemma ForcedIsStored(eflags: bv32, of: bool, af: bool, cf: bool, mask: bv32, set_: bool)
    ensures ForcedFlags(eflags, of, af, cf, mask, set_) == With(Stored(eflags, of, af, cf), mask, set_)
  {
    hide With, Flag;
  }

  lemma WithOF(e: bv32, of: bool, sf: bool, zf: bool, af: bool, pf: bool, cf: bool, set_: bool)
    ensures Assemble(e, set_, sf, zf, af, pf, cf) == With(Assemble(e, of, sf, zf, af, pf, cf), OF, set_)
  {
    FlagsSeparate(e, of, sf, zf, af, pf, cf);
    hide Flag, Separate;
    Replace1(e & !ARITH, Flag(of, OF), Flag(sf, SF), Flag(zf, ZF), Flag(af, AF), Flag(pf, PF), Flag(cf, CF),
        Flag(set_, OF));
  }

  lemma WithSF(e: bv32, of: bool, sf: bool, zf: bool, af: bool, pf: bool, cf: bool, set_: bool)
    ensures Assemble(e, of, set_, zf, af, pf, cf) == With(Assemble(e, of, sf, zf, af, pf, cf), SF, set_)
  {
    FlagsSeparate(e, of, sf, zf, af, pf, cf);
    hide Flag, Separate;
    Replace2(e & !ARITH, Flag(of, OF), Flag(sf, SF), Flag(zf, ZF), Flag(af, AF), Flag(pf, PF), Flag(cf, CF),
        Flag(set_, SF));
  }

  lemma WithAF(e: bv32, of: bool, sf: bool, zf: bool, af: bool, pf: bool, cf: bool, set_: bool)
    ensures Assemble(e, of, sf, zf, set_, pf, cf) == With(Assemble(e, of, sf, zf, af, pf, cf), AF, set_)
  {
    FlagsSeparate(e, of, sf, zf, af, pf, cf);
    hide Flag, Separate;
    Replace4(e & !ARITH, Flag(of, OF), Flag(sf, SF), Flag(zf, ZF), Flag(af, AF), Flag(pf, PF), Flag(cf, CF),
        Flag(set_, AF));
  }

  lemma WithPF(e: bv32, of: bool, sf: bool, zf: bool, af: bool, pf: bool, cf: bool, set_: bool)
    ensures Assemble(e, of, sf, zf, af, set_, cf) == With(Assemble(e, of, sf, zf, af, pf, cf), PF, set_)
  {
    FlagsSeparate(e, of, sf, zf, af, pf, cf);
    hide Flag, Separate;
    Replace5(e & !ARITH, Flag(of, OF), Flag(sf, SF), Flag(zf, ZF), Flag(af, AF), Flag(pf, PF), Flag(cf, CF),
        Flag(set_, PF));
  }

  lemma WithCF(e: bv32, of: bool, sf: bool, zf: bool, af: bool, pf: bool, cf: bool, set_: bool)
    ensures Assemble(e, of, sf, zf, af, pf, set_) == With(Assemble(e, of, sf, zf, af, pf, cf), CF, set_)
  {
    FlagsSeparate(e, of, sf, zf, af, pf, cf);
    hide Flag, Separate;
    Replace6(e & !ARITH, Flag(of, OF), Flag(sf, SF), Flag(zf, ZF), Flag(af, AF), Flag(pf, PF), Flag(cf, CF),
        Flag(set_, CF));
  }

  lemma FlagsSeparate(e: bv32, of: bool, sf: bool, zf: bool, af: bool, pf: bool, cf: bool)
    ensures Separate(e & !ARITH, Flag(of, OF), Flag(sf, SF), Flag(zf, ZF), Flag(af, AF), Flag(pf, PF), Flag(cf, CF))
  {
  }

  /** Six words of one bit each over a word without those bits. */
  ghost predicate Separate(x: bv32, o: bv32, s: bv32, z: bv32, a: bv32, p: bv32, c: bv32) {
    x & ARITH == 0 && o & !OF == 0 && s & !SF == 0 && z & !ZF == 0 && a & !AF == 0 && p & !PF == 0 && c & !CF == 0
  }

  lemma Replace1(x: bv32, o: bv32, s: bv32, z: bv32, a: bv32, p: bv32, c: bv32, f: bv32)
    requires Separate(x, o, s, z, a, p, c)
    ensures ((x | o | s | z | a | p | c) & !OF) | f == x | f | s | z | a | p | c
  {
  }

  lemma Replace2(x: bv32, o: bv32, s: bv32, z: bv32, a: bv32, p: bv32, c: bv32, f: bv32)
    requires Separate(x, o, s, z, a, p, c)
    ensures ((x | o | s | z | a | p | c) & !SF) | f == x | o | f | z | a | p | c
  {
  }

  lemma Replace4(x: bv32, o: bv32, s: bv32, z: bv32, a: bv32, p: bv32, c: bv32, f: bv32)
    requires Separate(x, o, s, z, a, p, c)
    ensures ((x | o | s | z | a | p | c) & !AF) | f == x | o | s | z | f | p | c
  {
  }

  lemma Replace5(x: bv32, o: bv32, s: bv32, z: bv32, a: bv32, p: bv32, c: bv32, f: bv32)
    requires Separate(x, o, s, z, a, p, c)
    ensures ((x | o | s | z | a | p | c) & !PF) | f == x | o | s | z | a | f | c
  {
  }

  lemma Replace6(x: bv32, o: bv32, s: bv32, z: bv32, a: bv32, p: bv32, c: bv32, f: bv32)
    requires Separate(x, o, s, z, a, p, c)
    ensures ((x | o | s | z | a | p | c) & !CF) | f == x | o | s | z | a | p | f
  {
  }

  // --- cpu_set_sf and cpu_set_pf ---

  function WithSign(laux: bv32, set_: bool): bv32 { (laux & !0x8000_0000) | Flag(set_, 0x8000_0000) }

  function SignForced(s: State, set_: bool): State {
    s.(laux := WithSign(s.laux, Top(s.lr, Full) != set_))
  }

  lemma SignForcedIs(s: State, set_: bool)
    ensures GetEflags(SignForced(s, set_)) == With(GetEflags(s), SF, set_)
  {
    hide OfBy, AfBy, CfBy, Bit, With, Flag, Assemble, Top, InTable, Folded, Method;
    var f := SignForced(s, set_);
    SignBits(s.laux, Top(s.lr, Full) != set_);
    assert GetSf(f) == set_ && GetPf(f) == GetPf(s) && GetZf(f) == GetZf(s);
    SameMethod(s, f);
    WithSF(s.eflags, GetOf(s), GetSf(s), GetZf(s), GetAf(s), GetPf(s), GetCf(s), set_);
  }

  lemma SignBits(laux: bv32, set_: bool)
    ensures var l := WithSign(laux, set_);
            Bit(l, 31) == set_ && Bit(l, 7) == Bit(laux, 7) && l & METHOD == laux & METHOD
  {
  }

  lemma SameMethod(s: State, f: State)
    requires f == s.(laux := f.laux) && f.laux & METHOD == s.laux & METHOD
    ensures GetOf(f) == GetOf(s) && GetAf(f) == GetAf(s) && GetCf(f) == GetCf(s)
  {
    hide OfBy, AfBy, CfBy;
  }

  /** `laux` with bit 7 set or cleared. */
  function WithBit7(laux: bv32, set_: bool): bv32 { (laux & !0x80) | Flag(set_, 0x80) }

  function ParityForced(s: State, set_: bool): State {
    s.(laux := WithBit7(s.laux, GetPf(s) != set_))
  }

  /** cpu_set_pf changes PF alone, to what it is asked for, exactly when bit 7 of `laux` was clear; otherwise it sets
      the opposite. */
  lemma ParityForcedIs(s: State, set_: bool)
    ensures GetEflags(ParityForced(s, set_)) == With(GetEflags(s), PF, set_) <==> !Bit(s.laux, 7)
    ensures GetPf(ParityForced(s, set_)) == (set_ != Bit(s.laux, 7))
  {
    var f := ParityForced(s, set_);
    ParityOf(s, set_);
    ParityRest(s, set_);
    EflagsBits(f);
    hide OfBy, AfBy, CfBy, Bit, With, Flag, Assemble, InTable, Folded, Method, ParityForced, GetPf;
    WithBit2(GetEflags(s), set_);
    WithPF(s.eflags, GetOf(s), GetSf(s), GetZf(s), GetAf(s), GetPf(s), GetCf(s), set_);
  }

  lemma ParityOf(s: State, set_: bool)
    ensures GetPf(ParityForced(s, set_)) == (set_ != Bit(s.laux, 7))
  {
    hide Bit, InTable, Folded, WithBit7;
    ParityFlips(s.lr);
    ParityBit(s.laux, GetPf(s) != set_);
  }

  lemma ParityRest(s: State, set_: bool)
    ensures var f := ParityForced(s, set_);
            && f.eflags == s.eflags && GetSf(f) == GetSf(s) && GetZf(f) == GetZf(s)
            && GetOf(f) == GetOf(s) && GetAf(f) == GetAf(s) && GetCf(f) == GetCf(s)
  {
    hide OfBy, AfBy, CfBy, Bit, Top, InTable, Folded, Method, WithBit7;
    BesidesBit7(s.laux, GetPf(s) != set_);
    MethodBesidesBit7(s.laux, GetPf(s) != set_);
    SameMethod(s, ParityForced(s, set_));
  }

  lemma WithBit2(e: bv32, set_: bool)
    ensures Bit(With(e, PF, set_), 2) == set_
  {
  }

  lemma ParityBit(laux: bv32, set_: bool)
    ensures Bit(WithBit7(laux, set_), 7) == set_
  {
  }

  lemma BesidesBit7(laux: bv32, set_: bool)
    ensures Bit(WithBit7(laux, set_), 31) == Bit(laux, 31)
  {
  }

  lemma MethodBesidesBit7(laux: bv32, set_: bool)
    ensures WithBit7(laux, set_) & METHOD == laux & METHOD
  {
  }

  /** Flipping bit 7 of the byte flips its parity. */
  lemma ParityFlips(lr: nat)
    ensures InTable(Folded(lr, true)) != InTable(Folded(lr, false))
  {
    TableFlips(lr % 16, lr / 16 % 16);
    hide InTable, Xor4;
  }

  lemma TableFlips(x: nat, y: nat)
    requires x < 16 && y < 16
    ensures InTable(Xor4(x, Xor4(y, 8))) != InTable(Xor4(x, y))
  {
    hide InTable, Odd;
    TopFlips(y);
    TableIsParity(Odd(x) != Odd(y), Odd(x / 2) != Odd(y / 2), Odd(x / 4) != Odd(y / 4), Odd(x / 8) != Odd(y / 8));
    TableIsParity(Odd(x) != Odd(y), Odd(x / 2) != Odd(y / 2), Odd(x / 4) != Odd(y / 4), Odd(x / 8) == Odd(y / 8));
  }

  lemma TopFlips(y: nat)
    requires y < 16
    ensures var z := Xor4(y, 8);
            Odd(z) == Odd(y) && Odd(z / 2) == Odd(y / 2) && Odd(z / 4) == Odd(y / 4) && Odd(z / 8) != Odd(y / 8)
  {
    FromBits(Odd(y), Odd(y / 2), Odd(y / 4), !Odd(y / 8));
    EightIsTop();
  }

  lemma EightIsTop()
    ensures !Odd(8) && !Odd(8 / 2) && !Odd(8 / 4) && Odd(8 / 8)
  {
  }

  lemma FromBits(a: bool, b: bool, c: bool, d: bool)
    ensures var z := (if a then 1 else 0) + (if b then 2 else 0) + (if c then 4 else 0) + (if d then 8 else 0);
            Odd(z) == a && Odd(z / 2) == b && Odd(z / 4) == c && Odd(z / 8) == d
  {
  }

  /** The table holds the nibbles with an even number of ones. */
  lemma TableIsParity(a: bool, b: bool, c: bool, d: bool)
    ensures InTable((if a then 1 else 0) + (if b then 2 else 0) + (if c then 4 else 0) + (if d then 8 else 0))
            == ((a == b) == (c == d))
  {
  }

  // --- cpu_set_eflags ---

  /** A flag word with the valid flags of another. */
  function Merged(old_: bv32, e: bv32): bv32 { (old_ & !VALID) | (e & VALID) }

  /** A result that is zero exactly if ZF is set. */
  function ZeroResult(e: bv32): nat { if e & ZF == 0 then 1 else 0 }

  /** All flags stored: ZF in the result, SF and PF as corrections in `laux`, the rest in `eflags`. */
  function Loaded(s: State, e: bv32): State {
    var eflags := Merged(s.eflags, e);
    var lr := ZeroResult(e);
    s.(eflags := eflags, lr := lr, laux := LoadedLaux(e, Bit(eflags, 2) == (lr == 1)))
  }

  /** SF goes to bit 31; `flip`, the exclusive or of PF, the result and 1, to bit 7. */
  function LoadedLaux(e: bv32, flip: bool): bv32 { FULL | ((e & SF) << 24) | Flag(flip, 0x80) }

  /** After cpu_set_eflags the guest sees exactly the given value on the valid flags, and the other bits
      are as they were stored. */
  lemma LoadedIs(s: State, e: bv32)
    ensures GetEflags(Loaded(s, e)) == Merged(s.eflags, e)
  {
    var f := Loaded(s, e);
    hide OfBy, AfBy, CfBy, Loaded, Method, Bit, InTable, Folded, Merged;
    LoadedParts(s, e);
    FullGetters(f);
    LoadedParity(s, e);
    assert GetSf(f) == Bit(e, 7) && GetZf(f) == Bit(e, 6);
    hide GetSf, GetPf, GetZf;
    assert f.eflags == Merged(s.eflags, e) by { LoadedWord(s, e); }
    Reassembled(f.eflags, e, s.eflags);
  }

  lemma LoadedWord(s: State, e: bv32)
    ensures Loaded(s, e).eflags == Merged(s.eflags, e)
  {
    hide Merged, LoadedLaux, Bit;
  }

  lemma LauxBits(e: bv32, flip: bool)
    ensures LoadedLaux(e, flip) & METHOD == FULL && Bit(LoadedLaux(e, flip), 31) == Bit(e, 7)
            && Bit(LoadedLaux(e, flip), 7) == flip
  {
  }

  lemma ZeroBit(e: bv32)
    ensures ZeroResult(e) == if Bit(e, 6) then 0 else 1
  {
  }

  /** What the getters need of a loaded state. */
  lemma LoadedParts(s: State, e: bv32)
    ensures var f := Loaded(s, e);
            && Method(f) == FULL && f.lr == (if Bit(e, 6) then 0 else 1)
            && Bit(f.laux, 31) == Bit(e, 7) && Bit(f.laux, 7) == (Bit(e, 2) == (f.lr == 1))
  {
    hide Bit, LoadedLaux, Merged, ZeroResult;
    LauxBits(e, Bit(Merged(s.eflags, e), 2) == (ZeroResult(e) == 1));
    ParityKept(s.eflags, e);
    ZeroBit(e);
  }

  lemma LoadedParity(s: State, e: bv32)
    ensures GetPf(Loaded(s, e)) == Bit(e, 2)
  {
    hide Bit, Loaded;
    LoadedParts(s, e);
    assert InTable(Folded(0, false)) && !InTable(Folded(0, true)) && !InTable(Folded(1, false))
           && InTable(Folded(1, true));
  }

  lemma ParityKept(x: bv32, e: bv32)
    ensures Bit(Merged(x, e), 2) == Bit(e, 2)
  {
  }

  /** Putting the flags read from `e` back together. */
  lemma Reassembled(w: bv32, e: bv32, rest: bv32)
    requires w == Merged(rest, e)
    ensures Assemble(w, Bit(w, 11), Bit(e, 7), Bit(e, 6), Bit(w, 4), Bit(e, 2), Bit(w, 0)) == w
  {
    OwnBits(w);
    LoadedBits(rest, e);
    hide Flag, Bit, Merged;
    SixParts(w);
  }

  lemma OwnBits(w: bv32)
    ensures Flag(Bit(w, 11), OF) == w & OF && Flag(Bit(w, 4), AF) == w & AF && Flag(Bit(w, 0), CF) == w & CF
  {
  }

  lemma LoadedBits(rest: bv32, e: bv32)
    ensures var w := Merged(rest, e);
            Flag(Bit(e, 7), SF) == w & SF && Flag(Bit(e, 6), ZF) == w & ZF && Flag(Bit(e, 2), PF) == w & PF
  {
  }

  lemma SixParts(w: bv32)
    ensures (w & !ARITH) | (w & OF) | (w & SF) | (w & ZF) | (w & AF) | (w & PF) | (w & CF) == w
  {
  }

  /** cpu_set_zf reloads all flags with ZF changed, and changes ZF alone. */
  lemma ZeroForcedIs(s: State, set_: bool)
    ensures GetEflags(Loaded(s, With(GetEflags(s), ZF, set_))) == With(GetEflags(s), ZF, set_)
  {
    OutsideValid(s);
    LoadedIs(s, With(GetEflags(s), ZF, set_));
    hide GetEflags, Loaded, With, Merged;
    WithZeroRejoins(GetEflags(s), s.eflags, set_);
  }

  lemma WithZeroRejoins(g: bv32, e: bv32, set_: bool)
    requires g & !VALID == e & !VALID
    ensures Merged(e, With(g, ZF, set_)) == With(g, ZF, set_)
  {
  }

  lemma OutsideValid(s: State)
    ensures GetEflags(s) & !VALID == s.eflags & !VALID
  {
    EflagsBits(s);
    hide GetEflags, GetOf, GetSf, GetZf, GetAf, GetPf, GetCf;
  }

  // --- The conditions ---

  predicate Condition(s: State, kind: nat) {
    if kind == 0 then GetOf(s)
    else if kind == 1 then GetCf(s)
    else if kind == 2 then GetZf(s)
    else if kind == 3 then GetZf(s) || GetCf(s)
    else if kind == 4 then GetSf(s)
    else if kind == 5 then GetPf(s)
    else if kind == 6 then GetSf(s) != GetOf(s)
    else GetZf(s) || GetSf(s) != GetOf(s)
  }

  // --- What comparison means ---

  /** A word of a width as a two's complement number. */
  function Signed(a: nat, w: Width): int {
    if a % Range(w) < Range(w) / 2 then a % Range(w) else a % Range(w) - Range(w)
  }

  /** The low bits sign-extended to 32 bits. */
  function SignExtend(x: int, w: Width): nat {
    Signed(x % W32, w) % W32
  }

  /** The exact difference of the signed values is not a value of the width. */
  predicate Overflows(a: nat, b: nat, w: Width) {
    var d := Signed(a, w) - Signed(b, w);
    !(-(Range(w) / 2) <= d < Range(w) / 2)
  }

  /** The number of ones in the binary representation. */
  function Ones(x: nat): nat {
    if x == 0 then 0 else x % 2 + Ones(x / 2)
  }

  /** An even number of ones in the low byte. */
  predicate EvenOnes(x: int) { Ones(x % 0x100) % 2 == 0 }

  /** The relation each condition is named after: overflow, below, equal, below or equal, sign, parity,
      less, less or equal. */
  predicate Relation(kind: nat, a: nat, b: nat, w: Width) {
    match kind
    case 0 => Overflows(a, b, w)
    case 1 => a < b
    case 2 => a == b
    case 3 => a <= b
    case 4 => Top(a - b, w)
    case 5 => EvenOnes(a - b)
    case 6 => Signed(a, w) < Signed(b, w)
    case _ => Signed(a, w) <= Signed(b, w)
  }

  function SubMethod(w: Width): bv32 {
    match w case Byte => SUB8 case Half => SUB16 case Full => SUB32
  }

  /** The state a CMP handler leaves for the operands `a` and `b` of a width. */
  function Compared(s: State, a: nat, b: nat, w: Width): State {
    s.(lop2 := b, lr := SignExtend(a - b, w), laux := SubMethod(w))
  }

  lemma SubLaux(w: Width)
    ensures SubMethod(w) & METHOD == SubMethod(w) && !Bit(SubMethod(w), 31) && !Bit(SubMethod(w), 7)
    ensures SUB8 <= SubMethod(w) <= SUB32 && WidthOf(SubMethod(w), SUB8) == w
  {
  }

  /** The difference modulo the width. */
  function Wrapped(a: nat, b: nat, r: nat): int { if a >= b then a - b else a - b + r }

  lemma WrappedIs(a: nat, b: nat, w: Width)
    requires a < Range(w) && b < Range(w)
    ensures (a - b) % Range(w) == Wrapped(a, b, Range(w)) && (a - b) % W32 % Range(w) == Wrapped(a, b, Range(w))
  {
    match w
    case Byte => assert (a - b) % W32 == Wrapped(a, b, W32);
    case Half => assert (a - b) % W32 == Wrapped(a, b, W32);
    case Full =>
  }

  /** Sign extension of a word of the width: itself, or moved below zero and so to the top of 32 bits. */
  lemma Extension(e: nat, w: Width)
    requires e < Range(w)
    ensures var d := (if e < Range(w) / 2 then e else e - Range(w)) % W32;
            && d == (if e < Range(w) / 2 then e else e - Range(w) + W32) && 0 <= d < W32
            && d % Range(w) == e && (d >= W32 / 2 <==> e >= Range(w) / 2) && (d == 0 <==> e == 0)
  {
    match w
    case Byte =>
    case Half =>
    case Full =>
  }

  /** Adding the operand back to the extended difference. */
  lemma AddedBack(a: nat, b: nat, d: nat, w: Width)
    requires a < Range(w) && b < Range(w)
    requires var e := Wrapped(a, b, Range(w)); d == if e < Range(w) / 2 then e else e - Range(w) + W32
    ensures (b + d) % W32 % Range(w) == a
  {
    var e := Wrapped(a, b, Range(w));
    assert (b + d) % W32 == if e < Range(w) / 2 then (if b + e < W32 then b + e else b + e - W32)
                            else if b + e >= Range(w) then b + e - Range(w) else b + e - Range(w) + W32;
    match w
    case Byte =>
    case Half =>
    case Full =>
  }

  lemma ExtendedDifference(a: nat, b: nat, w: Width)
    requires a < Range(w) && b < Range(w)
    ensures var e := Wrapped(a, b, Range(w));
            SignExtend(a - b, w) == (if e < Range(w) / 2 then e else e - Range(w)) % W32 && e < Range(w)
                && (e == 0 <==> a == b)
  {
    WrappedIs(a, b, w);
  }

  /** The sign-extended difference. */
  lemma Difference(a: nat, b: nat, w: Width)
    requires a < Range(w) && b < Range(w)
    ensures var d := SignExtend(a - b, w); var r := Range(w);
            && d < W32 && (d == 0 <==> a == b) && (b + d) % W32 % r == a && d % r == (a - b) % r
            && Top(d, Full) == Top(a - b, w)
  {
    ExtendedDifference(a, b, w);
    WrappedIs(a, b, w);
    var d, e := SignExtend(a - b, w), Wrapped(a, b, Range(w));
    Extension(e, w);
    AddedBack(a, b, d, w);
    assert d % W32 == d;
    assert Top(d, Full) == (d >= W32 / 2);
    hide SignExtend, Wrapped;
  }

  lemma ComparedFlags(s: State, a: nat, b: nat, w: Width)
    requires a < Range(w) && b < Range(w)
    ensures var c := Compared(s, a, b, w);
            && GetZf(c) == (a == b) && GetSf(c) == Top(a - b, w) && GetCf(c) == (a < b)
  {
    SubLaux(w);
    Difference(a, b, w);
    CfOfSub(SubMethod(w), s.eflags, s.lop1, b, SignExtend(a - b, w), w);
    hide Bit, SignExtend, Top, CfBy, SubMethod;
  }

  lemma CfOfSub(m: bv32, eflags: bv32, lop1: nat, b: nat, d: nat, w: Width)
    requires SUB8 <= m <= SUB32 && WidthOf(m, SUB8) == w
    ensures CfBy(m, eflags, lop1, b, d) == (b > (b + d) % W32 % Range(w))
  {
  }

  lemma OfOfSub(m: bv32, eflags: bv32, lop1: nat, b: nat, d: nat, w: Width)
    requires SUB8 <= m <= SUB32 && WidthOf(m, SUB8) == w
    ensures var first := (b + d) % W32;
            OfBy(m, eflags, lop1, b, d) == (Top(first, w) != Top(b, w) && Top(first, w) != Top(d, w))
  {
    hide CfBy;
  }

  /** The source's overflow formula on the operands and the difference. */
  lemma OverflowFormula(a: nat, b: nat, w: Width)
    requires a < Range(w) && b < Range(w)
    ensures (Top(a, w) != Top(b, w) && Top(a, w) != Top(a - b, w)) == Overflows(a, b, w)
    ensures (Top(a - b, w) != Overflows(a, b, w)) == (Signed(a, w) < Signed(b, w))
    ensures (Signed(a, w) == Signed(b, w)) == (a == b)
  {
    WrappedIs(a, b, w);
    WordSign(a, w);
    WordSign(b, w);
    assert Top(a - b, w) == (Wrapped(a, b, Range(w)) >= Range(w) / 2);
    assert Range(w) == 2 * (Range(w) / 2);
    hide Top, Signed, Range;
  }

  lemma WordSign(a: nat, w: Width)
    requires a < Range(w)
    ensures Top(a, w) == (a >= Range(w) / 2) && Signed(a, w) == if a < Range(w) / 2 then a else a - Range(w)
  {
    assert a % Range(w) == a;
  }

  lemma ComparedOverflow(s: State, a: nat, b: nat, w: Width)
    requires a < Range(w) && b < Range(w)
    ensures GetOf(Compared(s, a, b, w)) == Overflows(a, b, w)
  {
    hide Bit, SignExtend, Top, OfBy, SubMethod, Overflows;
    SubLaux(w);
    Difference(a, b, w);
    var d := SignExtend(a - b, w);
    OfOfSub(SubMethod(w), s.eflags, s.lop1, b, d, w);
    SameTop((b + d) % W32, a, w);
    SameTop(d, a - b, w);
    OverflowFormula(a, b, w);
  }

  lemma SameTop(x: int, a: int, w: Width)
    requires x % Range(w) == a % Range(w)
    ensures Top(x, w) == Top(a, w)
  {
  }

  // The parity table.

  lemma OnesHalf(n: nat, m: nat, r: nat)
    requires n == 2 * m + r && r < 2
    ensures Ones(n) == r + Ones(m)
  {
    assert n % 2 == r && n / 2 == m;
  }

  /** The ones of a byte, from the bits of its two nibbles. */
  lemma OnesOfByte(h: nat, l: nat)
    requires h < 16 && l < 16
    ensures Ones(16 * h + l) == l % 2 + l / 2 % 2 + l / 4 % 2 + l / 8 % 2 + h % 2 + h / 2 % 2 + h / 4 % 2 + h / 8 % 2
  {
    hide Ones;
    OnesAbove(h, l);
    OnesAbove(0, h);
    NoOnes();
  }

  lemma OnesAbove(h: nat, l: nat)
    requires l < 16
    ensures Ones(16 * h + l) == l % 2 + l / 2 % 2 + l / 4 % 2 + l / 8 % 2 + Ones(h)
  {
    hide Ones;
    NibbleHalves(l);
    OnesHalf(16 * h + l, 8 * h + l / 2, l % 2);
    OnesHalf(8 * h + l / 2, 4 * h + l / 4, l / 2 % 2);
    OnesHalf(4 * h + l / 4, 2 * h + l / 8, l / 4 % 2);
    OnesHalf(2 * h + l / 8, h, l / 8 % 2);
  }

  lemma NoOnes()
    ensures Ones(0) == 0
  {
  }

  lemma NibbleHalves(x: nat)
    requires x < 16
    ensures x == 2 * (x / 2) + x % 2 && x / 2 == 2 * (x / 4) + x / 2 % 2 && x / 4 == 2 * (x / 8) + x / 4 % 2
            && x / 8 == x / 8 % 2
  {
  }

  lemma TableCountsOnes(x: nat)
    ensures InTable(Folded(x, false)) == EvenOnes(x)
  {
    var l, h := x % 16, x / 16 % 16;
    assert x % 0x100 == 16 * h + l;
    hide InTable, Ones, Xor4;
    OnesOfByte(h, l);
    NibblesParity(h, l);
  }

  lemma NibblesParity(h: nat, l: nat)
    requires h < 16 && l < 16
    ensures InTable(Xor4(l, h))
            == ((l % 2 + l / 2 % 2 + l / 4 % 2 + l / 8 % 2 + h % 2 + h / 2 % 2 + h / 4 % 2 + h / 8 % 2) % 2 == 0)
  {
    hide InTable;
    TableIsParity(Odd(l) != Odd(h), Odd(l / 2) != Odd(h / 2), Odd(l / 4) != Odd(h / 4), Odd(l / 8) != Odd(h / 8));
    SumParity(l % 2, l / 2 % 2, l / 4 % 2, l / 8 % 2, h % 2, h / 2 % 2, h / 4 % 2, h / 8 % 2);
  }

  lemma SumParity(a: nat, b: nat, c: nat, d: nat, e: nat, f: nat, g: nat, h: nat)
    requires a < 2 && b < 2 && c < 2 && d < 2 && e < 2 && f < 2 && g < 2 && h < 2
    ensures ((a + b + c + d + e + f + g + h) % 2 == 0) == (((a != e) == (b != f)) == ((c != g) == (d != h)))
  {
  }

  lemma ComparedParity(s: State, a: nat, b: nat, w: Width)
    requires a < Range(w) && b < Range(w)
    ensures GetPf(Compared(s, a, b, w)) == EvenOnes(a - b)
  {
    SubLaux(w);
    Difference(a, b, w);
    hide Bit, SignExtend, Top, SubMethod, Ones, InTable, Folded;
    var d := SignExtend(a - b, w);
    TableCountsOnes(d);
    LowByte(d, a - b, w);
  }

  lemma ByteIs(x: int, k: int, m: int)
    requires x == 256 * k + m && 0 <= m < 256
    ensures x % 256 == m
  {
  }

  lemma ByteOfHalf(x: int)
    ensures x % 0x1_0000 % 256 == x % 256
  {
    var m := x % 0x1_0000;
    ByteIs(x, 256 * (x / 0x1_0000) + m / 256, m % 256);
  }

  lemma ByteOfWord(x: int)
    ensures x % W32 % 256 == x % 256
  {
    var m := x % W32;
    ByteIs(x, 0x100_0000 * (x / W32) + m / 256, m % 256);
  }

  lemma LowByte(x: int, y: int, w: Width)
    requires x % Range(w) == y % Range(w)
    ensures x % 256 == y % 256
  {
    match w
    case Byte =>
    case Half =>
      ByteOfHalf(x);
      ByteOfHalf(y);
    case Full =>
      ByteOfWord(x);
      ByteOfWord(y);
  }

  /** After a CMP of any two operands of a width, the condition decides the relation it is named after. */
  lemma ConditionMeans(s: State, a: nat, b: nat, w: Width, kind: nat)
    requires a < Range(w) && b < Range(w)
    ensures Condition(Compared(s, a, b, w), kind) == Relation(kind, a, b, w)
  {
    hide GetOf, GetCf, GetZf, GetSf, GetPf, Compared, EvenOnes, Top, Signed, Overflows;
    ComparedFlags(s, a, b, w);
    ComparedOverflow(s, a, b, w);
    ComparedParity(s, a, b, w);
    OverflowFormula(a, b, w);
  }

  // --- cpu_cond and the conditional jumps ---

  /** cpu_cond: bits 1 to 3 select the condition, bit 0 negates it. */
  predicate Cond(s: State, val: nat) {
    Condition(s, val / 2 % 8) != (val % 2 == 1)
  }

  datatype Jump = JO | JNO | JB | JNB | JZ | JNZ | JBE | JNBE | JS | JNS | JP | JNP | JL | JNL | JLE | JNLE

  /** Whether the handler of a conditional jump takes it. */
  predicate Taken(s: State, j: Jump) {
    match j
    case JO => GetOf(s)
    case JNO => !GetOf(s)
    case JB => GetCf(s)
    case JNB => !GetCf(s)
    case JZ => GetZf(s)
    case JNZ => !GetZf(s)
    case JBE => GetZf(s) || GetCf(s)
    case JNBE => !(GetZf(s) || GetCf(s))
    case JS => GetSf(s)
    case JNS => !GetSf(s)
    case JP => GetPf(s)
    case JNP => !GetPf(s)
    case JL => GetSf(s) != GetOf(s)
    case JNL => GetSf(s) == GetOf(s)
    case JLE => GetZf(s) || GetSf(s) != GetOf(s)
    case JNLE => !GetZf(s) && GetSf(s) == GetOf(s)
  }

  /** The low four bits of the jump's opcode. */
  function Code(j: Jump): nat {
    match j
    case JO => 0 case JNO => 1 case JB => 2 case JNB => 3 case JZ => 4 case JNZ => 5 case JBE => 6 case JNBE => 7
    case JS => 8 case JNS => 9 case JP => 10 case JNP => 11 case JL => 12 case JNL => 13 case JLE => 14 case JNLE => 15
  }

  /** A conditional jump decides cpu_cond for its code. */
  lemma JumpIsCond(s: State, j: Jump)
    ensures Taken(s, j) == Cond(s, Code(j)) == (Condition(s, Code(j) / 2) != (Code(j) % 2 == 1))
  {
    hide GetOf, GetCf, GetZf, GetSf, GetPf;
  }

  /** After a CMP, a conditional jump is taken exactly if the relation it names holds, or for the negated
      ones does not; and so decides cpu_cond for its code. */
  lemma JumpMeans(s: State, a: nat, b: nat, w: Width, j: Jump)
    requires a < Range(w) && b < Range(w)
    ensures Taken(Compared(s, a, b, w), j) == (Relation(Code(j) / 2, a, b, w) != (Code(j) % 2 == 1))
    ensures Taken(Compared(s, a, b, w), j) == Cond(Compared(s, a, b, w), Code(j))
  {
    hide Taken, Cond, Condition, Compared, Relation, Code;
    ConditionMeans(s, a, b, w, Code(j) / 2);
    JumpIsCond(Compared(s, a, b, w), j);
  }

  /** The flag state of a thread, updated in place. */
  class Flags {
    var eflags: bv32
    var laux: bv32
    var lop1: nat
    var lop2: nat
    var lr: nat

    ghost function View(): State
      reads this
    {
      State(eflags, laux, lop1, lop2, lr)
    }

    /** cpu_get_oac: OF, AF and CF are stored into `eflags`. */
    method StoreOac()
      modifies `eflags
      ensures eflags == Stored(old(eflags), old(GetOf(View())), old(GetAf(View())), old(GetCf(View())))
    {
      hide GetOf, GetAf, GetCf, Stored;
      var s := State(eflags, laux, lop1, lop2, lr);
      eflags := Stored(eflags, GetOf(s), GetAf(s), GetCf(s));
    }

    /** cpu_set_cf, cpu_set_of and cpu_set_af, which differ in their mask only. */
    method Force(mask: bv32, set_: bool)
      requires mask in {OF, AF, CF}
      modifies `eflags, `laux
      ensures View() == Forced(old(View()), mask, set_) && GetEflags(View()) == With(old(GetEflags(View())), mask, set_)
    {
      hide GetEflags, GetOf, GetAf, GetCf, Stored, With, WithFull;
      ForcedIs(View(), mask, set_);
      StoreOac();
      eflags := With(eflags, mask, set_);
      laux := WithFull(laux);
    }

    method SetCf(set_: bool)
      modifies `eflags, `laux
      ensures GetEflags(View()) == With(old(GetEflags(View())), CF, set_)
    {
      Force(CF, set_);
    }

    method SetOf(set_: bool)
      modifies `eflags, `laux
      ensures GetEflags(View()) == With(old(GetEflags(View())), OF, set_)
    {
      Force(OF, set_);
    }

    method SetAf(set_: bool)
      modifies `eflags, `laux
      ensures GetEflags(View()) == With(old(GetEflags(View())), AF, set_)
    {
      Force(AF, set_);
    }

    method SetSf(set_: bool)
      modifies `laux
      ensures GetEflags(View()) == With(old(GetEflags(View())), SF, set_)
    {
      hide GetEflags, WithSign, With;
      SignForcedIs(View(), set_);
      laux := WithSign(laux, Top(lr, Full) != set_);
    }

    /** Right only when bit 7 of `laux` is clear. */
    method SetPf(set_: bool)
      modifies `laux
      ensures GetPf(View()) == set_ <==> !Bit(old(laux), 7)
    {
      hide GetPf, Bit, WithBit7;
      ParityForcedIs(View(), set_);
      laux := WithBit7(laux, GetPf(State(eflags, laux, lop1, lop2, lr)) != set_);
    }

    /** cpu_set_eflags; a changed interrupt flag asks the interpreter loop to stop. */
    method SetEflags(e: bv32) returns (exit: bool)
      modifies `eflags, `laux, `lr
      ensures View() == Loaded(old(View()), e) && GetEflags(View()) == Merged(old(eflags), e)
      ensures exit <==> Bit(old(eflags), 9) != Bit(eflags, 9)
    {
      hide GetEflags, LoadedLaux, Bit, Merged, ZeroResult;
      LoadedIs(View(), e);
      var before := eflags;
      eflags := Merged(eflags, e);
      lr := ZeroResult(e);
      laux := LoadedLaux(e, Bit(eflags, 2) == (lr == 1));
      exit := Bit(before, 9) != Bit(eflags, 9);
    }

    method SetZf(set_: bool) returns (exit: bool)
      modifies `eflags, `laux, `lr
      ensures GetEflags(View()) == With(old(GetEflags(View())), ZF, set_)
    {
      hide GetEflags, With, Loaded, Merged;
      ZeroForcedIs(View(), set_);
      exit := SetEflags(With(GetEflags(State(eflags, laux, lop1, lop2, lr)), ZF, set_));
    }

    /** The CMP handlers: only the flag state changes, and then the conditional jumps decide the operands'
        relations. */
    method Compare(a: nat, b: nat, w: Width)
      requires a < Range(w) && b < Range(w)
      modifies `lop2, `lr, `laux
      ensures View() == Compared(old(View()), a, b, w)
      ensures forall j :: Taken(View(), j) == (Relation(Code(j) / 2, a, b, w) != (Code(j) % 2 == 1))
    {
      ghost var s := View();
      lop2 := b;
      lr := SignExtend(a - b, w);
      laux := SubMethod(w);
      assert View() == Compared(s, a, b, w);
      hide Taken, Relation, Compared, SignExtend, SubMethod;
      forall j ensures Taken(View(), j) == (Relation(Code(j) / 2, a, b, w) != (Code(j) % 2 == 1)) {
        JumpMeans(s, a, b, w, j);
      }
    }
  }
}
