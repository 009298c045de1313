/** Machine code written by the rules of the instruction set, and what the decoder reads of it: the addressing forms of
    ModR/M and SIB, displacements, immediates and prefixes. */
module X86Encoding {
  import opened GuestMemory
  import opened Traces
  import opened X86Length
  import opened X86Decoder

  // --- Addressing forms ---

  datatype Displacement = NoDisp | Short(offset: int) | Long(value: nat)

  /** An operand: a register, or memory at base + index * 2^scale + displacement; EZR is no register. Registers are
      numbered as in the instruction set, with BX 3, SP 4, BP 5, SI 6 and DI 7. With `sib` the form has a SIB byte. */
  datatype Address =
    | Register(rm: nat)
    | Memory(base: nat, index: nat, scale: nat, disp: Displacement, sib: bool)

  predicate DispFits(d: Displacement, addr16: bool) {
    match d
    case NoDisp => true
    case Short(v) => -0x80 <= v < 0x80
    case Long(v) => v < if addr16 then 0x1_0000 else 0x1_0000_0000
  }

  /** The register pairs of the 16-bit forms, in the order of RM. */
  const PAIRS: seq<(nat, nat)> := [(3, 6), (3, 7), (5, 6), (5, 7), (6, EZR), (7, EZR), (5, EZR), (3, EZR)]

  function PairOf(base: nat, index: nat): nat {
    if base == 3 && index == 6 then 0 else if base == 3 && index == 7 then 1
    else if base == 5 && index == 6 then 2 else if base == 5 && index == 7 then 3
    else if base == 6 then 4 else if base == 7 then 5 else if base == 5 then 6 else 7
  }

  /** The forms there are: a displacement alone has no short form and none of zero; BP alone needs a displacement;
      SP is no index, and as a base needs SIB; only SIB has an index in 32 bits. */
  predicate Encodable(a: Address, addr16: bool) {
    match a
    case Register(rm) => rm < 8
    case Memory(base, index, scale, disp, sib) =>
      && DispFits(disp, addr16)
      && (base == EZR ==> disp.Long?)
      && if addr16 then
           && scale == 0 && !sib
           && ((base, index) in PAIRS || (base == EZR && index == EZR))
           && (base == 5 && index == EZR ==> disp != NoDisp)
         else
           && base <= EZR && index <= EZR && index != 4 && scale < 4
           && (index != EZR || base == 4 ==> sib)
           && (!sib ==> scale == 0)
           && (base == 5 ==> disp != NoDisp)
  }

  function ModField(a: Address): nat {
    if a.Register? then 3
    else if a.base == EZR then 0
    else match a.disp case NoDisp => 0 case Short(_) => 1 case Long(_) => 2
  }

  function RmField(a: Address, addr16: bool): nat {
    if a.Register? then a.rm
    else if addr16 then (if a.base == EZR then 6 else PairOf(a.base, a.index))
    else if a.sib then 4
    else if a.base == EZR then 5
    else a.base
  }

  function SibByte(a: Address): nat
    requires a.Memory?
  {
    a.scale * 64 + (if a.index == EZR then 4 else a.index) * 8 + (if a.base == EZR then 5 else a.base)
  }

  function DispBytes(d: Displacement, addr16: bool): seq<byte>
    requires DispFits(d, addr16)
  {
    match d
    case NoDisp => []
    case Short(v) => [v % 0x100]
    case Long(v) => LittleEndian(if addr16 then 2 else 4, v)
  }

  /** ModR/M with the register field, SIB and displacement. */
  function EncodeAddress(reg: nat, a: Address, addr16: bool): seq<byte>
    requires Encodable(a, addr16) && reg < 8
  {
    FieldsFit(a, addr16);
    [ModField(a) * 64 + reg * 8 + RmField(a, addr16)]
    + (if a.Register? then [] else (if a.sib then [SibByte(a)] else []) + DispBytes(a.disp, addr16))
  }

  lemma FieldsFit(a: Address, addr16: bool)
    requires Encodable(a, addr16)
    ensures ModField(a) < 4 && RmField(a, addr16) < 8
    ensures a.Memory? && a.sib ==> SibByte(a) < 0x100
  {
  }

  /** What the form means: displacements are sign-extended, and BP and SP select the stack segment. */
  function Meant(a: Address): Place {
    match a
    case Register(rm) => RegisterAt(rm)
    case Memory(base, index, scale, disp, _) =>
      MemoryAt(base, index, if index == EZR then 0 else scale, base == 4 || base == 5,
               match disp case NoDisp => 0 case Short(v) => v % 0x1_0000_0000 case Long(v) => v)
  }

  /** The bytes `b` stand at `q`. */
  ghost predicate Holds(s: seq<byte>, q: nat, b: seq<byte>) {
    forall j {:trigger b[j]} :: 0 <= j < |b| ==> At(s, q + j) == b[j]
  }

  lemma HoldsParts(s: seq<byte>, q: nat, b: seq<byte>, c: seq<byte>)
    ensures Holds(s, q, b + c) <==> Holds(s, q, b) && Holds(s, q + |b|, c)
  {
    if Holds(s, q, b + c) {
      forall j | 0 <= j < |b| ensures At(s, q + j) == b[j] {
        assert (b + c)[j] == b[j];
      }
      forall j | 0 <= j < |c| ensures At(s, q + |b| + j) == c[j] {
        assert (b + c)[|b| + j] == c[j];
      }
    }
  }

  lemma HoldsOne(s: seq<byte>, q: nat, b: seq<byte>)
    requires Holds(s, q, b) && |b| > 0
    ensures At(s, q) == b[0]
  {
  }

  // --- Numbers ---

  lemma TwoBytes(v: nat)
    ensures LittleEndian(2, v) == [v % 0x100, v / 0x100 % 0x100]
  {
    assert LittleEndian(1, v / 0x100) == [v / 0x100 % 0x100] + LittleEndian(0, v / 0x100 / 0x100);
  }

  lemma FourBytes(v: nat)
    ensures LittleEndian(4, v)
            == [v % 0x100, v / 0x100 % 0x100, v / 0x100 / 0x100 % 0x100, v / 0x100 / 0x100 / 0x100 % 0x100]
  {
    TwoBytes(v / 0x100 / 0x100);
    assert LittleEndian(3, v / 0x100) == [v / 0x100 % 0x100] + LittleEndian(2, v / 0x100 / 0x100);
  }

  /** A little-endian number is read back. */
  lemma NumberIsRead(s: seq<byte>, q: nat, n: nat, v: nat)
    requires n == 2 || n == 4
    requires Holds(s, q, LittleEndian(n, v)) && v < if n == 2 then 0x1_0000 else 0x1_0000_0000
    ensures n == 2 ==> Rw(s, q) == v
    ensures n == 4 ==> Rd(s, q) == v
  {
    if n == 2 {
      TwoBytes(v);
      assert At(s, q) == LittleEndian(2, v)[0] && At(s, q + 1) == LittleEndian(2, v)[1];
    } else {
      FourBytes(v);
      var b := LittleEndian(4, v);
      assert At(s, q) == b[0] && At(s, q + 1) == b[1] && At(s, q + 2) == b[2] && At(s, q + 3) == b[3];
      FourDigits(v);
    }
  }

  lemma FourDigits(v: nat)
    requires v < 0x1_0000_0000
    ensures v % 0x100 + 0x100 * (v / 0x100 % 0x100)
            + 0x1_0000 * (v / 0x100 / 0x100 % 0x100 + 0x100 * (v / 0x100 / 0x100 / 0x100 % 0x100)) == v
  {
  }

  /** A displacement is read back, sign-extended. */
  lemma DispIsRead(s: seq<byte>, q: nat, d: Displacement, addr16: bool)
    requires DispFits(d, addr16) && Holds(s, q, DispBytes(d, addr16))
    ensures d.Short? ==> Rbs(s, q) == d.offset % 0x1_0000_0000 && |DispBytes(d, addr16)| == 1
    ensures d.Long? ==> (if addr16 then Rw(s, q) else Rd(s, q)) == d.value
                        && |DispBytes(d, addr16)| == if addr16 then 2 else 4
  {
    match d
    case NoDisp =>
    case Short(v) =>
      HoldsOne(s, q, DispBytes(d, addr16));
      SignedByte(v);
    case Long(v) =>
      NumberIsRead(s, q, if addr16 then 2 else 4, v);
  }

  lemma SignedByte(v: int)
    requires -0x80 <= v < 0x80
    ensures v % 0x1_0000_0000 == if v % 0x100 < 0x80 then v % 0x100 else v % 0x100 + 0xFFFF_FF00
  {
  }

  // --- ModR/M ---

  lemma ModrmFields(mod: nat, reg: nat, rm: nat)
    requires mod < 4 && reg < 8 && rm < 8
    ensures var b := mod * 64 + reg * 8 + rm; b < 0x100 && b / 64 == mod && b / 8 % 8 == reg && b % 8 == rm
  {
  }

  lemma AddressParts(s: seq<byte>, q: nat, reg: nat, a: Address, addr16: bool)
    requires Encodable(a, addr16) && reg < 8 && Holds(s, q, EncodeAddress(reg, a, addr16))
    ensures At(s, q) / 64 == ModField(a) && Reg(At(s, q)) == reg && At(s, q) % 8 == RmField(a, addr16)
    ensures a.Memory? && a.sib ==> At(s, q + 1) == SibByte(a)
    ensures a.Memory? ==>
              var d := q + if a.sib then 2 else 1;
              && Holds(s, d, DispBytes(a.disp, addr16))
              && |EncodeAddress(reg, a, addr16)| == d - q + |DispBytes(a.disp, addr16)|
    ensures a.Register? ==> |EncodeAddress(reg, a, addr16)| == 1
  {
    hide Encodable, ModField, RmField, SibByte, DispBytes, Holds, At;
    FieldsFit(a, addr16);
    ModrmFields(ModField(a), reg, RmField(a, addr16));
    var first: byte := ModField(a) * 64 + reg * 8 + RmField(a, addr16);
    HoldsOne(s, q, EncodeAddress(reg, a, addr16));
    assert At(s, q) == first;
    if a.Memory? {
      assert DispFits(a.disp, addr16) by { DispIsEncodable(a, addr16); }
      if a.sib {
        ThreeParts(s, q, [first], [SibByte(a)], DispBytes(a.disp, addr16));
      } else {
        ThreeParts(s, q, [first], [], DispBytes(a.disp, addr16));
      }
    }
  }

  lemma DispIsEncodable(a: Address, addr16: bool)
    requires Encodable(a, addr16) && a.Memory?
    ensures DispFits(a.disp, addr16)
  {
  }

  lemma ThreeParts(s: seq<byte>, q: nat, b: seq<byte>, c: seq<byte>, d: seq<byte>)
    requires Holds(s, q, b + (c + d))
    ensures |c| > 0 ==> At(s, q + |b|) == c[0]
    ensures Holds(s, q + |b| + |c|, d)
  {
    hide Holds, At;
    HoldsParts(s, q, b, c + d);
    HoldsParts(s, q + |b|, c, d);
    if |c| > 0 {
      HoldsOne(s, q + |b|, c);
    }
  }

  /** parse_modrm reads back every addressing form, with its displacement, and leaves the cursor behind it. */
  lemma AddressIsRead(s: seq<byte>, q: nat, reg: nat, a: Address, addr16: bool)
    requires Encodable(a, addr16) && reg < 8 && Holds(s, q, EncodeAddress(reg, a, addr16))
    ensures Reg(At(s, q)) == reg
    ensures ParsedModrm(s, q + 1, At(s, q), addr16) == (Meant(a), q + |EncodeAddress(reg, a, addr16)|)
  {
    AddressParts(s, q, reg, a, addr16);
    hide EncodeAddress, Holds, DispBytes, Rbs, Rw, Rd;
    if a.Memory? {
      DispIsRead(s, q + if a.sib then 2 else 1, a.disp, addr16);
      assert a.disp.NoDisp? ==> |DispBytes(a.disp, addr16)| == 0 by { NoBytes(addr16); }
      if addr16 {
        Memory16IsRead(s, q, a);
      } else if a.sib {
        SibIsRead(s, q, a);
      } else {
        Memory32IsRead(s, q, a);
      }
    }
  }

  lemma NoBytes(addr16: bool)
    ensures DispFits(NoDisp, addr16) && DispBytes(NoDisp, addr16) == []
  {
  }

  function DispLength(d: Displacement, addr16: bool): nat {
    match d case NoDisp => 0 case Short(_) => 1 case Long(_) => if addr16 then 2 else 4
  }

  lemma Memory16IsRead(s: seq<byte>, q: nat, a: Address)
    requires a.Memory? && Encodable(a, true)
    requires At(s, q) / 64 == ModField(a) && At(s, q) % 8 == RmField(a, true)
    requires a.disp.Short? ==> Rbs(s, q + 1) == a.disp.offset % 0x1_0000_0000
    requires a.disp.Long? ==> Rw(s, q + 1) == a.disp.value
    ensures ParsedModrm(s, q + 1, At(s, q), true) == (Meant(a), q + 1 + DispLength(a.disp, true))
  {
    hide Rbs, Rw, Rd;
  }

  lemma Memory32IsRead(s: seq<byte>, q: nat, a: Address)
    requires a.Memory? && Encodable(a, false) && !a.sib
    requires At(s, q) / 64 == ModField(a) && At(s, q) % 8 == RmField(a, false)
    requires a.disp.Short? ==> Rbs(s, q + 1) == a.disp.offset % 0x1_0000_0000
    requires a.disp.Long? ==> Rd(s, q + 1) == a.disp.value
    ensures ParsedModrm(s, q + 1, At(s, q), false) == (Meant(a), q + 1 + DispLength(a.disp, false))
  {
    hide Rbs, Rw, Rd;
  }

  lemma SibIsRead(s: seq<byte>, q: nat, a: Address)
    requires a.Memory? && Encodable(a, false) && a.sib
    requires At(s, q) / 64 == ModField(a) && At(s, q) % 8 == RmField(a, false) && At(s, q + 1) == SibByte(a)
    requires a.disp.Short? ==> Rbs(s, q + 2) == a.disp.offset % 0x1_0000_0000
    requires a.disp.Long? ==> Rd(s, q + 2) == a.disp.value
    ensures ParsedModrm(s, q + 1, At(s, q), false) == (Meant(a), q + 2 + DispLength(a.disp, false))
  {
    hide Rbs, Rw, Rd;
    ModrmFields(a.scale, if a.index == EZR then 4 else a.index, if a.base == EZR then 5 else a.base);
  }

  // --- Every form ---

  function SignedOf(b: byte): int { if b < 0x80 then b else b - 0x100 }

  /** The form that stands at `q`. */
  function FormAt(s: seq<byte>, q: nat, addr16: bool): Address {
    var mod, rm, sib := At(s, q) / 64, At(s, q) % 8, At(s, q + 1);
    if mod == 3 then Register(rm)
    else if addr16 then
      if mod == 0 && rm == 6 then Memory(EZR, EZR, 0, Long(Rw(s, q + 1)), false)
      else
        Memory(Base16(rm), Index16(rm), 0,
               if mod == 0 then NoDisp else if mod == 1 then Short(SignedOf(At(s, q + 1))) else Long(Rw(s, q + 1)),
               false)
    else if rm == 4 then
      var index := if sib / 8 % 8 == 4 then EZR else sib / 8 % 8;
      if mod == 0 && sib % 8 == 5 then Memory(EZR, index, sib / 64, Long(Rd(s, q + 2)), true)
      else
        Memory(sib % 8, index, sib / 64,
               if mod == 0 then NoDisp else if mod == 1 then Short(SignedOf(At(s, q + 2))) else Long(Rd(s, q + 2)),
               true)
    else if mod == 0 && rm == 5 then Memory(EZR, EZR, 0, Long(Rd(s, q + 1)), false)
    else
      Memory(rm, EZR, 0,
             if mod == 0 then NoDisp else if mod == 1 then Short(SignedOf(At(s, q + 1))) else Long(Rd(s, q + 1)),
             false)
  }

  lemma WordStands(s: seq<byte>, q: nat)
    ensures Rw(s, q) < 0x1_0000 && Holds(s, q, LittleEndian(2, Rw(s, q)))
  {
    TwoBytes(Rw(s, q));
    TwoDigits(At(s, q), At(s, q + 1));
    forall j | 0 <= j < 2 ensures At(s, q + j) == LittleEndian(2, Rw(s, q))[j] {
    }
  }

  lemma TwoDigits(a: nat, b: nat)
    requires a < 0x100 && b < 0x100
    ensures (a + 0x100 * b) % 0x100 == a && (a + 0x100 * b) / 0x100 == b && b % 0x100 == b
  {
  }

  lemma DoubleStands(s: seq<byte>, q: nat)
    ensures Rd(s, q) < 0x1_0000_0000 && Holds(s, q, LittleEndian(4, Rd(s, q)))
  {
    var a: nat, b: nat, c: nat, d: nat := At(s, q), At(s, q + 1), At(s, q + 2), At(s, q + 3);
    var v := Rd(s, q);
    FourBytes(v);
    FourDigitsOf(a, b, c, d);
    assert LittleEndian(4, v) == [a, b, c, d];
    forall j | 0 <= j < 4 ensures At(s, q + j) == LittleEndian(4, v)[j] {
    }
  }

  lemma FourDigitsOf(a: nat, b: nat, c: nat, d: nat)
    requires a < 0x100 && b < 0x100 && c < 0x100 && d < 0x100
    ensures var v := a + 0x100 * b + 0x1_0000 * (c + 0x100 * d);
            && v < 0x1_0000_0000 && v % 0x100 == a && v / 0x100 % 0x100 == b && v / 0x100 / 0x100 % 0x100 == c
            && v / 0x100 / 0x100 / 0x100 % 0x100 == d
  {
    var v := a + 0x100 * b + 0x1_0000 * (c + 0x100 * d);
    var y := b + 0x100 * (c + 0x100 * d);
    assert v == a + 0x100 * y;
    LowDigit(a, y);
    LowDigit(b, c + 0x100 * d);
    LowDigit(c, d);
  }

  lemma LowDigit(a: nat, y: nat)
    requires a < 0x100
    ensures (a + 0x100 * y) % 0x100 == a && (a + 0x100 * y) / 0x100 == y
  {
  }

  /** Every displacement field is a displacement of its form. */
  lemma FormDisp(s: seq<byte>, q: nat, addr16: bool)
    ensures DispFits(Long(if addr16 then Rw(s, q) else Rd(s, q)), addr16) && DispFits(Short(SignedOf(At(s, q))), addr16)
    ensures Holds(s, q, DispBytes(Long(if addr16 then Rw(s, q) else Rd(s, q)), addr16))
    ensures Holds(s, q, DispBytes(Short(SignedOf(At(s, q))), addr16))
    ensures DispFits(NoDisp, addr16) && Holds(s, q, DispBytes(NoDisp, addr16))
  {
    if addr16 {
      WordStands(s, q);
    } else {
      DoubleStands(s, q);
    }
    hide LittleEndian, Rw, Rd;
    assert SignedOf(At(s, q)) % 0x100 == At(s, q);
  }

  lemma FormFields(s: seq<byte>, q: nat, addr16: bool)
    ensures var a := FormAt(s, q, addr16);
            && Encodable(a, addr16) && ModField(a) == At(s, q) / 64 && RmField(a, addr16) == At(s, q) % 8
            && (a.Memory? && a.sib ==> SibByte(a) == At(s, q + 1))
            && (a.Memory? ==>
                  DispFits(a.disp, addr16) && Holds(s, q + if a.sib then 2 else 1, DispBytes(a.disp, addr16)))
  {
    FormDisp(s, q + 1, addr16);
    FormDisp(s, q + 2, addr16);
    hide Holds, DispBytes, Rw, Rd, SignedOf, DispFits;
    if addr16 {
      FormFields16(s, q);
    } else {
      FormFields32(s, q);
    }
  }

  lemma FormFields16(s: seq<byte>, q: nat)
    requires DispFits(Short(SignedOf(At(s, q + 1))), true) && DispFits(Long(Rw(s, q + 1)), true)
    requires DispFits(NoDisp, true)
    ensures var a := FormAt(s, q, true);
            Encodable(a, true) && ModField(a) == At(s, q) / 64 && RmField(a, true) == At(s, q) % 8
  {
    hide Rw, Rd, SignedOf, DispFits;
    var rm := At(s, q) % 8;
    assert (Base16(rm), Index16(rm)) == PAIRS[rm];
  }

  lemma FormFields32(s: seq<byte>, q: nat)
    requires DispFits(Short(SignedOf(At(s, q + 1))), false) && DispFits(Long(Rd(s, q + 1)), false)
    requires DispFits(Short(SignedOf(At(s, q + 2))), false) && DispFits(Long(Rd(s, q + 2)), false)
    requires DispFits(NoDisp, false)
    ensures var a := FormAt(s, q, false);
            && Encodable(a, false) && ModField(a) == At(s, q) / 64 && RmField(a, false) == At(s, q) % 8
            && (a.Memory? && a.sib ==> SibByte(a) == At(s, q + 1))
  {
    if At(s, q) % 8 == 4 && At(s, q) / 64 != 3 {
      SibFields(s, q);
    } else {
      PlainFields(s, q);
    }
    hide Encodable, ModField, RmField, SibByte, FormAt;
  }

  lemma PlainFields(s: seq<byte>, q: nat)
    requires At(s, q) % 8 != 4 || At(s, q) / 64 == 3
    requires DispFits(Short(SignedOf(At(s, q + 1))), false) && DispFits(Long(Rd(s, q + 1)), false)
    requires DispFits(NoDisp, false)
    ensures var a := FormAt(s, q, false);
            && Encodable(a, false) && ModField(a) == At(s, q) / 64 && RmField(a, false) == At(s, q) % 8
            && (a.Memory? ==> !a.sib)
  {
    hide Rw, Rd, SignedOf, DispFits;
  }

  lemma SibFields(s: seq<byte>, q: nat)
    requires At(s, q) % 8 == 4 && At(s, q) / 64 != 3
    requires DispFits(Short(SignedOf(At(s, q + 2))), false) && DispFits(Long(Rd(s, q + 2)), false)
    requires DispFits(NoDisp, false)
    ensures var a := FormAt(s, q, false);
            && Encodable(a, false) && ModField(a) == At(s, q) / 64 && RmField(a, false) == At(s, q) % 8
            && a.Memory? && SibByte(a) == At(s, q + 1)
  {
    hide Rw, Rd, SignedOf, DispFits;
    JoinedModrm(At(s, q + 1));
  }

  /** Every byte string with ModR/M at `q` holds the encoding of a form: AddressIsRead speaks of all of them. */
  lemma EveryForm(s: seq<byte>, q: nat, addr16: bool)
    ensures Encodable(FormAt(s, q, addr16), addr16) && Reg(At(s, q)) < 8
    ensures Holds(s, q, EncodeAddress(Reg(At(s, q)), FormAt(s, q, addr16), addr16))
  {
    hide FormAt, Encodable, ModField, RmField, SibByte, DispBytes, Reg, Holds;
    FormFields(s, q, addr16);
    var a := FormAt(s, q, addr16);
    var modrm: byte := At(s, q);
    JoinedModrm(modrm);
    FieldsFit(a, addr16);
    assert Holds(s, q, [modrm]) by { HoldsByte(s, q); }
    if a.Memory? {
      var mid: seq<byte> := if a.sib then [SibByte(a)] else [];
      assert Holds(s, q + 1, mid) by {
        HoldsByte(s, q + 1);
        HoldsNone(s, q + 1);
      }
      HoldsParts(s, q + 1, mid, DispBytes(a.disp, addr16));
      HoldsParts(s, q, [modrm], mid + DispBytes(a.disp, addr16));
    } else {
      assert [modrm] + [] == [modrm];
    }
  }

  lemma JoinedModrm(b: byte)
    ensures b == b / 64 * 64 + Reg(b) * 8 + b % 8 && Reg(b) < 8
  {
  }

  lemma HoldsByte(s: seq<byte>, q: nat)
    ensures Holds(s, q, [At(s, q)])
  {
  }

  lemma HoldsNone(s: seq<byte>, q: nat)
    ensures Holds(s, q, [])
  {
  }

  // --- Instructions ---

  datatype Size = One | Two | OperandSize | AddressSize

  function SizeOf(z: Size, m: Mode): nat {
    match z case One => 1 case Two => 2 case OperandSize => WordBytes(m.code16) case AddressSize => WordBytes(m.addr16)
  }

  /** What follows an opcode: ModR/M or not, and the immediates. */
  datatype Format = Format(modrm: bool, imms: seq<Size>)

  /** The instruction formats of the two opcode maps, by what follows the opcode; `reg` is the opcode extension. */
  function FormatOf(escape: bool, op: byte, reg: nat): Format {
    Format(if escape then HasModrm0F(op) else HasModrm(op), if escape then Imms0F(op) else Imms(op, reg))
  }

  predicate HasModrm(op: byte) {
    (op < 0x40 && op % 8 < 4) || op in {0x62, 0x63, 0x69, 0x6B, 0xC0, 0xC1, 0xF6, 0xF7, 0xFE, 0xFF}
    || 0x80 <= op < 0x90 || 0xC4 <= op < 0xC8 || 0xD0 <= op < 0xD4 || 0xD8 <= op < 0xE0
  }

  function Imms(op: byte, reg: nat): seq<Size> {
    if (op < 0x40 && op % 8 == 4)
       || op in {0x6A, 0x6B, 0x80, 0x82, 0x83, 0xA8, 0xC0, 0xC1, 0xC6, 0xCD, 0xD4, 0xD5, 0xEB}
       || 0x70 <= op < 0x80 || 0xB0 <= op < 0xB8 || 0xE0 <= op < 0xE8 || (op == 0xF6 && reg < 2)
    then [One]
    else if (op < 0x40 && op % 8 == 5) || op in {0x68, 0x69, 0x81, 0xA9, 0xC7, 0xE8, 0xE9} || 0xB8 <= op < 0xC0
            || (op == 0xF7 && reg < 2)
    then [OperandSize]
    else if op == 0xC2 || op == 0xCA then [Two]
    else if op == 0xC8 then [Two, One]
    else if op == 0x9A || op == 0xEA then [OperandSize, Two]
    else if 0xA0 <= op < 0xA4 then [AddressSize]
    else []
  }

  predicate HasModrm0F(op: byte) {
    op < 0x04 || 0x10 <= op < 0x19 || op == 0x1F || 0x20 <= op < 0x24 || 0x28 <= op < 0x30 || 0x40 <= op < 0x77
    || op in {0x7E, 0x7F} || 0x90 <= op < 0xA0 || 0xA3 <= op < 0xA6 || 0xAB <= op < 0xC8 || 0xD0 <= op < 0xFF
  }

  function Imms0F(op: byte): seq<Size> {
    if 0x80 <= op < 0x90 then [OperandSize]
    else if 0x70 <= op < 0x74 || op in {0xA4, 0xAC, 0xBA, 0xC2, 0xC4, 0xC5, 0xC6} then [One]
    else []
  }

  /** Segment overrides, operand and address size, LOCK, REPNE and REP. */
  const PREFIXES: set<byte> := {0x26, 0x2E, 0x36, 0x3E, 0x64, 0x65, 0x66, 0x67, 0xF0, 0xF2, 0xF3}

  /** An opcode that its table decodes: not one of those given back, with the extension that it takes where the
      handler looks for one. */
  predicate Assigned(escape: bool, op: byte, reg: nat) {
    && (!escape ==> op !in PREFIXES && op != 0x0F)
    && !HandlerOf(escape, op).Rewind?
    && (!escape && op / 2 == 0x63 ==> reg == 0)
    && (escape && op == 0xBA ==> reg >= 4)
  }

  /** The format that a handler's reading amounts to. */
  function KindFormat(k: Operands, reg: nat): Format {
    match k
    case Nothing => Format(false, [])
    case Rewind => Format(false, [])
    case ModRM => Format(true, [])
    case ModRMByte => Format(true, [])
    case ModRMImm8 => Format(true, [One])
    case ModRMImmV => Format(true, [OperandSize])
    case Byte => Format(false, [One])
    case Sized => Format(false, [OperandSize])
    case Word => Format(false, [Two])
    case Enter => Format(false, [Two, One])
    case Far => Format(false, [OperandSize, Two])
    case Moffs => Format(false, [AddressSize])
    case Group3(sized) => Format(true, if reg >= 2 then [] else if sized then [OperandSize] else [One])
    case MovImm(sized) => Format(true, if sized then [OperandSize] else [One])
    case BitTest => Format(true, [One])
  }

  /** Every handler reads what the instruction format has. */
  lemma HandlerHasFormat(escape: bool, op: byte, reg: nat)
    requires Assigned(escape, op, reg)
    ensures FormatOf(escape, op, reg) == KindFormat(HandlerOf(escape, op), reg)
  {
    if escape {
      HandlerHasFormat0F(op, reg);
    } else {
      HandlerHasFormat1(op, reg);
    }
  }

  lemma HandlerHasFormat1(op: byte, reg: nat)
    requires !IsPrefix(op) && op != 0x0F && !Handler(op).Rewind?
    ensures Format(HasModrm(op), Imms(op, reg)) == KindFormat(Handler(op), reg)
  {
  }

  lemma HandlerHasFormat0F(op: byte, reg: nat)
    requires !Handler0F(op).Rewind?
    ensures Format(HasModrm0F(op), Imms0F(op)) == KindFormat(Handler0F(op), reg)
  {
  }

  // --- Reading an instruction back ---

  function EncodeImms(sizes: seq<Size>, imms: seq<nat>, m: Mode): seq<byte>
    requires |sizes| == |imms|
  {
    if imms == [] then []
    else LittleEndian(SizeOf(sizes[0], m), imms[0]) + EncodeImms(sizes[1..], imms[1..], m)
  }

  ghost predicate ImmsFit(sizes: seq<Size>, imms: seq<nat>, m: Mode) {
    && |sizes| == |imms|
    && forall i | 0 <= i < |imms| ::
         imms[i] < match SizeOf(sizes[i], m) case 1 => 0x100 case 2 => 0x1_0000 case _ => 0x1_0000_0000
  }

  /** What stands after the opcode. */
  function EncodeOperands(f: Format, reg: nat, a: Address, imms: seq<nat>, m: Mode): seq<byte>
    requires reg < 8 && (f.modrm ==> Encodable(a, m.addr16)) && |f.imms| == |imms|
  {
    (if f.modrm then EncodeAddress(reg, a, m.addr16) else []) + EncodeImms(f.imms, imms, m)
  }

  /** What the fields are then. */
  function FieldsMeant(f: Format, reg: nat, a: Address, imms: seq<nat>): Fields {
    if f.modrm then Fields(reg, Meant(a), imms) else Fields(0, Nowhere, imms)
  }

  lemma OneByte(v: nat)
    requires v < 0x100
    ensures LittleEndian(1, v) == [v]
  {
    assert LittleEndian(1, v) == [v % 0x100] + LittleEndian(0, v / 0x100);
  }

  /** An immediate is read back. */
  lemma ImmIsRead(s: seq<byte>, q: nat, sizes: seq<Size>, imms: seq<nat>, m: Mode)
    requires ImmsFit(sizes, imms, m) && imms != [] && Holds(s, q, EncodeImms(sizes, imms, m))
    ensures var n := SizeOf(sizes[0], m);
            && (n == 1 ==> Rb(s, q) == imms[0]) && (n == 2 ==> Rw(s, q) == imms[0]) && (n == 4 ==> Rd(s, q) == imms[0])
            && n in {1, 2, 4} && |EncodeImms(sizes, imms, m)| == n + |EncodeImms(sizes[1..], imms[1..], m)|
            && Holds(s, q + n, EncodeImms(sizes[1..], imms[1..], m)) && ImmsFit(sizes[1..], imms[1..], m)
  {
    var n := SizeOf(sizes[0], m);
    HoldsParts(s, q, LittleEndian(n, imms[0]), EncodeImms(sizes[1..], imms[1..], m));
    if n == 1 {
      OneByte(imms[0]);
      HoldsOne(s, q, LittleEndian(1, imms[0]));
    } else {
      NumberIsRead(s, q, n, imms[0]);
    }
    hide Rw, Rd, LittleEndian, Holds;
  }

  /** The reading of every kind of operands. */
  lemma OperandsAreRead(k: Operands, s: seq<byte>, q: nat, reg: nat, a: Address, imms: seq<nat>, m: Mode)
    requires reg < 8 && Encodable(a, m.addr16) && ImmsFit(KindFormat(k, reg).imms, imms, m)
    requires k.MovImm? ==> reg == 0
    requires k.BitTest? ==> reg >= 4
    requires k.ModRMByte? ==> a.Register?
    requires Holds(s, q, EncodeOperands(KindFormat(k, reg), reg, a, imms, m))
    ensures FieldsAt(k, s, q, m) == FieldsMeant(KindFormat(k, reg), reg, a, imms)
    ensures HandlerTail(k, At(s, q), At(s, q + 1), m) == |EncodeOperands(KindFormat(k, reg), reg, a, imms, m)|
  {
    hide ParsedModrm, AddressBytes, EncodeAddress, Encodable, Holds, EncodeImms, Rw, Rd, Rb, Meant, ImmsFit, FieldsAt,
         HandlerTail, ValueAt, SizeOf;
    var f := KindFormat(k, reg);
    var e := if f.modrm then EncodeAddress(reg, a, m.addr16) else [];
    assert |f.imms| == |imms| by { AsManyImms(f.imms, imms, m); }
    HoldsParts(s, q, e, EncodeImms(f.imms, imms, m));
    ImmsAreRead(s, q + |e|, f.imms, imms, m);
    if f.modrm {
      AddressIsRead(s, q, reg, a, m.addr16);
      ParsedBytes(s, q + 1, At(s, q), m.addr16);
      if k.ModRMByte? {
        RegisterForm(s, q, reg, a, m.addr16);
      }
      AddressedFields(k, s, q, reg, Meant(a), q + |e|, imms, m);
    } else {
      DirectFields(k, s, q, imms, m);
    }
  }

  lemma AsManyImms(sizes: seq<Size>, imms: seq<nat>, m: Mode)
    requires ImmsFit(sizes, imms, m)
    ensures |sizes| == |imms|
  {
  }

  /** The immediates stand at `q`, one after the other. */
  predicate Stand(s: seq<byte>, q: nat, sizes: seq<Size>, imms: seq<nat>, m: Mode) {
    && |sizes| == |imms| <= 2
    && (|imms| > 0 ==> imms[0] == ValueAt(s, q, SizeOf(sizes[0], m)))
    && (|imms| > 1 ==> imms[1] == ValueAt(s, q + SizeOf(sizes[0], m), SizeOf(sizes[1], m)))
  }

  function Sum(sizes: seq<Size>, m: Mode): nat {
    (if |sizes| > 0 then SizeOf(sizes[0], m) else 0) + (if |sizes| > 1 then SizeOf(sizes[1], m) else 0)
  }

  lemma DirectFields(k: Operands, s: seq<byte>, q: nat, imms: seq<nat>, m: Mode)
    requires !KindFormat(k, 0).modrm && Stand(s, q, KindFormat(k, 0).imms, imms, m)
    ensures FieldsAt(k, s, q, m) == Fields(0, Nowhere, imms)
    ensures HandlerTail(k, At(s, q), At(s, q + 1), m) == Sum(KindFormat(k, 0).imms, m)
  {
    hide Rw, Rd, Rb, ParsedModrm, AddressBytes;
  }

  lemma AddressedFields(k: Operands, s: seq<byte>, q: nat, reg: nat, place: Place, after: nat, imms: seq<nat>, m: Mode)
    requires KindFormat(k, reg).modrm && Reg(At(s, q)) == reg && Stand(s, after, KindFormat(k, reg).imms, imms, m)
    requires ParsedModrm(s, q + 1, At(s, q), m.addr16) == (place, after)
    requires after == q + 1 + AddressBytes(At(s, q), At(s, q + 1), m.addr16)
    requires k.MovImm? ==> reg == 0
    requires k.BitTest? ==> reg >= 4
    requires k.ModRMByte? ==> place == RegisterAt(At(s, q) % 8) && after == q + 1
    ensures FieldsAt(k, s, q, m) == Fields(reg, place, imms)
    ensures HandlerTail(k, At(s, q), At(s, q + 1), m) == after - q + Sum(KindFormat(k, reg).imms, m)
  {
    HighReg(At(s, q));
    hide Rw, Rd, Rb, ParsedModrm, AddressBytes, Reg;
  }

  lemma HighReg(b: byte)
    ensures Reg(b) >= 4 ==> b / 32 % 2 == 1
  {
  }

  lemma RegisterForm(s: seq<byte>, q: nat, reg: nat, a: Address, addr16: bool)
    requires a.Register? && reg < 8 && Encodable(a, addr16) && Holds(s, q, EncodeAddress(reg, a, addr16))
    ensures Meant(a) == RegisterAt(At(s, q) % 8) && |EncodeAddress(reg, a, addr16)| == 1
  {
    AddressParts(s, q, reg, a, addr16);
  }

  /** Up to two immediates. */
  lemma ImmsAreRead(s: seq<byte>, q: nat, sizes: seq<Size>, imms: seq<nat>, m: Mode)
    requires ImmsFit(sizes, imms, m) && |sizes| <= 2 && Holds(s, q, EncodeImms(sizes, imms, m))
    ensures Stand(s, q, sizes, imms, m) && |EncodeImms(sizes, imms, m)| == Sum(sizes, m)
  {
    hide Rw, Rd, Rb, Holds;
    if |imms| > 0 {
      ImmIsRead(s, q, sizes, imms, m);
      if |imms| > 1 {
        ImmIsRead(s, q + SizeOf(sizes[0], m), sizes[1..], imms[1..], m);
      }
    }
  }

  function ValueAt(s: seq<byte>, q: nat, n: nat): nat {
    if n == 1 then Rb(s, q) else if n == 2 then Rw(s, q) else Rd(s, q)
  }

  /** An instruction: its prefixes, opcode, register field or opcode extension, operand and immediates. */
  datatype Instruction = Instruction(prefixes: seq<byte>, escape: bool, op: byte, reg: nat, address: Address,
                                     imms: seq<nat>)

  /** The mode that the prefixes put in force: a size prefix selects the other size, however often it stands. */
  function ModeIn(i: Instruction, m: Mode): Mode {
    Mode(m.code16 != (0x66 in i.prefixes), m.addr16 != (0x67 in i.prefixes))
  }

  /** A writable instruction: MOV to and from control and debug registers has register operands only. */
  ghost predicate WellFormed(i: Instruction, m: Mode) {
    && (forall p | p in i.prefixes :: p in PREFIXES)
    && i.reg < 8 && Assigned(i.escape, i.op, i.reg) && Encodable(i.address, ModeIn(i, m).addr16)
    && (i.escape && 0x20 <= i.op < 0x24 ==> i.address.Register?)
    && ImmsFit(FormatOf(i.escape, i.op, i.reg).imms, i.imms, ModeIn(i, m))
  }

  function Opcode(i: Instruction): seq<byte> { if i.escape then [0x0F, i.op] else [i.op] }

  function Encode(i: Instruction, m: Mode): seq<byte>
    requires WellFormed(i, m)
  {
    i.prefixes + (Opcode(i) + EncodeOperands(FormatOf(i.escape, i.op, i.reg), i.reg, i.address, i.imms, ModeIn(i, m)))
  }

  lemma {:induction false} PrefixesCounted(s: seq<byte>, b: seq<byte>, j: nat)
    requires (forall p | p in b :: IsPrefix(p)) && Holds(s, 0, b) && !IsPrefix(At(s, |b|)) && j <= |b|
    ensures PrefixCount(s, j) == |b| - j
    decreases |b| - j
  {
    if j < |b| {
      assert At(s, 0 + j) == b[j] && b[j] in b;
      PrefixesCounted(s, b, j + 1);
    }
  }

  lemma SameHasIn(s: seq<byte>, b: seq<byte>, x: byte)
    requires Holds(s, 0, b)
    ensures Has(s, 0, |b|, x) <==> x in b
  {
    forall j: nat | j < |b| ensures At(s, j) == b[j] {
      assert At(s, 0 + j) == b[j];
    }
    if x in b {
      var j :| 0 <= j < |b| && b[j] == x;
      assert At(s, j) == x;
    }
  }

  lemma HeadIsRead(s: seq<byte>, i: Instruction, m: Mode)
    requires WellFormed(i, m) && Holds(s, 0, i.prefixes) && Holds(s, |i.prefixes|, Opcode(i))
    ensures HeadAt(s, 0) == Head(|i.prefixes|, i.escape, i.op, |i.prefixes| + |Opcode(i)|)
    ensures ModeAfter(m, s, 0, |i.prefixes|) == ModeIn(i, m)
  {
    var n := |i.prefixes|;
    assert At(s, n + 0) == Opcode(i)[0];
    assert i.escape ==> At(s, n + 1) == Opcode(i)[1];
    hide Handler, Handler0F, HandlerOf, FormatOf, Encodable;
    PrefixesCounted(s, i.prefixes, 0);
    SameHasIn(s, i.prefixes, 0x66);
    SameHasIn(s, i.prefixes, 0x67);
  }

  /** The decoder reads back what is written by the rules of the instruction set: for any prefixes, opcode, addressing
      form, displacement and immediates, and whatever follows, the cursor moves by the length of the encoding, and the
      fields are the instruction's. */
  lemma InstructionIsRead(i: Instruction, m: Mode, rest: seq<byte>)
    requires WellFormed(i, m)
    ensures var s := Encode(i, m) + rest;
            && CursorMoves(s, m) == BytesRead(s, m) == |Encode(i, m)|
            && FieldsOf(s, m) == FieldsMeant(FormatOf(i.escape, i.op, i.reg), i.reg, i.address, i.imms)
  {
    hide FormatOf, KindFormat, EncodeOperands, Encodable, ImmsFit, Holds, HandlerOf, HeadAt, FieldsAt, HandlerTail,
         FieldsMeant, ModeAfter, Opcode, Assigned, At;
    var f, m', n := FormatOf(i.escape, i.op, i.reg), ModeIn(i, m), |i.prefixes|;
    LengthsFit(i, m);
    var tail := EncodeOperands(f, i.reg, i.address, i.imms, m');
    var s := Encode(i, m) + rest;
    Standing(Encode(i, m), rest);
    HoldsParts(s, 0, i.prefixes, Opcode(i) + tail);
    HoldsParts(s, n, Opcode(i), tail);
    HeadIsRead(s, i, m);
    HandlerHasFormat(i.escape, i.op, i.reg);
    KindConditions(i, m);
    OperandsAreRead(HandlerOf(i.escape, i.op), s, n + |Opcode(i)|, i.reg, i.address, i.imms, m');
  }

  lemma LengthsFit(i: Instruction, m: Mode)
    requires WellFormed(i, m)
    ensures |FormatOf(i.escape, i.op, i.reg).imms| == |i.imms|
  {
    hide FormatOf, Encodable, Assigned;
  }

  lemma Standing(b: seq<byte>, rest: seq<byte>)
    ensures Holds(b + rest, 0, b)
  {
  }

  /** Where a handler asks for more of the instruction than its format says. */
  lemma KindConditions(i: Instruction, m: Mode)
    requires WellFormed(i, m)
    ensures var k := HandlerOf(i.escape, i.op);
            && !k.Rewind? && (k.MovImm? ==> i.reg == 0) && (k.BitTest? ==> i.reg >= 4)
            && (k.ModRMByte? ==> i.address.Register?)
  {
    hide Encodable, ImmsFit, FormatOf;
  }

  /** In a trace: an accepted instruction is one step as long as its encoding. */
  lemma StepIsEncoding<I>(insn: (seq<byte>, Context) -> I, ends: (seq<byte>, nat) -> bool, i: Instruction, h: Context,
                          rest: seq<byte>)
    requires WellFormed(i, ModeOf(h.hash)) && !IsTooLong(Encode(i, ModeOf(h.hash)) + rest, ModeOf(h.hash))
    ensures X86(insn, ends).step(Encode(i, ModeOf(h.hash)) + rest, h).len == |Encode(i, ModeOf(h.hash))|
  {
    InstructionIsRead(i, ModeOf(h.hash), rest);
    hide CursorMoves, BytesRead, Encode, IsTooLong, BadLock, WellFormed, FieldsOf, FieldsMeant, LeftAfter, BytesLooked;
  }

  // --- LOCK ---

  /** The opcodes with a form that LOCK may precede: the additions, subtractions and logical operations with memory,
      the exchanges, the bit tests that write, INC, DEC, NOT and NEG. */
  predicate Lockable(escape: bool, op: byte) {
    if escape then op in {0xAB, 0xB0, 0xB1, 0xB3, 0xBA, 0xBB, 0xC0, 0xC1, 0xC7}
    else (op < 0x38 && op % 8 < 2) || 0x80 <= op < 0x84 || op in {0x86, 0x87, 0xF6, 0xF7, 0xFE, 0xFF}
  }

  /** The table allows LOCK on exactly these, but not on NOT and NEG, nor on the second encoding of opcode 80. */
  lemma LockExactly(escape: bool, op: byte)
    requires escape || (op !in PREFIXES && op != 0x0F)
    ensures Info(escape, op) / 0x80 % 2 == 1 <==> Lockable(escape, op) && (escape || op !in {0x82, 0xF6, 0xF7})
  {
    if escape {
      LockExactly0F(op);
    } else {
      LockExactly1(op);
    }
  }

  lemma LockExactly0F(op: byte)
    ensures OpInfo0F(op) / 0x80 % 2 == 1 <==> Lockable(true, op)
  {
  }

  lemma LockExactly1(op: byte)
    requires op !in PREFIXES && op != 0x0F
    ensures OpInfo(op) / 0x80 % 2 == 1 <==> Lockable(false, op) && op !in {0x82, 0xF6, 0xF7}
  {
  }

  /** So `LOCK NEG` of memory is rejected. */
  lemma LockNegIsRejected(m: Mode)
    ensures var s: seq<byte> := [0xF0, 0xF7, 0x18]; BadLock(s) && !IsTooLong(s, m)
  {
    var s: seq<byte> := [0xF0, 0xF7, 0x18];
    assert PrefixCount(s, 1) == 0 && PrefixCount(s, 0) == 1;
    assert At(s, 0) == 0xF0 && At(s, 1) == 0xF7;
    FewPrefixesFit(s, m);
    hide IsTooLong;
    LockExactly(false, 0xF7);
  }
}
