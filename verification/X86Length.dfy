/** The length decoder find_instruction_length and the bytes the opcode handlers consume
    (src/halfix/decoder.c): two independent descriptions of the same instruction set. */
module X86Length {
  import opened GuestMemory

  /** Operand and address size: the two low bits of state_hash. */
  datatype Mode = Mode(code16: bool, addr16: bool)

  function ModeOf(stateHash: nat): Mode {
    Mode(stateHash % 2 == 1, stateHash / 2 % 2 == 1)
  }

  /** Bytes past the end of the modelled memory read as zero. */
  function At(s: seq<byte>, i: nat): byte {
    if i < |s| then s[i] else 0
  }

  predicate IsPrefix(b: byte) {
    b in {0x26, 0x2E, 0x36, 0x3E, 0x64, 0x65, 0x66, 0x67, 0xF0, 0xF2, 0xF3}
  }

  // --- Prefixes: each size prefix counts once, however often it is repeated ---

  function PrefixCount(s: seq<byte>, i: nat): (n: nat)
    ensures forall j | i <= j < i + n :: IsPrefix(At(s, j))
    ensures !IsPrefix(At(s, i + n))
    decreases if i < |s| then |s| - i else 0
  {
    if i < |s| && IsPrefix(s[i]) then 1 + PrefixCount(s, i + 1) else 0
  }

  predicate Has(s: seq<byte>, i: nat, n: nat, b: byte) {
    exists j | i <= j < i + n :: At(s, j) == b
  }

  /** The mode in force after the `n` prefixes from `i` on. */
  function ModeAfter(m: Mode, s: seq<byte>, i: nat, n: nat): Mode {
    Mode(m.code16 != Has(s, i, n, 0x66), m.addr16 != Has(s, i, n, 0x67))
  }

  // --- The ModR/M byte ---

  /** Bytes after ModR/M, SIB and displacement, as find_instruction_length counts them: by the addressing mode, with
      MOD and RM combined for 32 bits. */
  function CountedBytes(modrm: byte, sib: byte, addr16: bool): (n: nat)
    ensures n <= 5
  {
    if modrm >= 0xC0 then 0
    else if addr16 then
      var mod := modrm / 64;
      if mod == 0 then (if modrm % 8 == 6 then 2 else 0) else if mod == 1 then 1 else 2
    else
      var field := modrm / 64 * 8 + modrm % 8;
      if field == 4 then (if sib % 8 == 5 then 5 else 1)
      else if field == 0x0C then 2
      else if field == 0x14 then 5
      else if field == 5 || 16 <= field <= 19 || 21 <= field <= 23 then 4
      else if field < 8 then 0
      else 1
  }

  /** The bytes that parse_modrm takes. */
  function AddressBytes(modrm: byte, sib: byte, addr16: bool): (n: nat)
    ensures n <= 5
  {
    var mod, rm := modrm / 64, modrm % 8;
    if mod == 3 then 0
    else if addr16 then
      (if mod == 0 then (if rm == 6 then 2 else 0) else mod)
    else if mod == 0 then
      (if rm == 4 then (if sib % 8 == 5 then 5 else 1) else if rm == 5 then 4 else 0)
    else
      (if rm == 4 then 1 else 0) + (if mod == 1 then 1 else 4)
  }

  /** The length decoder counts what parse_modrm takes. */
  lemma CountsAgree(modrm: byte, sib: byte, addr16: bool)
    ensures CountedBytes(modrm, sib, addr16) == AddressBytes(modrm, sib, addr16)
  {
  }

  // --- parse_modrm ---

  /** rb, rbs, rw and rd: the value at the cursor; a signed byte is extended to 32 bits. */
  function Rb(s: seq<byte>, q: nat): nat { At(s, q) }

  function Rbs(s: seq<byte>, q: nat): nat { if At(s, q) < 0x80 then At(s, q) else At(s, q) + 0xFFFF_FF00 }

  function Rw(s: seq<byte>, q: nat): nat { At(s, q) + 0x100 * At(s, q + 1) }

  function Rd(s: seq<byte>, q: nat): nat { Rw(s, q) + 0x1_0000 * Rw(s, q + 2) }

  /** EZR: no register. */
  const EZR := 8

  /** The operand that ModR/M names: none, a register, or memory at the sum of a base, a scaled index and a
      displacement of 32 bits, by default in the stack segment or in the data segment. */
  datatype Place =
    | Nowhere
    | RegisterAt(rm: nat)
    | MemoryAt(base: nat, index: nat, scale: nat, stack: bool, disp: nat)

  /** addr16_lut2: base, index and default segment of the 16-bit forms. */
  function Base16(rm: nat): nat {
    if rm < 2 || rm == 7 then 3 else if rm == 2 || rm == 3 || rm == 6 then 5 else if rm == 4 then 6 else 7
  }

  function Index16(rm: nat): nat {
    if rm == 0 || rm == 2 then 6 else if rm == 1 || rm == 3 then 7 else EZR
  }

  predicate Stack16(rm: nat) { rm == 2 || rm == 3 || rm == 6 }

  /** parse_modrm with the cursor at `q`: the operand, and where the cursor then stands. */
  function ParsedModrm(s: seq<byte>, q: nat, modrm: byte, addr16: bool): (Place, nat) {
    var rm := modrm % 8;
    var field := modrm / 64 * 8 + rm;
    if field >= 24 then (RegisterAt(rm), q)
    else if addr16 then
      if field == 6 then (MemoryAt(EZR, EZR, 0, false, Rw(s, q)), q + 2)
      else if field < 8 then (MemoryAt(Base16(rm), Index16(rm), 0, Stack16(rm), 0), q)
      else if field < 16 then (MemoryAt(Base16(rm), Index16(rm), 0, Stack16(rm), Rbs(s, q)), q + 1)
      else (MemoryAt(Base16(rm), Index16(rm), 0, Stack16(rm), Rw(s, q)), q + 2)
    else if field == 5 then (MemoryAt(EZR, EZR, 0, false, Rd(s, q)), q + 4)
    else if rm != 4 then
      if field < 8 then (MemoryAt(rm, EZR, 0, rm == 5, 0), q)
      else if field < 16 then (MemoryAt(rm, EZR, 0, rm == 5, Rbs(s, q)), q + 1)
      else (MemoryAt(rm, EZR, 0, rm == 5, Rd(s, q)), q + 4)
    else ParsedSib(s, q + 1, At(s, q), field)
  }

  /** The forms with a SIB byte; the cursor is past it. */
  function ParsedSib(s: seq<byte>, q: nat, sib: byte, field: nat): (Place, nat) {
    var index, base := sib / 8 % 8, sib % 8;
    var i, scale := if index == 4 then EZR else index, if index == 4 then 0 else sib / 64;
    var stack := base == 4 || base == 5;
    if field == 4 then
      if base == 5 then (MemoryAt(EZR, i, scale, false, Rd(s, q)), q + 4)
      else (MemoryAt(base, i, scale, stack, 0), q)
    else if field == 0x0C then (MemoryAt(base, i, scale, stack, Rbs(s, q)), q + 1)
    else (MemoryAt(base, i, scale, stack, Rd(s, q)), q + 4)
  }

  lemma ParsedBytes(s: seq<byte>, q: nat, modrm: byte, addr16: bool)
    ensures ParsedModrm(s, q, modrm, addr16).1 == q + AddressBytes(modrm, At(s, q), addr16)
  {
  }

  function Reg(modrm: byte): nat {
    modrm / 8 % 8
  }

  // --- find_instruction_length ---

  /** optable as runs of equal entries: low nibble the operand form, high nibble the immediates. */
  function OpInfo(op: byte): nat {
    if op < 0x02 then 0x83 else if op < 0x04 then 0x03 else if op < 0x05 then 0x10 else if op < 0x06 then 0x20 else
    if op < 0x08 then 0x00 else if op < 0x0A then 0x83 else if op < 0x0C then 0x03 else if op < 0x0D then 0x10 else
    if op < 0x0E then 0x20 else if op < 0x0F then 0x00 else if op < 0x10 then 0x01 else if op < 0x12 then 0x83 else
    if op < 0x14 then 0x03 else if op < 0x15 then 0x10 else if op < 0x16 then 0x20 else if op < 0x18 then 0x00 else
    if op < 0x1A then 0x83 else if op < 0x1C then 0x03 else if op < 0x1D then 0x10 else if op < 0x1E then 0x20 else
    if op < 0x20 then 0x00 else if op < 0x22 then 0x83 else if op < 0x24 then 0x03 else if op < 0x25 then 0x10 else
    if op < 0x26 then 0x20 else if op < 0x27 then 0x01 else if op < 0x28 then 0x00 else if op < 0x2A then 0x83 else
    if op < 0x2C then 0x03 else if op < 0x2D then 0x10 else if op < 0x2E then 0x20 else if op < 0x2F then 0x01 else
    if op < 0x30 then 0x00 else if op < 0x32 then 0x83 else if op < 0x34 then 0x03 else if op < 0x35 then 0x10 else
    if op < 0x36 then 0x20 else if op < 0x37 then 0x01 else if op < 0x38 then 0x00 else if op < 0x3C then 0x03 else
    if op < 0x3D then 0x10 else if op < 0x3E then 0x20 else if op < 0x3F then 0x01 else if op < 0x62 then 0x00 else
    if op < 0x64 then 0x03 else if op < 0x68 then 0x01 else if op < 0x69 then 0x20 else if op < 0x6A then 0x23 else
    if op < 0x6B then 0x10 else if op < 0x6C then 0x13 else if op < 0x70 then 0x00 else if op < 0x80 then 0x10 else
    if op < 0x81 then 0x93 else if op < 0x82 then 0xA3 else if op < 0x83 then 0x13 else if op < 0x84 then 0x93 else
    if op < 0x86 then 0x03 else if op < 0x88 then 0x83 else if op < 0x90 then 0x03 else if op < 0x9A then 0x00 else
    if op < 0x9B then 0x60 else if op < 0xA0 then 0x00 else if op < 0xA4 then 0x04 else if op < 0xA8 then 0x00 else
    if op < 0xA9 then 0x10 else if op < 0xAA then 0x20 else if op < 0xB0 then 0x00 else if op < 0xB8 then 0x10 else
    if op < 0xC0 then 0x20 else if op < 0xC2 then 0x13 else if op < 0xC3 then 0x40 else if op < 0xC4 then 0x00 else
    if op < 0xC6 then 0x03 else if op < 0xC7 then 0x13 else if op < 0xC8 then 0x23 else if op < 0xC9 then 0x30 else
    if op < 0xCA then 0x00 else if op < 0xCB then 0x20 else if op < 0xCD then 0x00 else if op < 0xCE then 0x10 else
    if op < 0xD0 then 0x00 else if op < 0xD4 then 0x03 else if op < 0xD6 then 0x10 else if op < 0xD8 then 0x00 else
    if op < 0xE0 then 0x03 else if op < 0xE8 then 0x10 else if op < 0xEA then 0x20 else if op < 0xEB then 0x60 else
    if op < 0xEC then 0x10 else if op < 0xF0 then 0x00 else if op < 0xF1 then 0x01 else if op < 0xF2 then 0x05 else
    if op < 0xF4 then 0x01 else if op < 0xF6 then 0x00 else if op < 0xF8 then 0x03 else if op < 0xFE then 0x00 else
    0x83
  }

  /** optable0F, likewise. */
  function OpInfo0F(op: byte): nat {
    if op < 0x04 then 0x03 else if op < 0x06 then 0x05 else if op < 0x07 then 0x00 else if op < 0x08 then 0x05 else
    if op < 0x0A then 0x00 else if op < 0x10 then 0x05 else if op < 0x18 then 0x03 else if op < 0x19 then 0x05 else
    if op < 0x21 then 0x03 else if op < 0x22 then 0x10 else if op < 0x23 then 0x03 else if op < 0x24 then 0x10 else
    if op < 0x28 then 0x05 else if op < 0x30 then 0x03 else if op < 0x34 then 0x00 else if op < 0x40 then 0x05 else
    if op < 0x70 then 0x03 else if op < 0x74 then 0x13 else if op < 0x80 then 0x03 else if op < 0x90 then 0x20 else
    if op < 0xA0 then 0x03 else if op < 0xA3 then 0x00 else if op < 0xA4 then 0x03 else if op < 0xA5 then 0x13 else
    if op < 0xA6 then 0x03 else if op < 0xA8 then 0x05 else if op < 0xAA then 0x00 else if op < 0xAB then 0x05 else
    if op < 0xAC then 0x83 else if op < 0xAD then 0x13 else if op < 0xB0 then 0x03 else if op < 0xB2 then 0x83 else
    if op < 0xB3 then 0x03 else if op < 0xB4 then 0x83 else if op < 0xB8 then 0x03 else if op < 0xBA then 0x05 else
    if op < 0xBB then 0x93 else if op < 0xBC then 0x83 else if op < 0xC0 then 0x03 else if op < 0xC2 then 0x83 else
    if op < 0xC7 then 0x03 else if op < 0xC8 then 0x83 else if op < 0xD0 then 0x00 else if op < 0xF0 then 0x03 else
    if op < 0xF1 then 0x05 else if op < 0xFF then 0x03 else 0x05
  }

  function Info(escape: bool, op: byte): nat {
    if escape then OpInfo0F(op) else OpInfo(op)
  }

  const MODRM := 3
  const MOFFS := 4

  predicate Imm8(info: nat) { info / 16 % 2 == 1 }
  predicate ImmV(info: nat) { info / 32 % 2 == 1 }
  predicate Imm16(info: nat) { info / 64 % 2 == 1 }

  function WordBytes(code16: bool): nat {
    if code16 then 2 else 4
  }

  /** F6 and F7 carry an immediate when the register field is 0 or 1. */
  function Adjusted(escape: bool, op: byte, info: nat, modrm: byte): nat {
    if !escape && op / 2 * 2 == 0xF6 && info % 16 == MODRM && Reg(modrm) < 2 then
      (if op % 2 == 1 then (if ImmV(info) then info else info + 0x20) else (if Imm8(info) then info else info + 0x10))
    else info
  }

  function Immediates(info: nat, code16: bool): nat {
    (if Imm8(info) then 1 else 0) + (if Imm16(info) then 2 else 0) + (if ImmV(info) then WordBytes(code16) else 0)
  }

  /** Bytes after the opcode according to the tables. */
  function TableTail(escape: bool, op: byte, modrm: byte, sib: byte, m: Mode): nat {
    var info := Info(escape, op);
    (if info % 16 == MODRM then 1 + CountedBytes(modrm, sib, m.addr16)
     else if info % 16 == MOFFS then WordBytes(m.addr16) else 0)
    + Immediates(Adjusted(escape, op, info, modrm), m.code16)
  }

  // --- The opcode handlers ---

  /** How many bytes a handler consumes after its opcode. */
  datatype Operands =
    | Nothing | Rewind | ModRM | ModRMByte | ModRMImm8 | ModRMImmV | Byte | Sized | Word | Enter | Far | Moffs
    | Group3(sized: bool) | MovImm(sized: bool) | BitTest

  /** The one-byte map (table); prefixes and 0F never reach it. */
  function Handler(op: byte): Operands {
    if op < 0x40 then
      (if op % 8 < 4 then ModRM else if op % 8 == 4 then Byte else if op % 8 == 5 then Operands.Sized else Nothing)
    else if op < 0x62 then Nothing
    else if op < 0x64 then ModRM
    else if op < 0x68 then Nothing
    else if op == 0x68 then Operands.Sized
    else if op == 0x69 then ModRMImmV
    else if op == 0x6A then Byte
    else if op == 0x6B then ModRMImm8
    else if op < 0x70 then Nothing
    else if op < 0x80 then Byte
    else if op == 0x81 then ModRMImmV
    else if op < 0x84 then ModRMImm8
    else if op < 0x90 then ModRM
    else if op == 0x9A then Far
    else if op < 0xA0 then Nothing
    else if op < 0xA4 then Operands.Moffs
    else if op == 0xA8 then Byte
    else if op == 0xA9 then Operands.Sized
    else if op < 0xB0 then Nothing
    else if op < 0xB8 then Byte
    else if op < 0xC0 then Operands.Sized
    else if op < 0xC2 then ModRMImm8
    else if op == 0xC2 || op == 0xCA then Word
    else if op == 0xC4 || op == 0xC5 then ModRM
    else if op == 0xC6 then MovImm(false)
    else if op == 0xC7 then MovImm(true)
    else if op == 0xC8 then Enter
    else if op == 0xCD then Byte
    else if op < 0xD0 then Nothing
    else if op < 0xD4 then ModRM
    else if op < 0xD6 then Byte
    else if op == 0xD6 then Rewind
    else if op == 0xD7 then Nothing
    else if op < 0xE0 then ModRM
    else if op < 0xE8 then Byte
    else if op < 0xEA then Operands.Sized
    else if op == 0xEA then Far
    else if op == 0xEB then Byte
    else if op < 0xF1 then Nothing
    else if op == 0xF1 then Rewind
    else if op < 0xF6 then Nothing
    else if op == 0xF6 then Group3(false)
    else if op == 0xF7 then Group3(true)
    else if op < 0xFE then Nothing
    else ModRM
  }

  /** The two-byte map (table0F). */
  function Handler0F(op: byte): Operands {
    if op < 0x04 then ModRM
    else if op == 0x08 || op == 0x0D then Rewind
    else if op < 0x10 then Nothing
    else if op < 0x19 || op == 0x1F then ModRM
    else if op < 0x1F then Rewind
    else if op < 0x24 then ModRMByte
    else if op < 0x28 then Rewind
    else if op < 0x30 then ModRM
    else if op < 0x33 || op == 0x34 || op == 0x35 then Nothing
    else if op < 0x40 then Rewind
    else if op < 0x70 then ModRM
    else if op < 0x74 then ModRMImm8
    else if op < 0x77 then ModRM
    else if op == 0x77 then Nothing
    else if op < 0x7E then Rewind
    else if op < 0x80 then ModRM
    else if op < 0x90 then Operands.Sized
    else if op < 0xA0 then ModRM
    else if op < 0xA3 || op == 0xA8 || op == 0xA9 || op == 0xA6 || op == 0xA7 then Nothing
    else if op == 0xA4 || op == 0xAC then ModRMImm8
    else if op == 0xAA || op == 0xB8 || op == 0xB9 then Rewind
    else if op == 0xBA then BitTest
    else if op == 0xC2 || op == 0xC4 || op == 0xC5 || op == 0xC6 then ModRMImm8
    else if op < 0xC8 then ModRM
    else if op < 0xD0 then Nothing
    else if op < 0xF0 then ModRM
    else if op == 0xF0 then Rewind
    else if op < 0xFF then ModRM
    else Nothing
  }

  function HandlerOf(escape: bool, op: byte): Operands {
    if escape then Handler0F(op) else Handler(op)
  }

  /** Bytes consumed after the opcode; a rewinding handler gives the opcode byte back. */
  function HandlerTail(k: Operands, modrm: byte, sib: byte, m: Mode): nat {
    var address := 1 + AddressBytes(modrm, sib, m.addr16);
    match k
    case Nothing => 0
    case Rewind => 0
    case ModRM => address
    case ModRMByte => 1
    case ModRMImm8 => address + 1
    case ModRMImmV => address + WordBytes(m.code16)
    case Byte => 1
    case Sized => WordBytes(m.code16)
    case Word => 2
    case Enter => 3
    case Far => WordBytes(m.code16) + 2
    case Moffs => WordBytes(m.addr16)
    case Group3(sized) => address + if Reg(modrm) >= 2 then 0 else if sized then WordBytes(m.code16) else 1
    case MovImm(sized) => if Reg(modrm) != 0 then 1 else address + if sized then WordBytes(m.code16) else 1
    case BitTest => address + if modrm / 32 % 2 == 0 then 0 else 1
  }

  function Rv(s: seq<byte>, q: nat, short: bool): nat {
    if short then Rw(s, q) else Rd(s, q)
  }

  /** What a handler reads: the register field, the operand that ModR/M names, and the immediates in their order, as
      unsigned numbers. */
  datatype Fields = Fields(reg: nat, place: Place, imms: seq<nat>)

  /** The fields that the operands starting at `q` hold. */
  function FieldsAt(k: Operands, s: seq<byte>, q: nat, m: Mode): Fields {
    var modrm := At(s, q);
    var reg, parsed := Reg(modrm), ParsedModrm(s, q + 1, modrm, m.addr16);
    match k
    case Nothing => Fields(0, Nowhere, [])
    case Rewind => Fields(0, Nowhere, [])
    case ModRM => Fields(reg, parsed.0, [])
    case ModRMByte => Fields(reg, RegisterAt(modrm % 8), [])
    case ModRMImm8 => Fields(reg, parsed.0, [Rb(s, parsed.1)])
    case ModRMImmV => Fields(reg, parsed.0, [Rv(s, parsed.1, m.code16)])
    case Byte => Fields(0, Nowhere, [Rb(s, q)])
    case Sized => Fields(0, Nowhere, [Rv(s, q, m.code16)])
    case Word => Fields(0, Nowhere, [Rw(s, q)])
    case Enter => Fields(0, Nowhere, [Rw(s, q), Rb(s, q + 2)])
    case Far => Fields(0, Nowhere, [Rv(s, q, m.code16), Rw(s, q + WordBytes(m.code16))])
    case Moffs => Fields(0, Nowhere, [Rv(s, q, m.addr16)])
    case Group3(sized) =>
      Fields(reg, parsed.0,
             if reg >= 2 then [] else if sized then [Rv(s, parsed.1, m.code16)] else [Rb(s, parsed.1)])
    case MovImm(sized) =>
      if reg != 0 then Fields(reg, Nowhere, [])
      else Fields(reg, parsed.0, if sized then [Rv(s, parsed.1, m.code16)] else [Rb(s, parsed.1)])
    case BitTest => Fields(reg, parsed.0, if modrm / 32 % 2 == 0 then [] else [Rb(s, parsed.1)])
  }

  /** The two-byte opcodes whose table entry lacks a byte that the handler reads. */
  predicate Shortfall(escape: bool, op: byte) {
    escape && op in {0x18, 0xC2, 0xC4, 0xC5, 0xC6}
  }

  /** What the table entry must hold for the handler's operands. */
  predicate Admits(info: nat, k: Operands) {
    match k
    case Nothing => true
    case Rewind => true
    case ModRM => info % 16 == MODRM
    case ModRMByte => info % 16 == MODRM || Imm8(info)
    case ModRMImm8 => info % 16 == MODRM && Imm8(info)
    case ModRMImmV => info % 16 == MODRM && ImmV(info)
    case Byte => Imm8(info)
    case Sized => ImmV(info)
    case Word => Imm16(info) || ImmV(info)
    case Enter => Imm8(info) && ImmV(info)
    case Far => Imm16(info) && ImmV(info)
    case Moffs => info % 16 == MOFFS
    case Group3(_) => info % 16 == MODRM
    case MovImm(sized) => info % 16 == MODRM && if sized then ImmV(info) else Imm8(info)
    case BitTest => info % 16 == MODRM && Imm8(info)
  }

  /** The tables and the handlers agree except on those five opcodes. */
  lemma TableAdmits(op: byte)
    requires !IsPrefix(op) && op != 0x0F
    ensures Admits(OpInfo(op), Handler(op))
  {
  }

  lemma TableAdmits0F(op: byte)
    ensures Admits(OpInfo0F(op), Handler0F(op)) <==> !Shortfall(true, op)
  {
  }

  lemma TableTailBound(escape: bool, op: byte, modrm: byte, sib: byte, m: Mode)
    ensures TableTail(escape, op, modrm, sib, m) + (if escape then 2 else 1) <= 11
  {
    var info := Info(escape, op);
    if escape {
      Immediates0F(op);
    } else {
      ImmediatesPlain(op);
    }
  }

  lemma ImmediatesPlain(op: byte)
    ensures OpInfo(op) % 16 == MODRM ==> !Imm16(OpInfo(op)) && !(Imm8(OpInfo(op)) && ImmV(OpInfo(op)))
    ensures op / 2 * 2 == 0xF6 ==> OpInfo(op) == MODRM
    ensures OpInfo(op) % 16 == MOFFS ==> OpInfo(op) == MOFFS
    ensures OpInfo(op) < 0x100
  {
  }

  lemma Immediates0F(op: byte)
    ensures OpInfo0F(op) % 16 == MODRM ==> !Imm16(OpInfo0F(op)) && !ImmV(OpInfo0F(op))
    ensures OpInfo0F(op) % 16 != MOFFS && !Imm16(OpInfo0F(op)) && !(Imm8(OpInfo0F(op)) && ImmV(OpInfo0F(op)))
    ensures OpInfo0F(op) < 0x100
  {
  }

  /** A table entry that admits the operands accounts for every byte of them. */
  lemma AdmittedTail(escape: bool, op: byte, modrm: byte, sib: byte, m: Mode)
    requires Admits(Info(escape, op), HandlerOf(escape, op))
    ensures HandlerTail(HandlerOf(escape, op), modrm, sib, m) <= TableTail(escape, op, modrm, sib, m)
  {
    CountsAgree(modrm, sib, m.addr16);
    hide AddressBytes, CountedBytes;
    if !escape {
      ImmediatesPlain(op);
    }
  }

  lemma ShortTail(op: byte, modrm: byte, sib: byte, m: Mode)
    requires Shortfall(true, op)
    ensures HandlerTail(Handler0F(op), modrm, sib, m) > TableTail(true, op, modrm, sib, m)
  {
    CountsAgree(modrm, sib, m.addr16);
    hide AddressBytes, CountedBytes;
  }

  /** Where the tables count another number of bytes than the handlers read: too few on the five opcodes, and too many
      on the two-byte opcodes given back or without operands that have an entry, on MOV to and from control registers
      with a memory form, on BT with an extension that is not its own, on MOV of an immediate with one, and with
      32-bit operands on ENTER and on the far return that pops bytes. */
  predicate Miscounted(escape: bool, op: byte, modrm: byte, sib: byte, m: Mode) {
    if escape then
      || Shortfall(true, op) || 0x19 <= op < 0x1F || 0x77 <= op < 0x7E
      || ((op == 0x20 || op == 0x22) && AddressBytes(modrm, sib, m.addr16) > 0)
      || (op == 0xBA && modrm / 32 % 2 == 0)
    else
      ((op == 0xC6 || op == 0xC7) && Reg(modrm) != 0) || ((op == 0xC8 || op == 0xCA) && !m.code16)
  }

  /** The tables count exactly the bytes that the handlers read, everywhere else. */
  lemma CountsExactly(escape: bool, op: byte, modrm: byte, sib: byte, m: Mode)
    requires escape || (!IsPrefix(op) && op != 0x0F)
    ensures HandlerTail(HandlerOf(escape, op), modrm, sib, m) == TableTail(escape, op, modrm, sib, m)
            <==> !Miscounted(escape, op, modrm, sib, m)
  {
    CountsAgree(modrm, sib, m.addr16);
    hide AddressBytes, CountedBytes;
    if escape {
      CountsExactly0F(op, modrm, sib, m);
    } else {
      CountsExactly1(op, modrm, sib, m);
    }
  }

  lemma CountsExactly1(op: byte, modrm: byte, sib: byte, m: Mode)
    requires !IsPrefix(op) && op != 0x0F && CountedBytes(modrm, sib, m.addr16) == AddressBytes(modrm, sib, m.addr16)
    ensures HandlerTail(Handler(op), modrm, sib, m) == TableTail(false, op, modrm, sib, m)
            <==> !Miscounted(false, op, modrm, sib, m)
  {
    hide OpInfo, Handler, HandlerTail, TableTail, AddressBytes, CountedBytes, Exact;
    if Special(op) {
      SpecialTail(op, modrm, sib, m);
    } else {
      TableIsExact(op);
      ExactTail(op, modrm, sib, m);
    }
  }

  /** The opcodes whose operands depend on the register field, ENTER and the far return that pops bytes. */
  predicate Special(op: byte) { op in {0xC6, 0xC7, 0xC8, 0xCA, 0xF6, 0xF7} }

  /** The table entry holds exactly what the handler reads. */
  predicate Exact(info: nat, k: Operands) {
    var modrm, moffs, one, two, sized :=
      info % 16 == MODRM, info % 16 == MOFFS, Imm8(info), Imm16(info), ImmV(info);
    match k
    case Nothing => !modrm && !moffs && !one && !two && !sized
    case Rewind => !modrm && !moffs && !one && !two && !sized
    case ModRM => modrm && !one && !two && !sized
    case ModRMByte => false
    case ModRMImm8 => modrm && one && !two && !sized
    case ModRMImmV => modrm && !one && !two && sized
    case Byte => !modrm && !moffs && one && !two && !sized
    case Sized => !modrm && !moffs && !one && !two && sized
    case Word => !modrm && !moffs && !one && two && !sized
    case Enter => false
    case Far => !modrm && !moffs && !one && two && sized
    case Moffs => moffs && !one && !two && !sized
    case Group3(_) => false
    case MovImm(_) => false
    case BitTest => false
  }

  lemma TableIsExact(op: byte)
    requires !IsPrefix(op) && op != 0x0F && !Special(op)
    ensures Exact(OpInfo(op), Handler(op))
  {
  }

  lemma ExactTail(op: byte, modrm: byte, sib: byte, m: Mode)
    requires Exact(OpInfo(op), Handler(op)) && !Special(op)
    requires CountedBytes(modrm, sib, m.addr16) == AddressBytes(modrm, sib, m.addr16)
    ensures HandlerTail(Handler(op), modrm, sib, m) == TableTail(false, op, modrm, sib, m)
  {
    hide OpInfo, Handler, AddressBytes, CountedBytes, Reg, WordBytes, Imm8, Imm16, ImmV;
    assert op / 2 * 2 != 0xF6;
  }

  lemma SpecialTail(op: byte, modrm: byte, sib: byte, m: Mode)
    requires Special(op) && CountedBytes(modrm, sib, m.addr16) == AddressBytes(modrm, sib, m.addr16)
    ensures HandlerTail(Handler(op), modrm, sib, m) == TableTail(false, op, modrm, sib, m)
            <==> !Miscounted(false, op, modrm, sib, m)
  {
    hide AddressBytes, CountedBytes;
  }

  lemma CountsExactly0F(op: byte, modrm: byte, sib: byte, m: Mode)
    requires CountedBytes(modrm, sib, m.addr16) == AddressBytes(modrm, sib, m.addr16)
    ensures HandlerTail(Handler0F(op), modrm, sib, m) == TableTail(true, op, modrm, sib, m)
            <==> !Miscounted(true, op, modrm, sib, m)
  {
    hide AddressBytes, CountedBytes;
  }

  // --- Whole instructions ---

  /** What stands at `i`: `n` prefixes, then the opcode, whose operands start at `q`. */
  datatype Head = Head(n: nat, escape: bool, op: byte, q: nat)

  function HeadAt(s: seq<byte>, i: nat): (h: Head)
    ensures i + h.n < h.q <= i + h.n + 2
    ensures h.escape || (!IsPrefix(h.op) && h.op != 0x0F)
  {
    var n := PrefixCount(s, i);
    if At(s, i + n) == 0x0F then Head(n, true, At(s, i + n + 1), i + n + 2)
    else Head(n, false, At(s, i + n), i + n + 1)
  }

  /** The length find_instruction_length computes for the instruction at `i`. */
  function TableLength(s: seq<byte>, i: nat, m: Mode): nat {
    var h := HeadAt(s, i);
    h.q - i + TableTail(h.escape, h.op, At(s, h.q), At(s, h.q + 1), ModeAfter(m, s, i, h.n))
  }

  /** Whether find_instruction_length looks at the SIB byte. */
  predicate TakesSib(modrm: byte, addr16: bool) { !addr16 && modrm < 0x40 && modrm % 8 == 4 }

  /** The first byte that find_instruction_length, allowed `max` bytes from `i` on, does not look at. It takes a
      byte before it counts it. */
  function LengthReach(s: seq<byte>, i: nat, m: Mode, max: nat): nat {
    var h := HeadAt(s, i);
    if h.n > max then i + max + 2
    else if h.q - i > max + 1 || Info(h.escape, h.op) % 16 != MODRM then h.q
    else if h.q - i <= max && TakesSib(At(s, h.q), ModeAfter(m, s, i, h.n).addr16) then h.q + 2
    else h.q + 1
  }

  /** The bytes the decoder reads for the instruction at the head of `s`. */
  function BytesRead(s: seq<byte>, m: Mode): nat {
    var h := HeadAt(s, 0);
    h.q + HandlerTail(HandlerOf(h.escape, h.op), At(s, h.q), At(s, h.q + 1), ModeAfter(m, s, 0, h.n))
  }

  lemma TailCovers(escape: bool, op: byte, modrm: byte, sib: byte, m: Mode)
    requires escape || (!IsPrefix(op) && op != 0x0F)
    ensures HandlerTail(HandlerOf(escape, op), modrm, sib, m) <= TableTail(escape, op, modrm, sib, m)
            <==> !Shortfall(escape, op)
  {
    hide OpInfo, OpInfo0F, Handler, Handler0F, TableTail, HandlerTail, Admits;
    if escape {
      TableAdmits0F(op);
      if Shortfall(true, op) {
        ShortTail(op, modrm, sib, m);
      } else {
        AdmittedTail(true, op, modrm, sib, m);
      }
    } else {
      TableAdmits(op);
      AdmittedTail(false, op, modrm, sib, m);
    }
  }

  /** The length decoder never falls short of the decoder, for any prefixes, ModR/M, SIB and mode,
      except on exactly five opcodes. */
  lemma LengthCovers(s: seq<byte>, m: Mode)
    ensures BytesRead(s, m) <= TableLength(s, 0, m) <==> !Shortfall(HeadAt(s, 0).escape, HeadAt(s, 0).op)
  {
    var h := HeadAt(s, 0);
    hide TableTail, HandlerTail, HandlerOf, HeadAt, ModeAfter, At;
    TailCovers(h.escape, h.op, At(s, h.q), At(s, h.q + 1), ModeAfter(m, s, 0, h.n));
  }

  /** SHUFPS of two registers: the length decoder counts three bytes, and the decoder reads four. */
  lemma ShufpsCrossesThePage(s: seq<byte>, m: Mode)
    requires |s| >= 3 && s[0] == 0x0F && s[1] == 0xC6 && s[2] == 0xC1
    ensures TableLength(s, 0, m) == 3 && BytesRead(s, m) == 4 && PrefixCount(s, 0) == 0
  {
    assert At(s, 0) == 0x0F && At(s, 1) == 0xC6 && At(s, 2) == 0xC1;
    assert HeadAt(s, 0) == Head(0, true, 0xC6, 2);
    hide HeadAt, ModeAfter, PrefixCount, At;
    ShufpsTail(At(s, 3), ModeAfter(m, s, 0, 0));
  }

  lemma ShufpsTail(sib: byte, m: Mode)
    ensures TableTail(true, 0xC6, 0xC1, sib, m) == 1 && HandlerTail(Handler0F(0xC6), 0xC1, sib, m) == 2
  {
  }

  /** The prefix loop of find_instruction_length: `maxBytes` is counted down as bytes are taken. */
  method SkipPrefixes(s: seq<byte>, m: Mode, initial: nat) returns (ok: bool, maxBytes: int, mode: Mode, opcode: byte)
    ensures var n := PrefixCount(s, 0);
            && (ok <==> n <= initial)
            && maxBytes == (if ok then initial - n - 1 else -1)
            && (ok ==> opcode == At(s, n) && mode == ModeAfter(m, s, 0, n))
  {
    maxBytes, mode := initial, m;
    ghost var n := PrefixCount(s, 0);
    assert !Has(s, 0, 0, 0x66) && !Has(s, 0, 0, 0x67);
    while true
      invariant 0 <= initial - maxBytes <= n && maxBytes >= -1
      invariant mode == ModeAfter(m, s, 0, initial - maxBytes)
      invariant PrefixCount(s, initial - maxBytes) == n - (initial - maxBytes)
      decreases maxBytes
    {
      opcode := At(s, initial - maxBytes);
      if maxBytes < 0 {
        return false, maxBytes, mode, opcode;
      }
      if !IsPrefix(opcode) {
        maxBytes := maxBytes - 1;
        break;
      }
      HasStep(m, s, initial - maxBytes);
      hide ModeAfter, Has;
      if opcode == 0x66 && mode.code16 == m.code16 {
        mode := mode.(code16 := !mode.code16);
      }
      if opcode == 0x67 && mode.addr16 == m.addr16 {
        mode := mode.(addr16 := !mode.addr16);
      }
      maxBytes := maxBytes - 1;
    }
    ok := true;
  }

  /** find_instruction_length: the length, or -1 when it exceeds the bytes allowed; and how many bytes it looked at. */
  method FindInstructionLength(s: seq<byte>, m: Mode, initial: nat) returns (r: int, taken: nat)
    ensures r == if TableLength(s, 0, m) <= initial then TableLength(s, 0, m) else -1
    ensures taken == LengthReach(s, 0, m, initial)
  {
    hide TableTail, Info, ModeAfter, TakesSib, PrefixCount;
    var ok, maxBytes, mode, opcode := SkipPrefixes(s, m, initial);
    if !ok {
      return -1, initial - maxBytes + 1;
    }
    r, taken := FinishLength(s, mode, initial, maxBytes, opcode);
  }

  /** The part of find_instruction_length after its prefix loop; the opcode byte is already taken. */
  method FinishLength(s: seq<byte>, mode: Mode, initial: nat, max0: int, op0: byte) returns (r: int, taken: nat)
    requires -1 <= max0 < initial && op0 == At(s, initial - max0 - 1)
    ensures var q := if op0 == 0x0F then initial - max0 + 1 else initial - max0;
            var op := if op0 == 0x0F then At(s, q - 1) else op0;
            var total := q + TableTail(op0 == 0x0F, op, At(s, q), At(s, q + 1), mode);
            && r == (if total <= initial then total else -1)
            && taken == if q > initial + 1 || Info(op0 == 0x0F, op) % 16 != MODRM then q
                        else if q <= initial && TakesSib(At(s, q), mode.addr16) then q + 2 else q + 1
  {
    var maxBytes, escape, opcode := max0, op0 == 0x0F, op0;
    if escape {
      opcode := At(s, initial - maxBytes);
      if maxBytes < 0 {
        return -1, initial - maxBytes + 1;
      }
      maxBytes := maxBytes - 1;
    }
    r, taken := CountOperands(s, mode, initial, maxBytes, escape, opcode);
  }

  /** The operands of `opcode`; `maxBytes` has been counted down past it. */
  method CountOperands(s: seq<byte>, mode: Mode, initial: nat, max0: int, escape: bool, opcode: byte)
    returns (r: int, taken: nat)
    requires -1 <= max0 < initial
    ensures var q := initial - max0;
            var total := q + TableTail(escape, opcode, At(s, q), At(s, q + 1), mode);
            && r == (if total <= initial then total else -1)
            && taken == if Info(escape, opcode) % 16 != MODRM then q
                        else if q <= initial && TakesSib(At(s, q), mode.addr16) then q + 2 else q + 1
  {
    hide OpInfo, OpInfo0F;
    var maxBytes := max0;
    var info := Info(escape, opcode);
    taken := initial - maxBytes;
    if info % 16 == MODRM {
      var modrm := At(s, initial - maxBytes);
      taken := taken + 1;
      if maxBytes < 0 {
        return -1, taken;
      }
      maxBytes := maxBytes - 1;
      info := Adjusted(escape, opcode, info, modrm);
      var sib := At(s, initial - maxBytes);
      if TakesSib(modrm, mode.addr16) {
        taken := taken + 1;
      }
      maxBytes := maxBytes - CountedBytes(modrm, sib, mode.addr16);
    } else if info % 16 == MOFFS {
      maxBytes := maxBytes - WordBytes(mode.addr16);
    }
    maxBytes := maxBytes - Immediates(info, mode.code16);
    return if maxBytes < 0 then -1 else initial - maxBytes, taken;
  }

  /** One more prefix byte: a size prefix flips the mode only the first time. */
  lemma HasStep(m: Mode, s: seq<byte>, k: nat)
    ensures var a, b := ModeAfter(m, s, 0, k), ModeAfter(m, s, 0, k + 1);
            && b.code16 == (if At(s, k) == 0x66 && a.code16 == m.code16 then !a.code16 else a.code16)
            && b.addr16 == (if At(s, k) == 0x67 && a.addr16 == m.addr16 then !a.addr16 else a.addr16)
  {
    assert Has(s, 0, k + 1, 0x66) <==> Has(s, 0, k, 0x66) || At(s, k) == 0x66;
    assert Has(s, 0, k + 1, 0x67) <==> Has(s, 0, k, 0x67) || At(s, k) == 0x67;
  }
}
