/** The opcode tables as a decoder for the trace cache: how far the cursor moves and how many bytes
    the outcome depends on (cpu_decode's table call with decode_prefix, src/halfix/decoder.c). What
    the decoded operation is stays open. */
module X86Decoder {
  import opened GuestMemory
  import opened Traces
  import opened X86Length

  /** A decoded operation, or the rejection of an instruction with too many bytes or with a LOCK prefix on an
      opcode that does not allow it. */
  datatype Operation<+I> = Insn(insn: I) | Rejected

  /** Bytes after the first prefix that decode_prefix allows. */
  const PREFIX_LIMIT := 15

  /** With at most this many prefixes no instruction is too long. */
  const FEW_PREFIXES := 5

  predicate IsTooLong(s: seq<byte>, m: Mode) {
    PrefixCount(s, 0) > 0 && TableLength(s, 1, m) > PREFIX_LIMIT
  }

  /** How many bytes of memory the outcome depends on: those the decoder reads, and those the length check looks
      at where its verdict is open. */
  function BytesLooked(s: seq<byte>, m: Mode): nat {
    if IsTooLong(s, m) then LengthReach(s, 1, m, PREFIX_LIMIT)
    else if PrefixCount(s, 0) <= FEW_PREFIXES then BytesRead(s, m)
    else Max(BytesRead(s, m), LengthReach(s, 1, m, PREFIX_LIMIT))
  }

  predicate Rewinds(s: seq<byte>) {
    HandlerOf(HeadAt(s, 0).escape, HeadAt(s, 0).op).Rewind?
  }

  /** What the handler of the instruction at the head of `s` reads. */
  function FieldsOf(s: seq<byte>, m: Mode): Fields {
    var h := HeadAt(s, 0);
    FieldsAt(HandlerOf(h.escape, h.op), s, h.q, ModeAfter(m, s, 0, h.n))
  }

  /** How far the cursor moves over an instruction that is not too long. */
  function CursorMoves(s: seq<byte>, m: Mode): nat {
    if BytesRead(s, m) > 0 && Rewinds(s) then BytesRead(s, m) - 1 else BytesRead(s, m)
  }

  // --- Segment overrides ---

  /** The segment register that memory operands use; DS and SS by default. */
  datatype Segment = Default | Override(register: nat)

  predicate IsSegmentPrefix(b: byte) {
    b in {0x26, 0x2E, 0x36, 0x3E, 0x64, 0x65}
  }

  function SegmentOf(b: byte): nat {
    if b < 0x40 then b / 8 % 4 else 4 + b % 2
  }

  /** The override in force after the first `n` prefixes. */
  function SegmentAfter(start: Segment, s: seq<byte>, n: nat): Segment {
    if n == 0 then start
    else if IsSegmentPrefix(At(s, n - 1)) then Override(SegmentOf(At(s, n - 1)))
    else SegmentAfter(start, s, n - 1)
  }

  /** A LOCK prefix on an opcode whose table entry does not allow it. */
  predicate BadLock(s: seq<byte>) {
    var h := HeadAt(s, 0);
    Has(s, 0, h.n, 0xF0) && Info(h.escape, h.op) / 0x80 % 2 == 0
  }

  /** An override as part of the decoding context. */
  function Kept(g: Segment): nat {
    match g
    case Default => 0
    case Override(r) => r + 1
  }

  function InForce(left: nat): (g: Segment)
    ensures Kept(g) == left
  {
    if left == 0 then Default else Override(left - 1)
  }

  /** The override in force after an instruction: only an accepted instruction with a prefix resets it. */
  function LeftAfter(s: seq<byte>, m: Mode, left: nat): nat {
    if PrefixCount(s, 0) == 0 || IsTooLong(s, m) then left
    else if BadLock(s) then Kept(SegmentAfter(InForce(left), s, PrefixCount(s, 0)))
    else 0
  }

  predicate HasSegmentPrefix(s: seq<byte>) {
    exists j | 0 <= j < PrefixCount(s, 0) :: IsSegmentPrefix(At(s, j))
  }

  /** An instruction that is rejected after a segment override. */
  predicate Strands(s: seq<byte>, m: Mode) {
    !IsTooLong(s, m) && BadLock(s) && HasSegmentPrefix(s)
  }

  /** Exactly which instructions leave an override in force that was not there before. */
  lemma LeavesOverride(s: seq<byte>, m: Mode)
    ensures LeftAfter(s, m, 0) != 0 <==> Strands(s, m)
  {
    hide IsTooLong, BadLock;
    NoLockWithoutPrefix(s);
    OverrideAfter(s, PrefixCount(s, 0));
  }

  lemma NoLockWithoutPrefix(s: seq<byte>)
    ensures BadLock(s) ==> PrefixCount(s, 0) > 0
  {
  }

  lemma {:induction false} OverrideAfter(s: seq<byte>, n: nat)
    ensures SegmentAfter(Default, s, n) == Default <==> forall j | 0 <= j < n :: !IsSegmentPrefix(At(s, j))
    decreases n
  {
    if n > 0 {
      OverrideAfter(s, n - 1);
    }
  }

  /** The last segment prefix decides, among ES, CS, SS, DS, FS and GS. */
  lemma {:induction false} LastOverride(start: Segment, s: seq<byte>, j: nat, n: nat)
    requires j < n && At(s, j) in {0x26, 0x2E, 0x36, 0x3E, 0x64, 0x65}
    requires forall i | j < i < n :: At(s, i) !in {0x26, 0x2E, 0x36, 0x3E, 0x64, 0x65}
    ensures SegmentAfter(start, s, n)
            == Override(match At(s, j) case 0x26 => 0 case 0x2E => 1 case 0x36 => 2 case 0x3E => 3 case 0x64 => 4
                                       case _ => 5)
    decreases n
  {
    if j < n - 1 {
      LastOverride(start, s, j, n - 1);
    }
  }

  /** LOCK NOP with an FS override: the instruction is rejected and FS stays in force for the next memory operand. */
  lemma RejectedLockKeepsFs()
    ensures var s: seq<byte> := [0x64, 0xF0, 0x90];
            BadLock(s) && !IsTooLong(s, Mode(false, false)) && LeftAfter(s, Mode(false, false), 0) == Kept(Override(4))
  {
    var s: seq<byte> := [0x64, 0xF0, 0x90];
    FsLockNop(s);
    FewPrefixesFit(s, Mode(false, false));
    hide IsTooLong;
  }

  lemma FsLockNop(s: seq<byte>)
    requires s == [0x64, 0xF0, 0x90]
    ensures PrefixCount(s, 0) == 2 && BadLock(s) && SegmentAfter(Default, s, 2) == Override(4)
  {
    assert PrefixCount(s, 2) == 0 && PrefixCount(s, 1) == 1;
    assert At(s, 1) == 0xF0;
    assert SegmentAfter(Default, s, 1) == Override(4);
  }

  // --- The decoder ---

  function FirstBytes(s: seq<byte>, k: nat): seq<byte> {
    seq(k, i requires 0 <= i < k => At(s, i))
  }

  function StepOf<I>(insn: (seq<byte>, Context) -> I, ends: (seq<byte>, nat) -> bool, s: seq<byte>,
                     h: Context): Step<Operation<I>> {
    var m := ModeOf(h.hash);
    var looked, left := BytesLooked(s, m), LeftAfter(s, m, h.left);
    if IsTooLong(s, m) then Step(Rejected, 1, looked, true, left)
    else if BadLock(s) then Step(Rejected, CursorMoves(s, m), looked, true, left)
    else Step(Insn(insn(FirstBytes(s, looked), h)), CursorMoves(s, m), looked,
              Rewinds(s) || ends(FirstBytes(s, looked), h.hash), left)
  }

  /** The decoder for any choice of decoded operations and of which of them end a trace. */
  function X86<I>(insn: (seq<byte>, Context) -> I, ends: (seq<byte>, nat) -> bool): Decoder<Operation<I>> {
    Decoder((s: seq<byte>, h: Context) => StepOf(insn, ends, s, h),
            (s: seq<byte>, hash: nat, max: nat) => TableLength(s, 0, ModeOf(hash)) <= max)
  }

  // --- Bounds ---

  lemma HandlerTailBound(k: Operands, modrm: byte, sib: byte, m: Mode)
    ensures HandlerTail(k, modrm, sib, m) <= 10
  {
  }

  lemma BytesReadBounds(s: seq<byte>, m: Mode)
    ensures var h := HeadAt(s, 0);
            h.q <= BytesRead(s, m) <= h.q + 10 && h.n < h.q <= h.n + 2
    ensures Rewinds(s) ==> BytesRead(s, m) == HeadAt(s, 0).q
  {
    var h := HeadAt(s, 0);
    HandlerTailBound(HandlerOf(h.escape, h.op), At(s, h.q), At(s, h.q + 1), ModeAfter(m, s, 0, h.n));
  }

  lemma PrefixesAfterFirst(s: seq<byte>)
    requires PrefixCount(s, 0) > 0
    ensures PrefixCount(s, 1) == PrefixCount(s, 0) - 1
    ensures HeadAt(s, 1) == HeadAt(s, 0).(n := HeadAt(s, 0).n - 1)
  {
  }

  /** An accepted instruction has at most fifteen prefixes. */
  lemma AcceptedHead(s: seq<byte>, m: Mode)
    requires !IsTooLong(s, m)
    ensures HeadAt(s, 0).q <= 16 && HeadAt(s, 0).n <= 15
  {
    if PrefixCount(s, 0) > 0 {
      PrefixesAfterFirst(s);
    }
  }

  lemma FewPrefixesFit(s: seq<byte>, m: Mode)
    requires PrefixCount(s, 0) <= FEW_PREFIXES
    ensures !IsTooLong(s, m)
  {
    if PrefixCount(s, 0) > 0 {
      PrefixesAfterFirst(s);
      var h := HeadAt(s, 1);
      TableTailBound(h.escape, h.op, At(s, h.q), At(s, h.q + 1), ModeAfter(m, s, 1, h.n));
    }
  }

  /** The length check looks at the whole head, and at no more than ModR/M and SIB after it. */
  lemma ReachBounds(s: seq<byte>, i: nat, m: Mode, max: nat)
    ensures var h := HeadAt(s, i);
            if h.n > max then LengthReach(s, i, m, max) == i + max + 2 else h.q <= LengthReach(s, i, m, max) <= h.q + 2
  {
    hide HeadAt, Info, TakesSib, ModeAfter;
  }

  lemma MovesWithinRead(s: seq<byte>, m: Mode)
    ensures CursorMoves(s, m) <= BytesRead(s, m) <= CursorMoves(s, m) + 1 && 1 <= BytesRead(s, m)
    ensures CursorMoves(s, m) == 0 ==> Rewinds(s)
  {
    BytesReadBounds(s, m);
    hide HeadAt, BytesRead, Rewinds;
  }

  lemma StepIsBounded<I>(insn: (seq<byte>, Context) -> I, ends: (seq<byte>, nat) -> bool, s: seq<byte>, h: Context)
    ensures StepBounds(StepOf(insn, ends, s, h))
  {
    var m := ModeOf(h.hash);
    BytesReadBounds(s, m);
    MovesWithinRead(s, m);
    ReachBounds(s, 1, m, PREFIX_LIMIT);
    if !IsTooLong(s, m) {
      AcceptedHead(s, m);
    }
    hide HeadAt, PrefixCount, BytesRead, Rewinds, IsTooLong, ModeOf, CursorMoves, LengthReach, LeftAfter, BadLock;
  }

  // --- What the outcome depends on ---

  predicate Agree(s: seq<byte>, t: seq<byte>, k: nat) {
    forall j | 0 <= j < k :: At(s, j) == At(t, j)
  }

  lemma SamePrefixes(s: seq<byte>, t: seq<byte>, k: nat)
    requires Agree(s, t, k)
    ensures PrefixCount(s, 0) < k ==> PrefixCount(t, 0) == PrefixCount(s, 0)
    ensures PrefixCount(s, 0) >= k ==> PrefixCount(t, 0) >= k
  {
    var n, n' := PrefixCount(s, 0), PrefixCount(t, 0);
    assert n < k ==> !IsPrefix(At(t, n));
    assert n' < k ==> !IsPrefix(At(s, n'));
    assert n' < n ==> IsPrefix(At(s, n'));
    assert n < n' ==> IsPrefix(At(t, n));
  }

  lemma SameMode(m: Mode, s: seq<byte>, t: seq<byte>, i: nat, n: nat)
    requires Agree(s, t, i + n)
    ensures ModeAfter(m, s, i, n) == ModeAfter(m, t, i, n)
  {
    assert Has(s, i, n, 0x66) <==> Has(t, i, n, 0x66);
    assert Has(s, i, n, 0x67) <==> Has(t, i, n, 0x67);
  }

  lemma SameHead(s: seq<byte>, t: seq<byte>, k: nat)
    requires Agree(s, t, k) && HeadAt(s, 0).q <= k
    ensures HeadAt(t, 0) == HeadAt(s, 0)
  {
    SamePrefixes(s, t, k);
  }

  /** Operand bytes not counted do not matter. */
  lemma SameTail(k: Operands, modrm: byte, sib: byte, modrm': byte, sib': byte, m: Mode)
    requires HandlerTail(k, modrm, sib, m) >= 1 ==> modrm == modrm'
    requires HandlerTail(k, modrm, sib, m) >= 2 ==> sib == sib'
    ensures HandlerTail(k, modrm', sib', m) == HandlerTail(k, modrm, sib, m)
  {
  }

  lemma SameBytesRead(s: seq<byte>, t: seq<byte>, k: nat, m: Mode)
    requires Agree(s, t, k) && BytesRead(s, m) <= k
    ensures HeadAt(t, 0) == HeadAt(s, 0) && BytesRead(t, m) == BytesRead(s, m)
  {
    var h := HeadAt(s, 0);
    BytesReadBounds(s, m);
    SameHead(s, t, k);
    SameMode(m, s, t, 0, h.n);
    SameOperandBytes(s, t, k, m, h);
  }

  lemma SameOperandBytes(s: seq<byte>, t: seq<byte>, k: nat, m: Mode, h: Head)
    requires h == HeadAt(s, 0) == HeadAt(t, 0) && Agree(s, t, k) && BytesRead(s, m) <= k
    requires ModeAfter(m, s, 0, h.n) == ModeAfter(m, t, 0, h.n)
    ensures BytesRead(t, m) == BytesRead(s, m)
  {
    hide HandlerTail, HandlerOf, HeadAt, ModeAfter, At;
    assert h.q < k ==> At(s, h.q) == At(t, h.q);
    assert h.q + 1 < k ==> At(s, h.q + 1) == At(t, h.q + 1);
    SameTail(HandlerOf(h.escape, h.op), At(s, h.q), At(s, h.q + 1), At(t, h.q), At(t, h.q + 1),
        ModeAfter(m, s, 0, h.n));
  }

  /** The length check comes to the same verdict, looking at the same number of bytes. */
  lemma SameVerdict(s: seq<byte>, t: seq<byte>, m: Mode)
    requires PrefixCount(s, 0) > 0 && Agree(s, t, LengthReach(s, 1, m, PREFIX_LIMIT))
    ensures LengthReach(t, 1, m, PREFIX_LIMIT) == LengthReach(s, 1, m, PREFIX_LIMIT)
    ensures PrefixCount(t, 0) > 0 && (IsTooLong(t, m) <==> IsTooLong(s, m))
  {
    var k := LengthReach(s, 1, m, PREFIX_LIMIT);
    ReachBounds(s, 1, m, PREFIX_LIMIT);
    SamePrefixes(s, t, k);
    PrefixesAfterFirst(s);
    if PrefixCount(s, 0) > PREFIX_LIMIT + 1 {
      PrefixesAfterFirst(t);
      ManyPrefixesAreTooLong(s, m);
      ManyPrefixesAreTooLong(t, m);
    } else {
      SameHead(s, t, k);
      PrefixesAfterFirst(t);
      SameMode(m, s, t, 1, HeadAt(s, 1).n);
      assert HeadAt(s, 1).q < k ==> At(s, HeadAt(s, 1).q) == At(t, HeadAt(s, 1).q);
      assert HeadAt(s, 1).q + 1 < k ==> At(s, HeadAt(s, 1).q + 1) == At(t, HeadAt(s, 1).q + 1);
      hide HeadAt, ModeAfter, At, Agree;
      SameOperands(s, t, m, HeadAt(s, 1));
    }
  }

  lemma SameOperands(s: seq<byte>, t: seq<byte>, m: Mode, h: Head)
    requires HeadAt(s, 1) == h == HeadAt(t, 1) && h.n <= PREFIX_LIMIT && h.n < h.q - 1
    requires ModeAfter(m, s, 1, h.n) == ModeAfter(m, t, 1, h.n)
    requires h.q < LengthReach(s, 1, m, PREFIX_LIMIT) ==> At(s, h.q) == At(t, h.q)
    requires h.q + 1 < LengthReach(s, 1, m, PREFIX_LIMIT) ==> At(s, h.q + 1) == At(t, h.q + 1)
    ensures LengthReach(t, 1, m, PREFIX_LIMIT) == LengthReach(s, 1, m, PREFIX_LIMIT)
    ensures TableLength(t, 1, m) > PREFIX_LIMIT <==> TableLength(s, 1, m) > PREFIX_LIMIT
  {
    var k, m' := LengthReach(s, 1, m, PREFIX_LIMIT), ModeAfter(m, s, 1, h.n);
    SameTableTail(h.escape, h.op, At(s, h.q), At(s, h.q + 1), At(t, h.q), At(t, h.q + 1), m',
                  h.q - 1 <= PREFIX_LIMIT + 1, h.q - 1 <= PREFIX_LIMIT);
    hide HeadAt, ModeAfter, At, TableTail, Info, TakesSib;
  }

  /** Operand bytes that the length check does not look at do not matter. */
  lemma SameTableTail(escape: bool, op: byte, modrm: byte, sib: byte, modrm': byte, sib': byte, m: Mode,
                      modrmTaken: bool, sibTaken: bool)
    requires modrmTaken && Info(escape, op) % 16 == MODRM ==> modrm == modrm'
    requires sibTaken && modrmTaken && Info(escape, op) % 16 == MODRM && TakesSib(modrm, m.addr16) ==> sib == sib'
    ensures modrmTaken && sibTaken ==> TableTail(escape, op, modrm', sib', m) == TableTail(escape, op, modrm, sib, m)
    ensures Info(escape, op) % 16 != MODRM
            ==> TableTail(escape, op, modrm', sib', m) == TableTail(escape, op, modrm, sib, m)
  {
    hide OpInfo, OpInfo0F;
  }

  lemma SameStep<I>(insn: (seq<byte>, Context) -> I, ends: (seq<byte>, nat) -> bool, s: seq<byte>, t: seq<byte>,
                    h: Context)
    requires Agree(s, t, BytesLooked(s, ModeOf(h.hash)))
    ensures StepOf(insn, ends, t, h) == StepOf(insn, ends, s, h)
  {
    var m := ModeOf(h.hash);
    var k := BytesLooked(s, m);
    assert FirstBytes(s, k) == FirstBytes(t, k);
    if IsTooLong(s, m) {
      SameVerdict(s, t, m);
    } else {
      BytesReadBounds(s, m);
      SameAcceptance(s, t, m);
      SameBytesRead(s, t, BytesRead(s, m), m);
      SameLock(s, t);
      SameLeft(s, t, m, h.left);
    }
    hide IsTooLong, BadLock, BytesRead, LengthReach, PrefixCount, LeftAfter, HeadAt, ModeOf, HandlerOf, At, Agree;
  }

  lemma ReadsPrefixes(s: seq<byte>, m: Mode)
    ensures PrefixCount(s, 0) < BytesRead(s, m)
  {
    BytesReadBounds(s, m);
  }

  lemma SameAcceptance(s: seq<byte>, t: seq<byte>, m: Mode)
    requires !IsTooLong(s, m) && Agree(s, t, BytesLooked(s, m))
    ensures !IsTooLong(t, m) && PrefixCount(t, 0) == PrefixCount(s, 0) && Agree(s, t, BytesRead(s, m))
    ensures PrefixCount(s, 0) > FEW_PREFIXES
            ==> LengthReach(t, 1, m, PREFIX_LIMIT) == LengthReach(s, 1, m, PREFIX_LIMIT)
  {
    ReadsPrefixes(s, m);
    SamePrefixes(s, t, BytesRead(s, m));
    if PrefixCount(s, 0) <= FEW_PREFIXES {
      FewPrefixesFit(t, m);
    } else {
      assert Agree(s, t, LengthReach(s, 1, m, PREFIX_LIMIT));
      SameVerdict(s, t, m);
    }
  }

  lemma SameLock(s: seq<byte>, t: seq<byte>)
    requires HeadAt(s, 0) == HeadAt(t, 0) && Agree(s, t, HeadAt(s, 0).n)
    ensures BadLock(s) <==> BadLock(t)
  {
    var n := HeadAt(s, 0).n;
    assert Has(s, 0, n, 0xF0) <==> Has(t, 0, n, 0xF0);
    hide HeadAt, Info;
  }

  lemma SameLeft(s: seq<byte>, t: seq<byte>, m: Mode, left: nat)
    requires Agree(s, t, PrefixCount(s, 0)) && PrefixCount(t, 0) == PrefixCount(s, 0)
    requires (IsTooLong(s, m) <==> IsTooLong(t, m)) && (BadLock(s) <==> BadLock(t))
    ensures LeftAfter(t, m, left) == LeftAfter(s, m, left)
  {
    SameSegment(InForce(left), s, t, PrefixCount(s, 0));
    hide IsTooLong, BadLock;
  }

  lemma {:induction false} SameSegment(start: Segment, s: seq<byte>, t: seq<byte>, n: nat)
    requires Agree(s, t, n)
    ensures SegmentAfter(start, t, n) == SegmentAfter(start, s, n)
    decreases n
  {
    if n > 0 {
      assert At(s, n - 1) == At(t, n - 1);
      SameSegment(start, s, t, n - 1);
    }
  }

  lemma ManyPrefixesAreTooLong(s: seq<byte>, m: Mode)
    requires PrefixCount(s, 0) > PREFIX_LIMIT + 1
    ensures IsTooLong(s, m)
  {
    PrefixesAfterFirst(s);
  }

  lemma X86Agrees<I(!new)>(insn: (seq<byte>, Context) -> I, ends: (seq<byte>, nat) -> bool, s: seq<byte>,
                           t: seq<byte>, h: Context)
    ensures AgreesOn(X86(insn, ends), s, t, h)
  {
    var k := BytesLooked(s, ModeOf(h.hash));
    if k <= |s| && k <= |t| && s[..k] == t[..k] {
      forall j | 0 <= j < k ensures At(s, j) == At(t, j) {
        assert s[j] == s[..k][j] && t[j] == t[..k][j];
      }
      SameStep(insn, ends, s, t, h);
    }
  }

  /** The decoder meets what the trace cache assumes of it: the outcome is a function of the bytes it looked at,
      the mode, and the override in force. */
  lemma X86IsDetermined<I(!new)>(insn: (seq<byte>, Context) -> I, ends: (seq<byte>, nat) -> bool)
    ensures Determined(X86(insn, ends)) && Bounded(X86(insn, ends))
  {
    hide AgreesOn, StepBounds, StepOf;
    forall s: seq<byte>, t: seq<byte>, h: Context ensures AgreesOn(X86(insn, ends), s, t, h) {
      X86Agrees(insn, ends, s, t, h);
    }
    forall s: seq<byte>, h: Context ensures StepBounds(X86(insn, ends).step(s, h)) {
      StepIsBounded(insn, ends, s, h);
    }
  }

  /** An instruction at `q` that the cache can watch, on a page that ends at `limit`, in a trace that ends at `end`.
      With at most five prefixes only the five opcodes that the length table underestimates can fail, close to the
      page's end, by reading beyond it. With more, the length check's reading counts too. */
  predicate Ordinary(s: seq<byte>, m: Mode, q: nat, limit: nat, end: nat) {
    if PrefixCount(s, 0) <= FEW_PREFIXES then
      Shortfall(HeadAt(s, 0).escape, HeadAt(s, 0).op) && limit < q + LONGEST ==> q + BytesRead(s, m) <= limit
    else
      && Inside(q + LengthReach(s, 1, m, PREFIX_LIMIT), limit, end)
      && (!IsTooLong(s, m) ==> q + BytesRead(s, m) <= limit)
  }

  /** What the decoding loop's page-end check has found when it goes on at `q`. */
  predicate GoesOn(s: seq<byte>, m: Mode, q: nat, limit: nat) {
    q + LONGEST <= limit || (q < limit && TableLength(s, 0, m) <= limit - q)
  }

  /** Where decoding goes on, the bytes that decide the instruction lie on the page, in chunks that the trace reaches,
      exactly for the ordinary instructions: whatever bytes, prefixes and mode, and wherever it stands. */
  lemma TidyExactly<I(!new)>(insn: (seq<byte>, Context) -> I, ends: (seq<byte>, nat) -> bool, h: Context,
                             m: seq<byte>, q: nat, limit: nat, end: nat)
    requires q <= |m| && !AtEnd(X86(insn, ends), h.hash, m, q, limit)
    requires q + X86(insn, ends).step(m[q..], h).len <= end
    ensures Inside(q + X86(insn, ends).step(m[q..], h).looked, limit, end)
            <==> Ordinary(m[q..], ModeOf(h.hash), q, limit, end)
  {
    var s, mode := m[q..], ModeOf(h.hash);
    assert GoesOn(s, mode, q, limit);
    hide HeadAt, PrefixCount, BytesRead, BytesLooked, IsTooLong, ModeOf, CursorMoves, LengthReach, LeftAfter,
         BadLock, TableLength, Ordinary, GoesOn, Inside;
    InsideExactly(s, mode, q, limit, end);
  }

  lemma InsideExactly(s: seq<byte>, m: Mode, q: nat, limit: nat, end: nat)
    requires GoesOn(s, m, q, limit) && q + (if IsTooLong(s, m) then 1 else CursorMoves(s, m)) <= end
    ensures Inside(q + BytesLooked(s, m), limit, end) <==> Ordinary(s, m, q, limit, end)
  {
    MovesWithinRead(s, m);
    if PrefixCount(s, 0) <= FEW_PREFIXES {
      FewPrefixesFit(s, m);
      TabledWithin(s, m);
      LengthCovers(s, m);
      hide HeadAt, PrefixCount, BytesRead, IsTooLong, CursorMoves, LengthReach, TableLength, Shortfall;
    } else if !IsTooLong(s, m) {
      InsideMax(q + BytesRead(s, m), q + LengthReach(s, 1, m, PREFIX_LIMIT), limit, end);
      hide HeadAt, PrefixCount, BytesRead, IsTooLong, CursorMoves, LengthReach, TableLength;
    }
  }

  /** With few prefixes an instruction is at most sixteen bytes long, for the table and for the decoder. */
  lemma TabledWithin(s: seq<byte>, m: Mode)
    requires PrefixCount(s, 0) <= FEW_PREFIXES
    ensures TableLength(s, 0, m) <= LONGEST && BytesRead(s, m) <= LONGEST
  {
    var d := HeadAt(s, 0);
    TableTailBound(d.escape, d.op, At(s, d.q), At(s, d.q + 1), ModeAfter(m, s, 0, d.n));
    LengthCovers(s, m);
    ShortfallTail(s, m);
    hide HeadAt, TableTail, HandlerTail, HandlerOf, ModeAfter, At;
  }

  lemma ShortfallTail(s: seq<byte>, m: Mode)
    ensures Shortfall(HeadAt(s, 0).escape, HeadAt(s, 0).op) ==> BytesRead(s, m) <= HeadAt(s, 0).q + 7
  {
  }

  /** The fifteen-byte padding NOP that compilers emit has seven prefixes and can be watched. */
  lemma PaddingIsOrdinary(s: seq<byte>)
    requires s == [0x66, 0x66, 0x66, 0x66, 0x66, 0x66, 0x2E, 0x0F, 0x1F, 0x84, 0, 0, 0, 0, 0]
    ensures CursorMoves(s, Mode(false, false)) == 15
    ensures forall q: nat, limit: nat, end: nat :: q + 15 <= limit && q + 15 <= end ==>
              Ordinary(s, Mode(false, false), q, limit, end)
  {
    var m := Mode(false, false);
    PaddingHead(s);
    assert At(s, 9) == 0x84 && At(s, 10) == 0;
    hide PrefixCount, HeadAt, ModeAfter, At;
    PaddingNumbers(s, m, HeadAt(s, 0), HeadAt(s, 1));
    hide BytesRead, CursorMoves, LengthReach, IsTooLong;
  }

  lemma PaddingHead(s: seq<byte>)
    requires s == [0x66, 0x66, 0x66, 0x66, 0x66, 0x66, 0x2E, 0x0F, 0x1F, 0x84, 0, 0, 0, 0, 0]
    ensures HeadAt(s, 0) == Head(7, true, 0x1F, 9) && HeadAt(s, 1) == Head(6, true, 0x1F, 9) && PrefixCount(s, 0) == 7
    ensures !ModeAfter(Mode(false, false), s, 0, 7).addr16 && !ModeAfter(Mode(false, false), s, 1, 6).addr16
  {
    assert PrefixCount(s, 7) == 0;
    assert PrefixCount(s, 5) == 2;
    assert PrefixCount(s, 3) == 4;
    assert PrefixCount(s, 1) == 6;
    assert At(s, 7) == 0x0F && At(s, 8) == 0x1F;
  }

  lemma PaddingNumbers(s: seq<byte>, m: Mode, h0: Head, h1: Head)
    requires h0 == HeadAt(s, 0) == Head(7, true, 0x1F, 9) && h1 == HeadAt(s, 1) == Head(6, true, 0x1F, 9)
    requires PrefixCount(s, 0) == 7 && At(s, 9) == 0x84 && At(s, 10) == 0
    requires !ModeAfter(m, s, 0, 7).addr16 && !ModeAfter(m, s, 1, 6).addr16
    ensures LengthReach(s, 1, m, PREFIX_LIMIT) == 10 && BytesRead(s, m) == 15 == CursorMoves(s, m)
    ensures !IsTooLong(s, m)
  {
    hide PrefixCount, HeadAt, ModeAfter, At;
    assert TableTail(true, 0x1F, 0x84, 0, ModeAfter(m, s, 0, 7)) == 6;
    assert TableTail(true, 0x1F, 0x84, 0, ModeAfter(m, s, 1, 6)) == 6;
    assert LengthReach(s, 1, m, PREFIX_LIMIT) == 10;
  }

  /** SHUFPS of two registers can be watched everywhere but three bytes before the end of a page, where the loop
      takes it for an instruction that ends on the page. */
  lemma ShufpsIsOrdinary(s: seq<byte>, m: Mode, q: nat, limit: nat, end: nat)
    requires |s| >= 3 && s[0] == 0x0F && s[1] == 0xC6 && s[2] == 0xC1 && GoesOn(s, m, q, limit)
    ensures Ordinary(s, m, q, limit, end) <==> q + 3 != limit
  {
    ShufpsCrossesThePage(s, m);
    assert HeadAt(s, 0) == Head(0, true, 0xC6, 2) by {
      assert At(s, 0) == 0x0F && At(s, 1) == 0xC6;
    }
    hide HeadAt, PrefixCount, BytesRead, IsTooLong, LengthReach, TableLength;
  }

  // --- Code, as decoding visits it ---

  /** Each of the at most `n` instructions that decoding visits from `q` on is ordinary. */
  ghost predicate OrdinaryAhead<I(!new)>(dec: Decoder<Operation<I>>, h: Context, m: seq<byte>, q: nat, limit: nat,
                                         end: nat, n: nat)
    decreases n
  {
    n == 0 || q > |m| || AtEnd(dec, h.hash, m, q, limit) ||
    (Ordinary(m[q..], ModeOf(h.hash), q, limit, end) &&
     var st := dec.step(m[q..], h);
     st.last || OrdinaryAhead(dec, Then(h, st), m, q + st.len, limit, end, n - 1))
  }

  ghost predicate OrdinaryCode<I(!new)>(dec: Decoder<Operation<I>>, h: Context, m: seq<byte>, p: nat, limit: nat) {
    OrdinaryAhead(dec, h, m, p, limit, TraceEnds(dec, h, m, p, limit), MAX_TRACE_SIZE - 1)
  }

  lemma {:induction false} OrdinaryAheadIsTidy<I(!new)>(insn: (seq<byte>, Context) -> I,
      ends: (seq<byte>, nat) -> bool, h: Context, m: seq<byte>, q: nat, limit: nat, end: nat, n: nat)
    requires CodeEnd(X86(insn, ends), h, m, q, limit, n) == end
    ensures OrdinaryAhead(X86(insn, ends), h, m, q, limit, end, n)
            <==> TidyAhead(X86(insn, ends), h, m, q, limit, end, n)
    decreases n
  {
    hide Ordinary, Inside, AtEnd, ModeOf, X86;
    var dec := X86(insn, ends);
    if n > 0 && q <= |m| && !AtEnd(dec, h.hash, m, q, limit) {
      var st := dec.step(m[q..], h);
      TidyExactly(insn, ends, h, m, q, limit, end);
      if !st.last {
        OrdinaryAheadIsTidy(insn, ends, Then(h, st), m, q + st.len, limit, end, n - 1);
      }
    }
  }

  /** Code is tidy exactly if every instruction that decoding visits is ordinary where it stands. */
  lemma OrdinaryCodeIsTidy<I(!new)>(insn: (seq<byte>, Context) -> I, ends: (seq<byte>, nat) -> bool,
                                    h: Context, m: seq<byte>, p: nat, limit: nat)
    ensures TidyCode(X86(insn, ends), h, m, p, limit) <==> OrdinaryCode(X86(insn, ends), h, m, p, limit)
  {
    hide TidyAhead, OrdinaryAhead, X86;
    OrdinaryAheadIsTidy(insn, ends, h, m, p, limit, TraceEnds(X86(insn, ends), h, m, p, limit), MAX_TRACE_SIZE - 1);
  }

  /** None of the at most `n` instructions that decoding visits from `q` on strands a segment override. */
  ghost predicate UnlockedAhead<I(!new)>(dec: Decoder<Operation<I>>, h: Context, m: seq<byte>, q: nat, limit: nat,
                                         n: nat)
    decreases n
  {
    n == 0 || q > |m| || AtEnd(dec, h.hash, m, q, limit) ||
    (!Strands(m[q..], ModeOf(h.hash)) &&
     var st := dec.step(m[q..], h);
     st.last || UnlockedAhead(dec, h, m, q + st.len, limit, n - 1))
  }

  ghost predicate KeepsUnlessStranded<I(!new)>(dec: Decoder<Operation<I>>) {
    forall s: seq<byte>, h: Context :: h.left == 0 ==> (dec.step(s, h).left == 0 <==> !Strands(s, ModeOf(h.hash)))
  }

  lemma X86Keeps<I(!new)>(insn: (seq<byte>, Context) -> I, ends: (seq<byte>, nat) -> bool)
    ensures KeepsUnlessStranded(X86(insn, ends))
  {
    hide IsTooLong, BadLock, HasSegmentPrefix, LeftAfter, ModeOf;
    forall s: seq<byte>, h: Context | h.left == 0
      ensures X86(insn, ends).step(s, h).left == 0 <==> !Strands(s, ModeOf(h.hash))
    {
      LeavesOverride(s, ModeOf(h.hash));
    }
  }

  lemma {:induction false} UnlockedAheadIsClean<I(!new)>(dec: Decoder<Operation<I>>, h: Context, m: seq<byte>,
                                                         q: nat, limit: nat, n: nat)
    requires h.left == 0 && KeepsUnlessStranded(dec)
    ensures UnlockedAhead(dec, h, m, q, limit, n) <==> CleanAhead(dec, h, m, q, limit, n)
    decreases n
  {
    hide Strands, AtEnd, ModeOf;
    if n > 0 && q <= |m| {
      var st := dec.step(m[q..], h);
      UnlockedAheadIsClean(dec, h, m, q + st.len, limit, n - 1);
    }
  }

  /** Code leaves no override in force exactly if it begins without one and no instruction strands one. */
  lemma UnlockedCodeIsClean<I(!new)>(insn: (seq<byte>, Context) -> I, ends: (seq<byte>, nat) -> bool,
                                     h: Context, m: seq<byte>, p: nat, limit: nat)
    ensures CleanCode(X86(insn, ends), h, m, p, limit)
            <==> h.left == 0 && UnlockedAhead(X86(insn, ends), h, m, p, limit, MAX_TRACE_SIZE - 1)
  {
    hide CleanAhead, UnlockedAhead, X86, KeepsUnlessStranded;
    X86Keeps(insn, ends);
    if h.left == 0 {
      UnlockedAheadIsClean(X86(insn, ends), h, m, p, limit, MAX_TRACE_SIZE - 1);
    }
  }

  // --- decode_prefix and the state it leaves behind ---

  predicate IsDirect(k: Operands) { k in {Byte, Operands.Sized, Word, Enter, Far, Moffs} }

  /** The thread's decoding state: the cursor, the mode, and the segment override. */
  class Reader {
    const s: seq<byte>
    var rawp: nat
    var mode: Mode
    var segment: Segment

    constructor (s: seq<byte>, mode: Mode, segment: Segment)
      ensures this.s == s && rawp == 0 && this.mode == mode && this.segment == segment
    {
      this.s, rawp, this.mode, this.segment := s, 0, mode, segment;
    }

    /** One opcode-table call for an instruction with at least one prefix. Rejections skip the reset
        of the decoding state, so an override that precedes a bad LOCK stays in force. */
    method DecodePrefixed(m: Mode) returns (rejected: bool, f: Fields)
      requires rawp == 0 && mode == m && PrefixCount(s, 0) > 0
      modifies this
      ensures rejected <==> IsTooLong(s, m) || BadLock(s)
      ensures rawp == if IsTooLong(s, m) then 1 else CursorMoves(s, m)
      ensures !rejected ==> f == FieldsOf(s, m)
      ensures !rejected ==> mode == m && segment == Default
      ensures Kept(segment) == LeftAfter(s, m, Kept(old(segment)))
    {
      var length, taken := FindInstructionLength(s[1..], m, PREFIX_LIMIT);
      DropFirst(s, m);
      InForceIs(segment);
      if length == -1 {
        rawp := 1;
        return true, Fields(0, Nowhere, []);
      }
      var lock := ReadPrefixes(m);
      rejected, f := RunHandler(m, lock);
      if !rejected {
        segment, mode := Default, m;
      }
    }

    /** The prefix loop. */
    method ReadPrefixes(m: Mode) returns (lock: bool)
      requires rawp == 0 && mode == m
      modifies this
      ensures rawp == PrefixCount(s, 0) && mode == ModeAfter(m, s, 0, rawp)
      ensures segment == SegmentAfter(old(segment), s, rawp)
      ensures lock == Has(s, 0, rawp, 0xF0)
    {
      lock := false;
      NoPrefixes(m, s);
      hide ModeAfter, Has;
      while IsPrefix(At(s, rawp))
        invariant rawp <= PrefixCount(s, 0) && PrefixCount(s, rawp) == PrefixCount(s, 0) - rawp
        invariant mode == ModeAfter(m, s, 0, rawp)
        invariant segment == SegmentAfter(old(segment), s, rawp)
        invariant lock == Has(s, 0, rawp, 0xF0)
        decreases PrefixCount(s, rawp)
      {
        lock := ReadPrefix(m, lock, old(segment));
      }
    }

    method ReadPrefix(m: Mode, lock0: bool, ghost start: Segment) returns (lock: bool)
      requires IsPrefix(At(s, rawp)) && mode == ModeAfter(m, s, 0, rawp)
      requires segment == SegmentAfter(start, s, rawp) && lock0 == Has(s, 0, rawp, 0xF0)
      modifies this
      ensures rawp == old(rawp) + 1 && mode == ModeAfter(m, s, 0, rawp)
      ensures segment == SegmentAfter(start, s, rawp) && lock == Has(s, 0, rawp, 0xF0)
      ensures PrefixCount(s, old(rawp)) == 1 + PrefixCount(s, rawp)
    {
      HasStep(m, s, rawp);
      LockStep(s, rawp);
      hide ModeAfter, Has;
      lock := lock0;
      var prefix := At(s, rawp);
      if prefix == 0x66 {
        mode := if mode.code16 == m.code16 then mode.(code16 := !mode.code16) else mode;
      } else if prefix == 0x67 {
        mode := if mode.addr16 == m.addr16 then mode.(addr16 := !mode.addr16) else mode;
      } else if prefix == 0xF0 {
        lock := true;
      } else if IsSegmentPrefix(prefix) {
        segment := Override(SegmentOf(prefix));
      }
      rawp := rawp + 1;
    }

    /** rb, rbs, rw, rd and rv move the cursor. */
    method TakeByte() returns (v: nat)
      modifies this`rawp
      ensures v == Rb(s, old(rawp)) && rawp == old(rawp) + 1
    {
      v := At(s, rawp);
      rawp := rawp + 1;
    }

    method TakeSignedByte() returns (v: nat)
      modifies this`rawp
      ensures v == Rbs(s, old(rawp)) && rawp == old(rawp) + 1
    {
      v := Rbs(s, rawp);
      rawp := rawp + 1;
    }

    method TakeWord() returns (v: nat)
      modifies this`rawp
      ensures v == Rw(s, old(rawp)) && rawp == old(rawp) + 2
    {
      v := At(s, rawp) + 0x100 * At(s, rawp + 1);
      rawp := rawp + 2;
    }

    method TakeDouble() returns (v: nat)
      modifies this`rawp
      ensures v == Rd(s, old(rawp)) && rawp == old(rawp) + 4
    {
      v := At(s, rawp) + 0x100 * At(s, rawp + 1) + 0x1_0000 * At(s, rawp + 2) + 0x100_0000 * At(s, rawp + 3);
      rawp := rawp + 4;
    }

    method TakeSized(short: bool) returns (v: nat)
      modifies this`rawp
      ensures v == Rv(s, old(rawp), short) && rawp == old(rawp) + WordBytes(short)
    {
      if short {
        v := TakeWord();
      } else {
        v := TakeDouble();
      }
    }

    /** parse_modrm; ModR/M itself is already taken. */
    method ParseModrm(modrm: byte) returns (place: Place)
      modifies this`rawp
      ensures (place, rawp) == ParsedModrm(s, old(rawp), modrm, mode.addr16)
    {
      hide Rd, Rw, Rbs;
      var rm := modrm % 8;
      var field, disp := modrm / 64 * 8 + rm, 0;
      if field >= 24 {
        return RegisterAt(rm);
      }
      if mode.addr16 {
        if field == 6 {
          disp := TakeWord();
          return MemoryAt(EZR, EZR, 0, false, disp);
        }
        if 8 <= field < 16 {
          disp := TakeSignedByte();
        } else if field >= 16 {
          disp := TakeWord();
        }
        return MemoryAt(Base16(rm), Index16(rm), 0, Stack16(rm), disp);
      }
      if rm == 4 {
        place := ParseSib(field);
        return;
      }
      if field == 5 {
        disp := TakeDouble();
        return MemoryAt(EZR, EZR, 0, false, disp);
      }
      if 8 <= field < 16 {
        disp := TakeSignedByte();
      } else if field >= 16 {
        disp := TakeDouble();
      }
      return MemoryAt(rm, EZR, 0, rm == 5, disp);
    }

    method ParseSib(field: nat) returns (place: Place)
      requires field in {4, 0x0C, 0x14}
      modifies this`rawp
      ensures (place, rawp) == ParsedSib(s, old(rawp) + 1, At(s, old(rawp)), field)
    {
      hide Rd, Rw, Rbs;
      var sib := TakeByte();
      var index, base, disp := sib / 8 % 8, sib % 8, 0;
      var i, scale := EZR, 0;
      if index != 4 {
        i, scale := index, sib / 64;
      }
      if field == 4 {
        if base == 5 {
          disp := TakeDouble();
          return MemoryAt(EZR, i, scale, false, disp);
        }
      } else if field == 0x0C {
        disp := TakeSignedByte();
      } else {
        disp := TakeDouble();
      }
      return MemoryAt(base, i, scale, base == 4 || base == 5, disp);
    }

    /** The operands without ModR/M. */
    method ReadDirect(k: Operands) returns (f: Fields)
      requires IsDirect(k)
      modifies this`rawp
      ensures f == FieldsAt(k, s, old(rawp), mode)
      ensures rawp == old(rawp) + HandlerTail(k, At(s, old(rawp)), At(s, old(rawp) + 1), mode)
    {
      hide ParsedModrm, AddressBytes, Rd, Rw, Rb, Rv;
      var v, v' := 0, 0;
      if k == Byte {
        v := TakeByte();
      } else if k == Operands.Sized {
        v := TakeSized(mode.code16);
      } else if k == Moffs {
        v := TakeSized(mode.addr16);
      } else if k == Far {
        v := TakeSized(mode.code16);
        v' := TakeWord();
        return Fields(0, Nowhere, [v, v']);
      } else {
        v := TakeWord();
        if k == Enter {
          v' := TakeByte();
          return Fields(0, Nowhere, [v, v']);
        }
      }
      return Fields(0, Nowhere, [v]);
    }

    /** The operands of an opcode, as its handler takes them. */
    method ReadOperands(k: Operands) returns (f: Fields)
      modifies this`rawp
      ensures f == FieldsAt(k, s, old(rawp), mode)
      ensures rawp == old(rawp) + HandlerTail(k, At(s, old(rawp)), At(s, old(rawp) + 1), mode)
    {
      hide FieldsAt, HandlerTail;
      if k == Nothing || k == Rewind {
        NoOperands(k, s, rawp, mode);
        return Fields(0, Nowhere, []);
      }
      if IsDirect(k) {
        f := ReadDirect(k);
        return;
      }
      f := ReadAddressed(k);
    }

    /** The operands that begin with ModR/M. */
    method ReadAddressed(k: Operands) returns (f: Fields)
      requires !IsDirect(k) && k != Nothing && k != Rewind
      modifies this`rawp
      ensures f == FieldsAt(k, s, old(rawp), mode)
      ensures rawp == old(rawp) + HandlerTail(k, At(s, old(rawp)), At(s, old(rawp) + 1), mode)
    {
      hide ParsedModrm, AddressBytes, Rd, Rw, Rb, Rv;
      ParsedBytes(s, rawp + 1, At(s, rawp), mode.addr16);
      var modrm := At(s, rawp);
      rawp := rawp + 1;
      var reg := Reg(modrm);
      if k.ModRMByte? {
        return Fields(reg, RegisterAt(modrm % 8), []);
      }
      if k.MovImm? && reg != 0 {
        return Fields(reg, Nowhere, []);
      }
      var place := ParseModrm(modrm);
      f := ReadImmediate(k, modrm, place);
    }

    /** The immediate after an operand, if the opcode and the register field ask for one. */
    method ReadImmediate(k: Operands, modrm: byte, place: Place) returns (f: Fields)
      modifies this`rawp
      ensures var one := k.ModRMImm8? || (k.Group3? && !k.sized && Reg(modrm) < 2) || (k.MovImm? && !k.sized)
                         || (k.BitTest? && modrm / 32 % 2 == 1);
              var sized := k.ModRMImmV? || (k.Group3? && k.sized && Reg(modrm) < 2) || (k.MovImm? && k.sized);
              && f == Fields(Reg(modrm), place, if one then [Rb(s, old(rawp))]
                                                else if sized then [Rv(s, old(rawp), mode.code16)] else [])
              && rawp == old(rawp) + if one then 1 else if sized then WordBytes(mode.code16) else 0
    {
      var reg, v := Reg(modrm), 0;
      match k {
        case ModRMImm8 =>
          v := TakeByte();
          return Fields(reg, place, [v]);
        case ModRMImmV =>
          v := TakeSized(mode.code16);
          return Fields(reg, place, [v]);
        case Group3(sized) =>
          if reg >= 2 {
            return Fields(reg, place, []);
          }
          if sized {
            v := TakeSized(mode.code16);
          } else {
            v := TakeByte();
          }
          return Fields(reg, place, [v]);
        case MovImm(sized) =>
          if sized {
            v := TakeSized(mode.code16);
          } else {
            v := TakeByte();
          }
          return Fields(reg, place, [v]);
        case BitTest =>
          if modrm / 32 % 2 == 0 {
            return Fields(reg, place, []);
          }
          v := TakeByte();
          return Fields(reg, place, [v]);
        case _ =>
          return Fields(reg, place, []);
      }
    }

    /** The table call and the LOCK check that follows it. */
    method RunHandler(m: Mode, lock: bool) returns (rejected: bool, f: Fields)
      requires rawp == PrefixCount(s, 0) && mode == ModeAfter(m, s, 0, rawp) && lock == Has(s, 0, rawp, 0xF0)
      modifies this`rawp
      ensures rejected <==> BadLock(s)
      ensures rawp == CursorMoves(s, m) && f == FieldsOf(s, m)
    {
      hide HandlerTail, FieldsAt, Info, HandlerOf;
      BytesReadBounds(s, m);
      var escape := At(s, rawp) == 0x0F;
      rawp := if escape then rawp + 1 else rawp;
      var op := At(s, rawp);
      rawp := rawp + 1;
      var k := HandlerOf(escape, op);
      f := ReadOperands(k);
      rawp := if k.Rewind? then rawp - 1 else rawp;
      rejected := lock && Info(escape, op) / 0x80 % 2 == 0;
    }
  }

  lemma NoOperands(k: Operands, s: seq<byte>, q: nat, m: Mode)
    requires k == Nothing || k == Rewind
    ensures FieldsAt(k, s, q, m) == Fields(0, Nowhere, []) && HandlerTail(k, At(s, q), At(s, q + 1), m) == 0
  {
  }

  lemma InForceIs(g: Segment)
    ensures InForce(Kept(g)) == g
  {
  }

  lemma NoPrefixes(m: Mode, s: seq<byte>)
    ensures ModeAfter(m, s, 0, 0) == m && !Has(s, 0, 0, 0xF0)
  {
  }

  lemma LockStep(s: seq<byte>, k: nat)
    ensures Has(s, 0, k + 1, 0xF0) <==> Has(s, 0, k, 0xF0) || At(s, k) == 0xF0
  {
  }

  lemma DropHead(s: seq<byte>)
    requires |s| > 0
    ensures HeadAt(s[1..], 0) == HeadAt(s, 1).(q := HeadAt(s, 1).q - 1)
    ensures forall i: nat {:trigger At(s[1..], i)} :: At(s[1..], i) == At(s, i + 1)
  {
    DropPrefixes(s, 1);
  }

  /** Looking at the suffix after the first byte. */
  lemma DropFirst(s: seq<byte>, m: Mode)
    requires |s| > 0
    ensures TableLength(s[1..], 0, m) == TableLength(s, 1, m)
  {
    DropHead(s);
    var h := HeadAt(s, 1);
    SameHas(s, h.n, 0x66);
    SameHas(s, h.n, 0x67);
    hide HeadAt, TableTail, Has, PrefixCount, At;
  }

  lemma SameHas(s: seq<byte>, n: nat, b: byte)
    requires |s| > 0
    ensures Has(s[1..], 0, n, b) <==> Has(s, 1, n, b)
  {
    if Has(s[1..], 0, n, b) {
      var j :| 0 <= j < n && At(s[1..], j) == b;
      assert At(s, j + 1) == b;
    }
    if Has(s, 1, n, b) {
      var j :| 1 <= j < 1 + n && At(s, j) == b;
      assert At(s[1..], j - 1) == b;
    }
  }

  lemma {:induction false} DropPrefixes(s: seq<byte>, i: nat)
    requires 0 < i && |s| > 0
    ensures PrefixCount(s[1..], i - 1) == PrefixCount(s, i)
    decreases if i < |s| then |s| - i else 0
  {
    if i < |s| && IsPrefix(s[i]) {
      DropPrefixes(s, i + 1);
    }
  }
}
