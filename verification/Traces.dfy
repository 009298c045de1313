/** What a cached trace means: the decoder as a function of memory, and the relation
    between a run of decoded instructions and the bytes it was decoded from. */
module Traces {
  import opened GuestMemory

  datatype Option<+T> = None | Some(value: T)

  /** What decoding depends on besides the bytes: the state hash, and the segment override that an earlier
      rejected instruction left in force, 0 if none did. */
  datatype Context = Context(hash: nat, left: nat)

  /** One decoded instruction. `len` is how far the decoder's cursor moved and `looked` how many
      bytes it read to decide: an invalid opcode moves the cursor back, and an instruction with
      too many prefixes is rejected after reading ahead. `last` ends the trace; `left` is the override in force
      afterwards. */
  datatype Step<Op> = Step(op: Op, len: nat, looked: nat, last: bool, left: nat)

  /** The opcode tables, left abstract: `step` decodes the bytes at the head of a memory suffix in a
      context, `fits` is find_instruction_length(max) != -1 for a state hash. */
  datatype Decoder<!Op> = Decoder(step: (seq<byte>, Context) -> Step<Op>, fits: (seq<byte>, nat, nat) -> bool)

  /** An element of the trace buffer; the handler of a `last` instruction leaves the trace. */
  datatype Slot<Op> = TraceEnd | Decoded(op: Op, last: bool)

  /** The bytes kept free at the end of a page before lengths are checked. */
  const LONGEST := 16

  /** A trace has at most this many elements, its terminator included. */
  const MAX_TRACE_SIZE := 32

  const PAGE := 4096

  /** Bytes per bit of the bitmap of decoded code. */
  const CHUNK := 128

  /** No single step moves the cursor further than this. */
  const MAX_STEP := 32

  /** TRACE_LENGTH keeps ten bits of a trace's length. */
  const LENGTH_RANGE := 0x400

  /** The decoder depends on nothing but the bytes it looked at and the context. */
  ghost predicate Determined<Op(!new)>(dec: Decoder<Op>) {
    forall s: seq<byte>, t: seq<byte>, h: Context :: AgreesOn(dec, s, t, h)
  }

  ghost predicate AgreesOn<Op(!new)>(dec: Decoder<Op>, s: seq<byte>, t: seq<byte>, h: Context) {
    var st := dec.step(s, h);
    st.looked <= |s| && st.looked <= |t| && s[..st.looked] == t[..st.looked] ==> dec.step(t, h) == st
  }

  ghost predicate Bounded<Op(!new)>(dec: Decoder<Op>) {
    forall s: seq<byte>, h: Context :: StepBounds(dec.step(s, h))
  }

  predicate StepBounds<Op>(st: Step<Op>) {
    st.len <= st.looked && st.len <= MAX_STEP && 1 <= st.looked && (st.len == 0 ==> st.last)
  }

  function SlotOf<Op>(st: Step<Op>): Slot<Op> { Decoded(st.op, st.last) }

  /** The context after a step. */
  function Then<Op>(h: Context, st: Step<Op>): Context { h.(left := st.left) }

  /** Instructions `t` are those that decoding from `p` finds in `m`, none of them ending the
      trace; decoding would continue at `e` in context `k`, and no byte at or beyond `r` was looked at. */
  ghost predicate Chain<Op(!new)>(dec: Decoder<Op>, h: Context, t: seq<Slot<Op>>, m: seq<byte>, p: nat,
                                  k: Context, e: nat, r: nat)
    decreases |t|
  {
    if t == [] then
      p == e && e <= r && k == h
    else
      && p <= |m|
      && var st := dec.step(m[p..], h);
      && t[0] == SlotOf(st)
      && !st.last
      && p + st.looked <= r
      && Chain(dec, Then(h, st), t[1..], m, p + st.len, k, e, r)
  }

  /** A complete trace: a chain that stops at a terminator or at an instruction that ends traces. */
  ghost predicate IsTrace<Op(!new)>(dec: Decoder<Op>, h: Context, t: seq<Slot<Op>>, m: seq<byte>, p: nat, e: nat,
                                    r: nat)
    decreases |t|
  {
    && t != []
    && match t[0]
       case TraceEnd => |t| == 1 && p == e && e <= r
       case Decoded(_, _) =>
         && p <= |m|
         && var st := dec.step(m[p..], h);
         && t[0] == SlotOf(st)
         && p + st.looked <= r
         && if st.last then |t| == 1 && p + st.len == e else IsTrace(dec, Then(h, st), t[1..], m, p + st.len, e, r)
  }

  /** The override in force after decoding the trace `t` at `p`. */
  ghost function Leaves<Op(!new)>(dec: Decoder<Op>, h: Context, t: seq<Slot<Op>>, m: seq<byte>, p: nat): nat
    decreases |t|
  {
    if t == [] || t[0].TraceEnd? || p > |m| then h.left
    else
      var st := dec.step(m[p..], h);
      Leaves(dec, Then(h, st), t[1..], m, p + st.len)
  }

  function Max(x: nat, y: nat): nat {
    if x < y then y else x
  }

  /** The first address that decoding the trace `t` at `p` did not look at. */
  ghost function LooksTo<Op(!new)>(dec: Decoder<Op>, h: Context, t: seq<Slot<Op>>, m: seq<byte>, p: nat): nat
    decreases |t|
  {
    if t == [] || t[0].TraceEnd? || p > |m| then p
    else
      var st := dec.step(m[p..], h);
      Max(p + st.looked, if st.last then 0 else LooksTo(dec, Then(h, st), t[1..], m, p + st.len))
  }

  /** Where the interpreter leaves a trace: at a terminator or a last instruction. */
  predicate Stops<Op>(x: Slot<Op>) { x.TraceEnd? || x.last }

  /** A trace ends at its last element and not before. */
  predicate Terminated<Op>(t: seq<Slot<Op>>) {
    t != [] && Stops(t[|t| - 1]) && forall i :: 0 <= i < |t| - 1 ==> !Stops(t[i])
  }

  /** A trace that the interpreter can run: at least one instruction, up to the end. */
  predicate Runnable<Op>(t: seq<Slot<Op>>) { Terminated(t) && t[0].Decoded? }

  /** The elements the interpreter runs from an index of the buffer on. */
  function ReadOff<Op>(buf: seq<Slot<Op>>, ptr: nat): seq<Slot<Op>>
    decreases |buf| - ptr
  {
    if ptr >= |buf| then []
    else if Stops(buf[ptr]) then [buf[ptr]]
    else [buf[ptr]] + ReadOff(buf, ptr + 1)
  }

  lemma ReadOffStep<Op>(buf: seq<Slot<Op>>, i: nat, t: seq<Slot<Op>>)
    requires i < |buf|
    ensures t + ReadOff(buf, i) == t + [buf[i]] + if Stops(buf[i]) then [] else ReadOff(buf, i + 1)
  {
  }

  lemma ReadOffDone<Op>(buf: seq<Slot<Op>>, t: seq<Slot<Op>>)
    ensures t + ReadOff(buf, |buf|) == t
  {
  }

  lemma {:induction false} ReadsTrace<Op>(buf: seq<Slot<Op>>, ptr: nat, n: nat)
    requires ptr + n <= |buf| && Terminated(buf[ptr..ptr + n])
    ensures ReadOff(buf, ptr) == buf[ptr..ptr + n]
    decreases n
  {
    var t := buf[ptr..ptr + n];
    assert t[0] == buf[ptr];
    if n > 1 {
      var u := buf[ptr + 1..ptr + n];
      assert u == t[1..];
      assert forall i :: 0 <= i < |u| - 1 ==> u[i] == t[i + 1];
      ReadsTrace(buf, ptr + 1, n - 1);
      assert t == [t[0]] + u;
    } else {
      assert t == [t[0]];
    }
  }

  lemma StepDependsOn<Op(!new)>(dec: Decoder<Op>, h: Context, m: seq<byte>, n: seq<byte>, p: nat, r: nat)
    requires Determined(dec) && p <= |m| == |n| && r <= |m|
    requires p + dec.step(m[p..], h).looked <= r
    requires m[p..r] == n[p..r]
    ensures dec.step(n[p..], h) == dec.step(m[p..], h)
  {
    var k := dec.step(m[p..], h).looked;
    assert m[p..][..k] == m[p..r][..k];
    assert n[p..][..k] == n[p..r][..k];
    assert AgreesOn(dec, m[p..], n[p..], h);
  }

  /** A trace stays the decoding of memory as long as the bytes it looked at stay. */
  lemma {:induction false} TraceIsStable<Op(!new)>(dec: Decoder<Op>, h: Context, t: seq<Slot<Op>>,
                                                  m: seq<byte>, n: seq<byte>, q: nat, p: nat, e: nat, r: nat)
    requires Determined(dec) && IsTrace(dec, h, t, m, p, e, r)
    requires q <= p && r <= |m| == |n| && q <= r && m[q..r] == n[q..r]
    ensures IsTrace(dec, h, t, n, p, e, r)
    decreases |t|
  {
    match t[0]
    case TraceEnd =>
    case Decoded(_, _) =>
      assert m[p..r] == n[p..r] by {
        assert m[p..r] == m[q..r][p - q..];
        assert n[p..r] == n[q..r][p - q..];
      }
      StepDependsOn(dec, h, m, n, p, r);
      var st := dec.step(m[p..], h);
      if !st.last {
        TraceIsStable(dec, Then(h, st), t[1..], m, n, q, p + st.len, e, r);
      }
  }

  /** Extending a chain by one more instruction that does not end the trace. */
  lemma {:induction false} ChainAppend<Op(!new)>(dec: Decoder<Op>, h: Context, t: seq<Slot<Op>>,
                                                 m: seq<byte>, p: nat, k: Context, e: nat, r: nat, r': nat)
    requires Bounded(dec) && Chain(dec, h, t, m, p, k, e, r)
    requires e <= |m| && r <= r' && e + dec.step(m[e..], k).looked <= r'
    requires !dec.step(m[e..], k).last
    ensures var st := dec.step(m[e..], k);
            && Chain(dec, h, t + [SlotOf(st)], m, p, Then(k, st), e + st.len, r')
            && Leaves(dec, h, t + [SlotOf(st)], m, p) == st.left
            && LooksTo(dec, h, t + [SlotOf(st)], m, p) == Max(LooksTo(dec, h, t, m, p), e + st.looked)
    decreases |t|
  {
    var x := SlotOf(dec.step(m[e..], k));
    assert StepBounds(dec.step(m[e..], k));
    if t == [] {
      assert ([] + [x])[1..] == [];
    } else {
      var st := dec.step(m[p..], h);
      ChainAppend(dec, Then(h, st), t[1..], m, p + st.len, k, e, r, r');
      assert (t + [x])[1..] == t[1..] + [x];
    }
  }

  /** Closing a chain with the terminator. */
  lemma {:induction false} ChainEnd<Op(!new)>(dec: Decoder<Op>, h: Context, t: seq<Slot<Op>>,
                                              m: seq<byte>, p: nat, k: Context, e: nat, r: nat)
    requires Chain(dec, h, t, m, p, k, e, r)
    ensures IsTrace(dec, h, t + [TraceEnd], m, p, e, r) && Leaves(dec, h, t + [TraceEnd], m, p) == k.left
    ensures LooksTo(dec, h, t + [TraceEnd], m, p) == LooksTo(dec, h, t, m, p)
    decreases |t|
  {
    if t == [] {
      assert t + [TraceEnd] == [TraceEnd];
    } else {
      var st := dec.step(m[p..], h);
      ChainEnd(dec, Then(h, st), t[1..], m, p + st.len, k, e, r);
      assert (t + [TraceEnd])[1..] == t[1..] + [TraceEnd];
    }
  }

  /** Closing a chain with an instruction that ends traces. */
  lemma {:induction false} ChainLast<Op(!new)>(dec: Decoder<Op>, h: Context, t: seq<Slot<Op>>,
                                               m: seq<byte>, p: nat, k: Context, e: nat, r: nat, r': nat)
    requires Chain(dec, h, t, m, p, k, e, r) && e <= |m|
    requires r <= r' && e + dec.step(m[e..], k).looked <= r' && dec.step(m[e..], k).last
    ensures var st := dec.step(m[e..], k);
            && IsTrace(dec, h, t + [SlotOf(st)], m, p, e + st.len, r')
            && Leaves(dec, h, t + [SlotOf(st)], m, p) == st.left
            && LooksTo(dec, h, t + [SlotOf(st)], m, p) == Max(LooksTo(dec, h, t, m, p), e + st.looked)
    decreases |t|
  {
    var x := SlotOf(dec.step(m[e..], k));
    if t == [] {
      assert t + [x] == [x];
    } else {
      var st := dec.step(m[p..], h);
      ChainLast(dec, Then(h, st), t[1..], m, p + st.len, k, e, r, r');
      assert (t + [x])[1..] == t[1..] + [x];
    }
  }

  lemma {:induction false} ChainGoesOn<Op(!new)>(dec: Decoder<Op>, h: Context, t: seq<Slot<Op>>,
                                                 m: seq<byte>, p: nat, k: Context, e: nat, r: nat)
    requires Chain(dec, h, t, m, p, k, e, r)
    ensures k.hash == h.hash && forall i :: 0 <= i < |t| ==> !Stops(t[i])
    decreases |t|
  {
    if t != [] {
      var st := dec.step(m[p..], h);
      ChainGoesOn(dec, Then(h, st), t[1..], m, p + st.len, k, e, r);
      assert forall i :: 1 <= i < |t| ==> t[i] == t[1..][i - 1];
    }
  }

  /** A complete trace ends where the interpreter leaves it. */
  lemma {:induction false} TraceTerminates<Op(!new)>(dec: Decoder<Op>, h: Context, t: seq<Slot<Op>>, m: seq<byte>,
                                                     p: nat, e: nat, r: nat)
    requires IsTrace(dec, h, t, m, p, e, r)
    ensures Terminated(t)
    decreases |t|
  {
    if t[0].Decoded? && !t[0].last {
      var st := dec.step(m[p..], h);
      TraceTerminates(dec, Then(h, st), t[1..], m, p + st.len, e, r);
      assert forall i :: 1 <= i < |t| ==> t[i] == t[1..][i - 1];
    }
  }

  // --- Code whose traces the bitmap covers ---

  /** The decoding loop stops before `q` because the instruction there is not known to end on the page. */
  ghost predicate AtEnd<Op(!new)>(dec: Decoder<Op>, hash: nat, m: seq<byte>, q: nat, limit: nat) {
    q > limit - LONGEST && (q >= limit || q > |m| || !dec.fits(m[q..], hash, limit - q))
  }

  /** Where decoding at most `n` instructions from `q` on leaves the cursor. */
  ghost function CodeEnd<Op(!new)>(dec: Decoder<Op>, h: Context, m: seq<byte>, q: nat, limit: nat, n: nat): (e: nat)
    ensures q <= e
    decreases n
  {
    if n == 0 || q > |m| || AtEnd(dec, h.hash, m, q, limit) then q
    else
      var st := dec.step(m[q..], h);
      if st.last then q + st.len else CodeEnd(dec, Then(h, st), m, q + st.len, limit, n - 1)
  }

  /** The bytes before `looksTo` end on the page that ends at `limit`, and no later than in the chunk of `end`. */
  predicate Inside(looksTo: nat, limit: nat, end: nat) {
    looksTo <= limit && (looksTo - 1) / CHUNK <= end / CHUNK
  }

  /** Each of the at most `n` instructions that decoding visits from `q` on is decided by bytes of its page, none of
      them in a chunk after that of `end`. */
  ghost predicate TidyAhead<Op(!new)>(dec: Decoder<Op>, h: Context, m: seq<byte>, q: nat, limit: nat, end: nat, n: nat)
    decreases n
  {
    n == 0 || q > |m| || AtEnd(dec, h.hash, m, q, limit) ||
    (var st := dec.step(m[q..], h);
     Inside(q + st.looked, limit, end) && (st.last || TidyAhead(dec, Then(h, st), m, q + st.len, limit, end, n - 1)))
  }

  /** None of them leaves a segment override in force. */
  ghost predicate CleanAhead<Op(!new)>(dec: Decoder<Op>, h: Context, m: seq<byte>, q: nat, limit: nat, n: nat)
    decreases n
  {
    n == 0 || q > |m| || AtEnd(dec, h.hash, m, q, limit) ||
    (var st := dec.step(m[q..], h);
     st.left == 0 && (st.last || CleanAhead(dec, h, m, q + st.len, limit, n - 1)))
  }

  /** Where the trace that decoding makes at `p` ends. */
  ghost function TraceEnds<Op(!new)>(dec: Decoder<Op>, h: Context, m: seq<byte>, p: nat, limit: nat): nat {
    CodeEnd(dec, h, m, p, limit, MAX_TRACE_SIZE - 1)
  }

  /** Decoding from `p` visits only instructions decided by bytes of the page, up to the chunk where the trace ends. */
  ghost predicate TidyCode<Op(!new)>(dec: Decoder<Op>, h: Context, m: seq<byte>, p: nat, limit: nat) {
    TidyAhead(dec, h, m, p, limit, TraceEnds(dec, h, m, p, limit), MAX_TRACE_SIZE - 1)
  }

  /** Decoding from `p` begins and goes on without a leftover override. */
  ghost predicate CleanCode<Op(!new)>(dec: Decoder<Op>, h: Context, m: seq<byte>, p: nat, limit: nat) {
    h.left == 0 && CleanAhead(dec, h, m, p, limit, MAX_TRACE_SIZE - 1)
  }

  // --- The invariant of the decoding loop ---

  /** With `n` elements to go, what lies ahead of the cursor decides where the trace ends, and with the bytes looked
      at so far whether the code is tidy. */
  ghost predicate Onward<Op(!new)>(dec: Decoder<Op>, h: Context, m: seq<byte>, p: nat, k: Context, rawp: nat, r: nat,
                                   limit: nat, n: nat) {
    var end := TraceEnds(dec, h, m, p, limit);
    && CodeEnd(dec, k, m, rawp, limit, n) == end
    && (TidyCode(dec, h, m, p, limit) <==>
          (p < r ==> Inside(r, limit, end)) && TidyAhead(dec, k, m, rawp, limit, end, n))
  }

  /** `t` was decoded from `p`, the cursor is at `rawp` in context `k`, and the bytes up to `r` were looked at; clean
      code left no override. */
  ghost predicate Progress<Op(!new)>(dec: Decoder<Op>, h: Context, t: seq<Slot<Op>>, m: seq<byte>, p: nat,
                                     k: Context, rawp: nat, r: nat, limit: nat) {
    && |t| < MAX_TRACE_SIZE && p <= rawp <= r && rawp < limit + MAX_STEP && limit <= |m|
    && rawp <= p + MAX_STEP * |t|
    && Chain(dec, h, t, m, p, k, rawp, r) && r == LooksTo(dec, h, t, m, p)
    && Onward(dec, h, m, p, k, rawp, r, limit, MAX_TRACE_SIZE - 1 - |t|)
    && (CleanCode(dec, h, m, p, limit) ==>
          k == h && CleanAhead(dec, k, m, rawp, limit, MAX_TRACE_SIZE - 1 - |t|))
  }

  /** The trace ends with an instruction that ends traces, or is full, or the next instruction is not known to end on
      the page. */
  ghost predicate Maximal<Op(!new)>(dec: Decoder<Op>, hash: nat, t: seq<Slot<Op>>, m: seq<byte>, rawp: nat,
                                    limit: nat)
    requires t != []
  {
    || t[|t| - 1].Decoded? || |t| == MAX_TRACE_SIZE
    || (limit < rawp + LONGEST && (limit <= rawp || rawp > |m| || !dec.fits(m[rawp..], hash, limit - rawp)))
  }

  /** The finished trace, which is as long as it can be. The code is tidy exactly if the bytes looked at end on the
      page, in a chunk that the trace reaches. */
  ghost predicate Finished<Op(!new)>(dec: Decoder<Op>, h: Context, t: seq<Slot<Op>>, m: seq<byte>, p: nat,
                                     rawp: nat, r: nat, limit: nat) {
    && p <= rawp <= r && p < r && limit <= |m| && rawp < p + LENGTH_RANGE
    && IsTrace(dec, h, t, m, p, rawp, r) && r == LooksTo(dec, h, t, m, p)
    && |t| <= MAX_TRACE_SIZE && Maximal(dec, h.hash, t, m, rawp, limit)
    && rawp == TraceEnds(dec, h, m, p, limit)
    && (TidyCode(dec, h, m, p, limit) <==> Inside(r, limit, rawp))
    && (CleanCode(dec, h, m, p, limit) ==> Leaves(dec, h, t, m, p) == 0)
  }

  lemma ProgressStart<Op(!new)>(dec: Decoder<Op>, h: Context, m: seq<byte>, p: nat, limit: nat)
    requires p < limit <= |m|
    ensures Progress(dec, h, [], m, p, h, p, p, limit)
  {
  }

  /** What one more step adds; the guard is the loop's own page-end check. */
  lemma StepAhead<Op(!new)>(dec: Decoder<Op>, k: Context, m: seq<byte>, q: nat, limit: nat, n: nat)
    requires Bounded(dec) && q < limit <= |m| && n > 0 && !AtEnd(dec, k.hash, m, q, limit)
    ensures var st := dec.step(m[q..], k);
            && (k.left == 0 && CleanAhead(dec, k, m, q, limit, n) ==>
                  Then(k, st) == k && (st.last || CleanAhead(dec, k, m, q + st.len, limit, n - 1)))
            && StepBounds(st)
  {
    assert StepBounds(dec.step(m[q..], k));
  }

  lemma InsideMax(x: nat, y: nat, limit: nat, end: nat)
    ensures Inside(Max(x, y), limit, end) <==> Inside(x, limit, end) && Inside(y, limit, end)
  {
  }

  /** A step passes on where the trace ends, and adds its own bytes to those looked at. */
  lemma OnwardStep<Op(!new)>(dec: Decoder<Op>, h: Context, m: seq<byte>, p: nat, k: Context, q: nat, r: nat,
                             limit: nat, n: nat)
    requires Bounded(dec) && p <= q <= r && q <= |m| && n > 0 && !AtEnd(dec, k.hash, m, q, limit)
    requires Onward(dec, h, m, p, k, q, r, limit, n)
    ensures var st := dec.step(m[q..], k);
            var r', end := Max(r, q + st.looked), TraceEnds(dec, h, m, p, limit);
            && p < r'
            && (!st.last ==> Onward(dec, h, m, p, Then(k, st), q + st.len, r', limit, n - 1))
            && (st.last ==> q + st.len == end && (TidyCode(dec, h, m, p, limit) <==> Inside(r', limit, end)))
  {
    var st := dec.step(m[q..], k);
    assert StepBounds(st);
    InsideMax(r, q + st.looked, limit, TraceEnds(dec, h, m, p, limit));
    hide TidyCode, TraceEnds, AtEnd, Inside, Bounded;
  }

  /** Where the loop stops, because the page or the room for elements ends, the trace ends. */
  lemma OnwardEnd<Op(!new)>(dec: Decoder<Op>, h: Context, m: seq<byte>, p: nat, k: Context, q: nat, r: nat,
                            limit: nat, n: nat)
    requires n == 0 || AtEnd(dec, k.hash, m, q, limit)
    requires Onward(dec, h, m, p, k, q, r, limit, n) && p < r
    ensures q == TraceEnds(dec, h, m, p, limit) && (TidyCode(dec, h, m, p, limit) <==> Inside(r, limit, q))
  {
    hide TidyCode, TraceEnds, Inside;
  }

  lemma ProgressStep<Op(!new)>(dec: Decoder<Op>, h: Context, t: seq<Slot<Op>>, m: seq<byte>, p: nat,
                               k: Context, rawp: nat, r: nat, limit: nat)
    requires Progress(dec, h, t, m, p, k, rawp, r, limit) && Bounded(dec) && |t| < MAX_TRACE_SIZE - 1
    requires rawp < limit && !AtEnd(dec, k.hash, m, rawp, limit) && !dec.step(m[rawp..], k).last
    ensures var st := dec.step(m[rawp..], k);
            Progress(dec, h, t + [SlotOf(st)], m, p, Then(k, st), rawp + st.len, Max(r, rawp + st.looked), limit)
  {
    var st := dec.step(m[rawp..], k);
    StepAhead(dec, k, m, rawp, limit, MAX_TRACE_SIZE - 1 - |t|);
    OnwardStep(dec, h, m, p, k, rawp, r, limit, MAX_TRACE_SIZE - 1 - |t|);
    hide Onward, CleanAhead, AtEnd, Bounded;
    ChainAppend(dec, h, t, m, p, k, rawp, r, Max(r, rawp + st.looked));
  }

  lemma FinishedLast<Op(!new)>(dec: Decoder<Op>, h: Context, t: seq<Slot<Op>>, m: seq<byte>, p: nat,
                               k: Context, rawp: nat, r: nat, limit: nat)
    requires Progress(dec, h, t, m, p, k, rawp, r, limit) && Bounded(dec) && |t| < MAX_TRACE_SIZE - 1
    requires rawp < limit && !AtEnd(dec, k.hash, m, rawp, limit) && dec.step(m[rawp..], k).last
    ensures var st := dec.step(m[rawp..], k);
            Finished(dec, h, t + [SlotOf(st)], m, p, rawp + st.len, Max(r, rawp + st.looked), limit)
            && Leaves(dec, h, t + [SlotOf(st)], m, p) == st.left
  {
    var st := dec.step(m[rawp..], k);
    StepAhead(dec, k, m, rawp, limit, MAX_TRACE_SIZE - 1 - |t|);
    OnwardStep(dec, h, m, p, k, rawp, r, limit, MAX_TRACE_SIZE - 1 - |t|);
    hide Onward, TidyCode, TraceEnds, Inside, CleanAhead, AtEnd, Bounded;
    ChainLast(dec, h, t, m, p, k, rawp, r, Max(r, rawp + st.looked));
  }

  lemma FinishedEnd<Op(!new)>(dec: Decoder<Op>, h: Context, t: seq<Slot<Op>>, m: seq<byte>, p: nat,
                              k: Context, rawp: nat, r: nat, limit: nat)
    requires Progress(dec, h, t, m, p, k, rawp, r, limit) && p < r
    requires |t| == MAX_TRACE_SIZE - 1 || AtEnd(dec, k.hash, m, rawp, limit)
    ensures Finished(dec, h, t + [TraceEnd], m, p, rawp, r, limit)
    ensures Leaves(dec, h, t + [TraceEnd], m, p) == k.left
  {
    OnwardEnd(dec, h, m, p, k, rawp, r, limit, MAX_TRACE_SIZE - 1 - |t|);
    ChainGoesOn(dec, h, t, m, p, k, rawp, r);
    assert Maximal(dec, h.hash, t + [TraceEnd], m, rawp, limit);
    hide Onward, TidyCode, TraceEnds, Inside, CleanAhead, AtEnd, Maximal;
    ChainEnd(dec, h, t, m, p, k, rawp, r);
  }

  /** A finished trace looked at something, so it has an instruction. */
  lemma FinishedRuns<Op(!new)>(dec: Decoder<Op>, h: Context, t: seq<Slot<Op>>, m: seq<byte>, p: nat, rawp: nat,
                               r: nat, limit: nat)
    requires Finished(dec, h, t, m, p, rawp, r, limit)
    ensures Runnable(t)
  {
    TraceTerminates(dec, h, t, m, p, rawp, r);
    hide TidyCode, TraceEnds, CleanCode, Inside, Terminated;
  }

  /** One round of the loop: the step goes to the trace, and ends it or leaves the invariant. */
  lemma RoundDecodes<Op(!new)>(dec: Decoder<Op>, h: Context, t: seq<Slot<Op>>, m: seq<byte>, p: nat,
                               k: Context, rawp: nat, r: nat, limit: nat)
    requires Progress(dec, h, t, m, p, k, rawp, r, limit) && Bounded(dec) && |t| < MAX_TRACE_SIZE - 1
    requires rawp < limit <= |m| && !AtEnd(dec, k.hash, m, rawp, limit)
    ensures var st := dec.step(m[rawp..], k);
            var u, r' := t + [SlotOf(st)], Max(r, rawp + st.looked);
            && p < r'
            && if st.last then Finished(dec, h, u, m, p, rawp + st.len, r', limit) && Leaves(dec, h, u, m, p) == st.left
               else Progress(dec, h, u, m, p, Then(k, st), rawp + st.len, r', limit) && Then(k, st).hash == h.hash
  {
    ChainGoesOn(dec, h, t, m, p, k, rawp, r);
    assert StepBounds(dec.step(m[rawp..], k));
    hide Chain, LooksTo, Leaves, Onward, CleanCode, CleanAhead, Finished, AtEnd;
    if dec.step(m[rawp..], k).last {
      FinishedLast(dec, h, t, m, p, k, rawp, r, limit);
    } else {
      ProgressStep(dec, h, t, m, p, k, rawp, r, limit);
    }
  }
}
