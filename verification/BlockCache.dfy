/** The cache of compiled blocks (src/uwin-jit/basic_block_cache.cpp, include/uwin-jit/basic_block.h): a
    miss compiles a block and then, down to a fixed depth, the blocks it is predicted to branch to, and
    leaves a link to each. The blocks form a graph that may be cyclic. */
module BlockCache {
  const MAX_DEPTH := 32

  /** A block as seen through the cache: the predicted addresses, the first `filled` of them linked. */
  datatype Entry = Entry(targets: seq<nat>, filled: nat)

  /** The cached blocks by address, and the addresses in the order they were compiled. */
  datatype State = State(blocks: map<nat, Entry>, log: seq<nat>)

  /** The branches the code generator predicts for a block: any function of the address and of the time,
      counted in compilations, because guest memory may change in between. */
  type Compiler = (nat, nat) -> seq<nat>

  function Compiled(compile: Compiler, s: State, eip: nat): State {
    State(s.blocks[eip := Entry(compile(|s.blocks|, eip), 0)], s.log + [eip])
  }

  ghost predicate Keeps(s: State, r: State) {
    forall a {:trigger a in s.blocks} {:trigger a in r.blocks} :: a in s.blocks
        ==> a in r.blocks && r.blocks[a] == s.blocks[a]
  }

  ghost predicate KeepsTargets(s: State, r: State) {
    forall a {:trigger a in s.blocks} {:trigger a in r.blocks} ::
      a in s.blocks ==> a in r.blocks && r.blocks[a].targets == s.blocks[a].targets
  }

  /** All blocks but the one at `eip` are as they were. */
  ghost predicate KeepsOthers(s: State, r: State, eip: nat) {
    forall a {:trigger a in s.blocks} {:trigger a in r.blocks} ::
      a in s.blocks && a != eip ==> a in r.blocks && r.blocks[a] == s.blocks[a]
  }

  /** What a lookup at a depth of the recursion leaves: nothing changes on a hit; a miss adds blocks. */
  ghost function Visit(compile: Compiler, s: State, eip: nat, depth: nat): (r: State)
    requires depth <= MAX_DEPTH
    ensures Keeps(s, r) && eip in r.blocks
    decreases MAX_DEPTH - depth, 1, 0
  {
    if eip in s.blocks then s
    else
      var c := Compiled(compile, s, eip);
      if depth < MAX_DEPTH then Fill(compile, c, eip, c.blocks[eip].targets, 0, depth) else c
  }

  /** The loop over a new block's predictions, from the `i`-th on. */
  ghost function Fill(compile: Compiler, s: State, eip: nat, targets: seq<nat>, i: nat, depth: nat): (r: State)
    requires depth < MAX_DEPTH && i <= |targets| && eip in s.blocks
    ensures KeepsOthers(s, r, eip) && eip in r.blocks && r.blocks[eip].targets == s.blocks[eip].targets
    decreases MAX_DEPTH - depth, 0, |targets| - i
  {
    if i == |targets| then s
    else
      var v := Visit(compile, s, targets[i], depth + 1);
      Fill(compile, Linked(v, eip, i), eip, targets, i + 1, depth)
  }

  lemma FillDone(compile: Compiler, s: State, eip: nat, targets: seq<nat>, depth: nat)
    requires depth < MAX_DEPTH && eip in s.blocks
    ensures Fill(compile, s, eip, targets, |targets|, depth) == s
  {
  }

  lemma FillStep(compile: Compiler, s: State, eip: nat, targets: seq<nat>, i: nat, depth: nat)
    requires depth < MAX_DEPTH && i < |targets| && eip in s.blocks
    ensures eip in Visit(compile, s, targets[i], depth + 1).blocks
    ensures var l := Linked(Visit(compile, s, targets[i], depth + 1), eip, i);
            eip in l.blocks && Fill(compile, s, eip, targets, i, depth) == Fill(compile, l, eip, targets, i + 1, depth)
  {
    hide Visit;
  }

  ghost function Linked(s: State, eip: nat, i: nat): State
    requires eip in s.blocks
  {
    s.(blocks := s.blocks[eip := s.blocks[eip].(filled := i + 1)])
  }

  // --- Every link leads to the cached block of its address; nothing is compiled twice ---

  /** The linked targets of a block are cached. */
  ghost predicate LinksOk(s: State, a: nat)
    requires a in s.blocks
  {
    var e := s.blocks[a];
    e.filled <= |e.targets| && forall i :: 0 <= i < e.filled ==> e.targets[i] in s.blocks
  }

  ghost predicate Sound(s: State) {
    forall a {:trigger a in s.blocks} :: a in s.blocks ==> LinksOk(s, a)
  }

  /** The log holds exactly the cached addresses, each once. */
  ghost predicate Logged(s: State) {
    && (forall i, j :: 0 <= i < j < |s.log| ==> s.log[i] != s.log[j])
    && (forall a {:trigger a in s.blocks} :: a in s.log <==> a in s.blocks)
  }

  lemma CompiledIsSound(compile: Compiler, s: State, eip: nat)
    requires Sound(s) && Logged(s) && eip !in s.blocks
    ensures Sound(Compiled(compile, s, eip)) && Logged(Compiled(compile, s, eip))
  {
    var c := Compiled(compile, s, eip);
    forall a | a in c.blocks ensures LinksOk(c, a) {
      assert a != eip ==> a in s.blocks && LinksOk(s, a);
    }
  }

  lemma VisitIsSound(compile: Compiler, s: State, eip: nat, depth: nat)
    requires depth <= MAX_DEPTH && Sound(s) && Logged(s)
    ensures var r := Visit(compile, s, eip, depth); Sound(r) && Logged(r) && s.log <= r.log
    decreases MAX_DEPTH - depth, 1, 0
  {
    if eip !in s.blocks {
      var c := Compiled(compile, s, eip);
      CompiledIsSound(compile, s, eip);
      if depth < MAX_DEPTH {
        FillIsSound(compile, c, eip, c.blocks[eip].targets, 0, depth);
      }
    }
  }

  lemma FillIsSound(compile: Compiler, s: State, eip: nat, targets: seq<nat>, i: nat, depth: nat)
    requires depth < MAX_DEPTH && i <= |targets| && Sound(s) && Logged(s)
    requires eip in s.blocks && s.blocks[eip] == Entry(targets, i)
    ensures var r := Fill(compile, s, eip, targets, i, depth);
            Sound(r) && Logged(r) && s.log <= r.log && r.blocks[eip] == Entry(targets, |targets|)
    decreases MAX_DEPTH - depth, 0, |targets| - i
  {
    hide Sound, Logged, Visit;
    if i < |targets| {
      var v := Visit(compile, s, targets[i], depth + 1);
      VisitIsSound(compile, s, targets[i], depth + 1);
      assert v.blocks[eip] == s.blocks[eip];
      LinkIsSound(v, eip, i);
      FillIsSound(compile, Linked(v, eip, i), eip, targets, i + 1, depth);
    }
  }

  lemma LinkIsSound(s: State, eip: nat, i: nat)
    requires Sound(s) && Logged(s) && eip in s.blocks
    requires s.blocks[eip].filled == i < |s.blocks[eip].targets| && s.blocks[eip].targets[i] in s.blocks
    ensures Sound(Linked(s, eip, i)) && Logged(Linked(s, eip, i))
  {
    var r := Linked(s, eip, i);
    forall a | a in r.blocks ensures LinksOk(r, a) {
      assert a in s.blocks && LinksOk(s, a);
    }
  }

  // --- A block is linked wholly or not at all, and links are final ---

  /** All predictions linked, or none. */
  ghost predicate Settled(e: Entry) {
    e.filled == 0 || e.filled == |e.targets|
  }

  ghost predicate AllSettled(s: State) {
    forall a {:trigger a in s.blocks} :: a in s.blocks ==> Settled(s.blocks[a])
  }

  // --- How far compilation reaches ---

  /** `b` is reached from `a` in exactly `n` predicted branches. */
  ghost predicate Path(s: State, a: nat, b: nat, n: nat)
    decreases n
  {
    if n == 0 then a == b
    else a in s.blocks && exists i :: 0 <= i < |s.blocks[a].targets| && Path(s, s.blocks[a].targets[i], b, n - 1)
  }

  ghost predicate Within(s: State, a: nat, b: nat, n: nat) {
    exists k :: 0 <= k <= n && Path(s, a, b, k)
  }

  lemma {:induction false} PathKept(s: State, r: State, a: nat, b: nat, n: nat)
    requires KeepsTargets(s, r) && Path(s, a, b, n)
    ensures Path(r, a, b, n)
    decreases n
  {
    if n > 0 {
      var i :| 0 <= i < |s.blocks[a].targets| && Path(s, s.blocks[a].targets[i], b, n - 1);
      PathKept(s, r, s.blocks[a].targets[i], b, n - 1);
    }
  }

  /** A block was reached from `eip` in `n` branches at most, and unless it is wholly linked by exactly `n`. */
  ghost predicate Reached(s: State, eip: nat, a: nat, n: nat)
    requires a in s.blocks
  {
    Within(s, eip, a, n)
        && (s.blocks[a].filled == |s.blocks[a].targets| || (s.blocks[a].filled == 0 && Path(s, eip, a, n)))
  }

  lemma ReachedKept(s: State, r: State, eip: nat, a: nat, n: nat)
    requires a in s.blocks && Reached(s, eip, a, n) && KeepsTargets(s, r) && r.blocks[a] == s.blocks[a]
    ensures Reached(r, eip, a, n)
  {
    var k :| 0 <= k <= n && Path(s, eip, a, k);
    PathKept(s, r, eip, a, k);
    if Path(s, eip, a, n) {
      PathKept(s, r, eip, a, n);
    }
  }

  lemma ReachedThrough(s: State, eip: nat, i: nat, a: nat, n: nat)
    requires a in s.blocks && eip in s.blocks && i < |s.blocks[eip].targets|
    requires Reached(s, s.blocks[eip].targets[i], a, n)
    ensures Reached(s, eip, a, n + 1)
  {
    var k :| 0 <= k <= n && Path(s, s.blocks[eip].targets[i], a, k);
    assert Path(s, eip, a, k + 1);
    if Path(s, s.blocks[eip].targets[i], a, n) {
      assert Path(s, eip, a, n + 1);
    }
  }

  /** The blocks compiled by a lookup: all are reached within the remaining depth, and those left unlinked
      lie exactly at its end; the requested block itself is linked wherever the depth allows. */
  lemma VisitReaches(compile: Compiler, s: State, eip: nat, depth: nat)
    requires depth <= MAX_DEPTH
    ensures var r := Visit(compile, s, eip, depth);
            && (forall a :: a in r.blocks && a !in s.blocks ==> Reached(r, eip, a, MAX_DEPTH - depth))
            && (eip !in s.blocks && depth < MAX_DEPTH ==> r.blocks[eip].filled == |r.blocks[eip].targets|)
    decreases MAX_DEPTH - depth, 1, 0
  {
    if eip !in s.blocks {
      var c := Compiled(compile, s, eip);
      var r := Visit(compile, s, eip, depth);
      assert Path(r, eip, eip, 0);
      if depth < MAX_DEPTH {
        FillReaches(compile, c, eip, c.blocks[eip].targets, 0, depth);
      }
    }
  }

  lemma FillReaches(compile: Compiler, s: State, eip: nat, targets: seq<nat>, i: nat, depth: nat)
    requires depth < MAX_DEPTH && i <= |targets| && eip in s.blocks && s.blocks[eip] == Entry(targets, i)
    ensures var r := Fill(compile, s, eip, targets, i, depth);
            && (forall a :: a in r.blocks && a !in s.blocks ==> Reached(r, eip, a, MAX_DEPTH - depth))
            && r.blocks[eip] == Entry(targets, |targets|)
    decreases MAX_DEPTH - depth, 0, |targets| - i
  {
    hide Visit, Reached;
    if i < |targets| {
      var v := Visit(compile, s, targets[i], depth + 1);
      VisitReaches(compile, s, targets[i], depth + 1);
      assert v.blocks[eip] == s.blocks[eip];
      var l := Linked(v, eip, i);
      FillReaches(compile, l, eip, targets, i + 1, depth);
      var r := Fill(compile, l, eip, targets, i + 1, depth);
      assert l.blocks.Keys == v.blocks.Keys;
      LinkedKeeps(v, r, eip, i);
      forall a | a in r.blocks && a !in s.blocks ensures Reached(r, eip, a, MAX_DEPTH - depth) {
        if a in v.blocks {
          StepReaches(v, r, eip, i, a, depth);
        }
      }
    }
  }

  lemma LinkedKeeps(v: State, r: State, eip: nat, i: nat)
    requires eip in v.blocks && eip in r.blocks && r.blocks[eip].targets == v.blocks[eip].targets
    requires KeepsOthers(Linked(v, eip, i), r, eip)
    ensures KeepsTargets(v, r)
    ensures forall a :: a in v.blocks && a != eip ==> a in r.blocks && r.blocks[a] == v.blocks[a]
  {
    forall a | a in v.blocks ensures a in r.blocks && r.blocks[a].targets == v.blocks[a].targets {
      assert a in Linked(v, eip, i).blocks;
    }
    forall a | a in v.blocks && a != eip ensures a in r.blocks && r.blocks[a] == v.blocks[a] {
      assert a in Linked(v, eip, i).blocks;
    }
  }

  lemma StepReaches(v: State, r: State, eip: nat, i: nat, a: nat, depth: nat)
    requires depth < MAX_DEPTH && eip in v.blocks && i < |v.blocks[eip].targets| && a in v.blocks
    requires Reached(v, v.blocks[eip].targets[i], a, MAX_DEPTH - depth - 1)
    requires KeepsTargets(v, r) && r.blocks[a] == v.blocks[a]
    ensures Reached(r, eip, a, MAX_DEPTH - depth)
  {
    ReachedThrough(v, eip, i, a, MAX_DEPTH - depth - 1);
    ReachedKept(v, r, eip, a, MAX_DEPTH - depth);
  }

  // --- Whole runs ---

  const EMPTY := State(map[], [])

  /** The lookups of a run, one for every block executed. */
  ghost function Run(compile: Compiler, s: State, eips: seq<nat>): State
    decreases |eips|
  {
    if eips == [] then s else Run(compile, Visit(compile, s, eips[0], 0), eips[1..])
  }

  lemma VisitSettles(compile: Compiler, s: State, eip: nat)
    requires AllSettled(s)
    ensures AllSettled(Visit(compile, s, eip, 0))
  {
    hide Visit, Path, Within;
    VisitReaches(compile, s, eip, 0);
    var v := Visit(compile, s, eip, 0);
    forall a | a in v.blocks ensures Settled(v.blocks[a]) {
      assert a in s.blocks || Reached(v, eip, a, MAX_DEPTH);
    }
  }

  lemma KeepsItself(s: State)
    ensures Keeps(s, s)
  {
  }

  lemma KeptBlock(s: State, r: State, a: nat)
    requires Keeps(s, r) && a in s.blocks
    ensures a in r.blocks
  {
  }

  lemma KeepsThrough(s: State, v: State, r: State)
    requires Keeps(s, v) && Keeps(v, r)
    ensures Keeps(s, r)
  {
  }

  /** Along every run: links lead to cached blocks, each block is linked wholly or not at all, what was
      compiled stays compiled the same, and no address is compiled twice. */
  lemma {:induction false} EveryRun(compile: Compiler, s: State, eips: seq<nat>)
    requires Sound(s) && Logged(s) && AllSettled(s)
    ensures var r := Run(compile, s, eips);
            Sound(r) && Logged(r) && AllSettled(r) && Keeps(s, r) && s.log <= r.log
    ensures forall i :: 0 <= i < |eips| ==> eips[i] in Run(compile, s, eips).blocks
    decreases |eips|
  {
    hide Visit, Sound, Logged, AllSettled, Keeps;
    if eips == [] {
      KeepsItself(s);
    } else {
      var v := Visit(compile, s, eips[0], 0);
      VisitIsSound(compile, s, eips[0], 0);
      VisitSettles(compile, s, eips[0]);
      EveryRun(compile, v, eips[1..]);
      KeepsThrough(s, v, Run(compile, s, eips));
      forall i | 0 <= i < |eips| ensures eips[i] in Run(compile, s, eips).blocks {
        if i > 0 {
          assert eips[i] == eips[1..][i - 1];
        } else {
          KeptBlock(v, Run(compile, s, eips), eips[0]);
        }
      }
    }
  }

  /** From the empty cache there are as many compilations as cached addresses, and each block is as it was compiled. */
  lemma RunFromEmpty(compile: Compiler, eips: seq<nat>)
    ensures var r := Run(compile, EMPTY, eips);
            && Sound(r) && Logged(r) && AllSettled(r) && |r.log| == |r.blocks|
    ensures var r := Run(compile, EMPTY, eips);
            forall i {:trigger r.log[i]} :: 0 <= i < |r.log| ==>
              r.log[i] in r.blocks && r.blocks[r.log[i]].targets == compile(i, r.log[i])
  {
    RunIsAsCompiled(compile, EMPTY, eips);
    EveryRun(compile, EMPTY, eips);
    LogCounts(Run(compile, EMPTY, eips).log, Run(compile, EMPTY, eips).blocks.Keys);
  }

  /** A sequence without repetition has as many elements as their set. */
  lemma {:induction false} LogCounts(log: seq<nat>, keys: set<nat>)
    requires forall i, j :: 0 <= i < j < |log| ==> log[i] != log[j]
    requires forall a :: a in log <==> a in keys
    ensures |log| == |keys|
  {
    if log == [] {
      assert keys == {};
    } else {
      var last := log[|log| - 1];
      assert last in keys;
      LogCounts(log[..|log| - 1], keys - {last});
    }
  }

  // --- What is cached is what was compiled ---

  /** The block compiled as the `i`-th has the branches that were predicted for it then. */
  ghost predicate AsCompiled(compile: Compiler, s: State) {
    forall i {:trigger s.log[i]} :: 0 <= i < |s.log| ==>
      s.log[i] in s.blocks && s.blocks[s.log[i]].targets == compile(i, s.log[i])
  }

  lemma CompiledIsAsCompiled(compile: Compiler, s: State, eip: nat)
    requires Logged(s) && AsCompiled(compile, s) && eip !in s.blocks
    ensures AsCompiled(compile, Compiled(compile, s, eip))
  {
    LogCounts(s.log, s.blocks.Keys);
  }

  lemma LinkedIsAsCompiled(compile: Compiler, s: State, eip: nat, i: nat)
    requires AsCompiled(compile, s) && eip in s.blocks
    ensures AsCompiled(compile, Linked(s, eip, i))
  {
  }

  lemma VisitIsAsCompiled(compile: Compiler, s: State, eip: nat, depth: nat)
    requires depth <= MAX_DEPTH && Sound(s) && Logged(s) && AsCompiled(compile, s)
    ensures AsCompiled(compile, Visit(compile, s, eip, depth))
    decreases MAX_DEPTH - depth, 1, 0
  {
    if eip !in s.blocks {
      var c := Compiled(compile, s, eip);
      CompiledIsAsCompiled(compile, s, eip);
      CompiledIsSound(compile, s, eip);
      hide AsCompiled, Sound, Logged;
      if depth < MAX_DEPTH {
        FillIsAsCompiled(compile, c, eip, c.blocks[eip].targets, 0, depth);
      }
    }
  }

  lemma FillIsAsCompiled(compile: Compiler, s: State, eip: nat, targets: seq<nat>, i: nat, depth: nat)
    requires depth < MAX_DEPTH && i <= |targets| && Sound(s) && Logged(s) && AsCompiled(compile, s)
    requires eip in s.blocks && s.blocks[eip] == Entry(targets, i)
    ensures AsCompiled(compile, Fill(compile, s, eip, targets, i, depth))
    decreases MAX_DEPTH - depth, 0, |targets| - i
  {
    hide Sound, Logged, Visit, AsCompiled;
    if i < |targets| {
      var v := Visit(compile, s, targets[i], depth + 1);
      VisitIsSound(compile, s, targets[i], depth + 1);
      VisitIsAsCompiled(compile, s, targets[i], depth + 1);
      assert v.blocks[eip] == s.blocks[eip];
      LinkIsSound(v, eip, i);
      LinkedIsAsCompiled(compile, v, eip, i);
      FillIsAsCompiled(compile, Linked(v, eip, i), eip, targets, i + 1, depth);
    }
  }

  /** Along every run each cached block keeps exactly the branches predicted when it was compiled. */
  lemma {:induction false} RunIsAsCompiled(compile: Compiler, s: State, eips: seq<nat>)
    requires Sound(s) && Logged(s) && AsCompiled(compile, s)
    ensures AsCompiled(compile, Run(compile, s, eips))
    decreases |eips|
  {
    hide Sound, Logged, Visit, AsCompiled;
    if eips != [] {
      VisitIsSound(compile, s, eips[0], 0);
      VisitIsAsCompiled(compile, s, eips[0], 0);
      RunIsAsCompiled(compile, Visit(compile, s, eips[0], 0), eips[1..]);
    }
  }

  ghost predicate AllLinked(s: State) {
    forall a {:trigger a in s.blocks} :: a in s.blocks ==> s.blocks[a].filled == |s.blocks[a].targets|
  }

  /** The depth limit is the only reason a prediction stays unlinked: where no path of MAX_DEPTH branches
      leads away from the requested block, its lookup links every block it compiles. */
  lemma ShallowGraphsAreLinked(compile: Compiler, s: State, eip: nat)
    requires AllLinked(s) && forall a :: !Path(Visit(compile, s, eip, 0), eip, a, MAX_DEPTH)
    ensures AllLinked(Visit(compile, s, eip, 0))
  {
    hide Visit, Path, Within;
    VisitReaches(compile, s, eip, 0);
    var v := Visit(compile, s, eip, 0);
    forall a | a in v.blocks ensures v.blocks[a].filled == |v.blocks[a].targets| {
      assert a in s.blocks || Reached(v, eip, a, MAX_DEPTH);
    }
  }

  // --- Which blocks stay unlinked ---

  /** The blocks that a lookup compiles at the depth limit of its recursion. */
  ghost function AtLimit(compile: Compiler, s: State, eip: nat, depth: nat): set<nat>
    requires depth <= MAX_DEPTH
    decreases MAX_DEPTH - depth, 1, 0
  {
    if eip in s.blocks then {}
    else if depth == MAX_DEPTH then {eip}
    else
      var c := Compiled(compile, s, eip);
      AtLimitFrom(compile, c, eip, c.blocks[eip].targets, 0, depth)
  }

  /** Those that the loop over the predictions compiles there, from the `i`-th on. */
  ghost function AtLimitFrom(compile: Compiler, s: State, eip: nat, targets: seq<nat>, i: nat, depth: nat): set<nat>
    requires depth < MAX_DEPTH && i <= |targets| && eip in s.blocks
    decreases MAX_DEPTH - depth, 0, |targets| - i
  {
    if i == |targets| then {}
    else
      var v := Visit(compile, s, targets[i], depth + 1);
      AtLimit(compile, s, targets[i], depth + 1) + AtLimitFrom(compile, Linked(v, eip, i), eip, targets, i + 1, depth)
  }

  /** Of the blocks new in `r`, those in `cut` have no link and all others have every link. */
  ghost predicate LinkedBut(s: State, r: State, cut: set<nat>) {
    && (forall a {:trigger a in r.blocks} :: a in r.blocks && a !in s.blocks ==>
          r.blocks[a].filled == if a in cut then 0 else |r.blocks[a].targets|)
    && (forall a {:trigger a in cut} :: a in cut ==> a in r.blocks && a !in s.blocks)
  }

  /** A lookup links all predictions of each block it compiles, except exactly of the blocks compiled at the limit. */
  lemma VisitLinksBut(compile: Compiler, s: State, eip: nat, depth: nat)
    requires depth <= MAX_DEPTH
    ensures LinkedBut(s, Visit(compile, s, eip, depth), AtLimit(compile, s, eip, depth))
    decreases MAX_DEPTH - depth, 1, 0
  {
    if eip !in s.blocks {
      var c := Compiled(compile, s, eip);
      if depth < MAX_DEPTH {
        FillLinksBut(compile, c, eip, c.blocks[eip].targets, 0, depth);
      }
    }
  }

  lemma FillLinksBut(compile: Compiler, s: State, eip: nat, targets: seq<nat>, i: nat, depth: nat)
    requires depth < MAX_DEPTH && i <= |targets| && eip in s.blocks && s.blocks[eip] == Entry(targets, i)
    ensures var r := Fill(compile, s, eip, targets, i, depth);
            && LinkedBut(s, r, AtLimitFrom(compile, s, eip, targets, i, depth))
            && r.blocks[eip] == Entry(targets, |targets|)
    decreases MAX_DEPTH - depth, 0, |targets| - i
  {
    hide Visit, AtLimit;
    if i < |targets| {
      var v := Visit(compile, s, targets[i], depth + 1);
      VisitLinksBut(compile, s, targets[i], depth + 1);
      assert v.blocks[eip] == s.blocks[eip];
      var l := Linked(v, eip, i);
      FillLinksBut(compile, l, eip, targets, i + 1, depth);
      LinkedKeeps(v, Fill(compile, l, eip, targets, i + 1, depth), eip, i);
      LinksTogether(s, v, l, Fill(compile, l, eip, targets, i + 1, depth), AtLimit(compile, s, targets[i], depth + 1),
                    AtLimitFrom(compile, l, eip, targets, i + 1, depth), eip);
    }
  }

  lemma LinksTogether(s: State, v: State, l: State, r: State, cut: set<nat>, cut': set<nat>, eip: nat)
    requires LinkedBut(s, v, cut) && LinkedBut(l, r, cut') && l.blocks.Keys == v.blocks.Keys && eip in s.blocks
    requires Keeps(s, v)
    requires forall a {:trigger a in v.blocks} ::
               a in v.blocks && a != eip ==> a in r.blocks && r.blocks[a] == v.blocks[a]
    requires eip in r.blocks
    ensures LinkedBut(s, r, cut + cut')
  {
    forall a | a in r.blocks && a !in s.blocks
      ensures r.blocks[a].filled == if a in cut + cut' then 0 else |r.blocks[a].targets|
    {
      assert a in v.blocks <==> a in l.blocks.Keys;
    }
    forall a | a in cut + cut' ensures a in r.blocks && a !in s.blocks {
      assert a in cut ==> a in v.blocks && a != eip;
      assert a in s.blocks ==> a in v.blocks && a in l.blocks.Keys;
    }
  }

  /** The blocks compiled at the limit in some lookup of a run. */
  ghost function CutOff(compile: Compiler, s: State, eips: seq<nat>): set<nat>
    decreases |eips|
  {
    if eips == [] then {}
    else AtLimit(compile, s, eips[0], 0) + CutOff(compile, Visit(compile, s, eips[0], 0), eips[1..])
  }

  /** After any run exactly the blocks that some lookup compiled at its depth limit are without links, for good. */
  lemma {:induction false} RunLinksBut(compile: Compiler, s: State, eips: seq<nat>)
    ensures LinkedBut(s, Run(compile, s, eips), CutOff(compile, s, eips)) && Keeps(s, Run(compile, s, eips))
    decreases |eips|
  {
    hide Visit, AtLimit;
    if eips != [] {
      var v := Visit(compile, s, eips[0], 0);
      VisitLinksBut(compile, s, eips[0], 0);
      RunLinksBut(compile, v, eips[1..]);
      RunsTogether(s, v, Run(compile, v, eips[1..]), AtLimit(compile, s, eips[0], 0), CutOff(compile, v, eips[1..]));
    }
  }

  lemma RunsTogether(s: State, v: State, r: State, cut: set<nat>, cut': set<nat>)
    requires LinkedBut(s, v, cut) && LinkedBut(v, r, cut') && Keeps(s, v) && Keeps(v, r)
    ensures LinkedBut(s, r, cut + cut') && Keeps(s, r)
  {
    forall a | a in r.blocks && a !in s.blocks
      ensures r.blocks[a].filled == if a in cut + cut' then 0 else |r.blocks[a].targets|
    {
      assert a in v.blocks || a !in v.blocks;
    }
    forall a | a in cut + cut' ensures a in r.blocks && a !in s.blocks {
      assert a in s.blocks ==> a in v.blocks;
    }
  }

  /** A program of blocks that each go on to the next. */
  function Successor(): Compiler { (_, a) => [a + 1] }

  /** From its start at 0, block MAX_DEPTH is compiled at the limit; and whatever runs later, the next block included,
      its prediction stays null. */
  lemma LimitStaysUnlinked(eips: seq<nat>)
    ensures var r := Run(Successor(), EMPTY, [0] + eips);
            && MAX_DEPTH in r.blocks && r.blocks[MAX_DEPTH] == Entry([MAX_DEPTH + 1], 0)
            && (MAX_DEPTH + 1 in eips ==> MAX_DEPTH + 1 in r.blocks)
  {
    hide Visit;
    SuccessorFrom(EMPTY, 0);
    assert ([0] + eips)[1..] == eips;
    RunLinksBut(Successor(), Visit(Successor(), EMPTY, 0, 0), eips);
    EveryRun(Successor(), EMPTY, [0] + eips);
    if MAX_DEPTH + 1 in eips {
      var i :| 0 <= i < |eips| && eips[i] == MAX_DEPTH + 1;
      assert ([0] + eips)[i + 1] == MAX_DEPTH + 1;
    }
  }

  lemma {:induction false} SuccessorFrom(s: State, depth: nat)
    requires depth <= MAX_DEPTH && forall a :: depth <= a ==> a !in s.blocks
    ensures var r := Visit(Successor(), s, depth, depth);
            MAX_DEPTH in r.blocks && r.blocks[MAX_DEPTH] == Entry([MAX_DEPTH + 1], 0)
    decreases MAX_DEPTH - depth
  {
    var c := Compiled(Successor(), s, depth);
    if depth < MAX_DEPTH {
      SuccessorFrom(c, depth + 1);
      assert c.blocks[depth].targets == [depth + 1];
      FillStep(Successor(), c, depth, [depth + 1], 0, depth);
      FillDone(Successor(), Linked(Visit(Successor(), c, depth + 1, depth + 1), depth, 0), depth, [depth + 1], depth);
    }
  }

  // --- The objects ---

  function Targets(predictions: seq<(nat, Block?)>): seq<nat> {
    seq(|predictions|, i requires 0 <= i < |predictions| => predictions[i].0)
  }

  class Block {
    const address: nat
    var predictions: seq<(nat, Block?)>
    ghost var filled: nat

    constructor (address: nat, targets: seq<nat>)
      ensures this.address == address && Targets(predictions) == targets && filled == 0
      ensures forall i :: 0 <= i < |predictions| ==> predictions[i].1 == null
    {
      this.address := address;
      predictions := [];
      filled := 0;
      new;
      for k := 0 to |targets|
        invariant |predictions| == k && filled == 0
        invariant forall i :: 0 <= i < k ==> predictions[i] == (targets[i], null)
      {
        predictions := predictions + [(targets[k], null)];
      }
    }

    /** The lookup made when this block has run: the linked block if the address was predicted and is
        linked, else an ordinary lookup. Its contract is that of the ordinary lookup. */
    method GetPredicted(jit: Jit, eip: nat) returns (block: Block)
      requires jit.Valid() && this in jit.cache.Values
      modifies jit
      ensures jit.Valid() && eip in jit.cache && block == jit.cache[eip]
      ensures jit.View() == Visit(jit.compile, old(jit.View()), eip, 0)
      ensures forall a :: a in old(jit.cache) ==> a in jit.cache && jit.cache[a] == old(jit.cache[a])
    {
      var i := 0;
      while i < |predictions|
        invariant i <= |predictions|
      {
        if predictions[i].0 == eip {
          if predictions[i].1 != null {
            assert jit.cache[address] == this;
            return predictions[i].1;
          }
          break;
        }
        i := i + 1;
      }
      block := jit.Get(eip);
    }
  }

  class Jit {
    const compile: Compiler
    var cache: map<nat, Block>
    ghost var log: seq<nat>

    lemma ViewCounts()
      ensures |View().blocks| == |cache|
    {
      assert View().blocks.Keys == cache.Keys;
    }

    lemma ViewHas(a: nat)
      ensures a in View().blocks <==> a in cache
      ensures a in cache ==> View().blocks[a] == Entry(Targets(cache[a].predictions), cache[a].filled)
    {
    }

    /** Linked predictions lead to the cached block of their address; the others are null. */
    ghost predicate BlockOk(a: nat)
      requires a in cache
      reads this, cache[a]
    {
      var b := cache[a];
      && b.address == a && b.filled <= |b.predictions|
      && forall i :: 0 <= i < |b.predictions| ==>
           if i < b.filled then b.predictions[i].0 in cache && b.predictions[i].1 == cache[b.predictions[i].0]
           else b.predictions[i].1 == null
    }

    ghost predicate Valid()
      reads this, cache.Values
    {
      forall a {:trigger a in cache} :: a in cache ==> BlockOk(a)
    }

    ghost function View(): State
      reads this, cache.Values
    {
      State(map a | a in cache :: Entry(Targets(cache[a].predictions), cache[a].filled), log)
    }

    constructor (compile: Compiler)
      ensures Valid() && View() == EMPTY && this.compile == compile
    {
      this.compile := compile;
      cache := map[];
      log := [];
    }

    method Compile(eip: nat) returns (block: Block)
      requires Valid() && eip !in cache
      modifies this
      ensures Valid() && View() == Compiled(compile, old(View()), eip)
      ensures fresh(block) && cache == old(cache)[eip := block]
    {
      ViewCounts();
      hide Valid, View;
      block := new Block(eip, compile(|cache|, eip));
      Enter(eip, block);
    }

    /** A new block is cached. */
    method Enter(eip: nat, block: Block)
      requires Valid() && eip !in cache && block !in cache.Values && block.address == eip && block.filled == 0
      requires forall i :: 0 <= i < |block.predictions| ==> block.predictions[i].1 == null
      modifies this
      ensures Valid() && cache == old(cache)[eip := block]
      ensures View() == State(old(View()).blocks[eip := Entry(Targets(block.predictions), 0)], old(View()).log + [eip])
    {
      ghost var before := View();
      cache := cache[eip := block];
      log := log + [eip];
      forall a | a in cache ensures BlockOk(a) {
        assert a == eip || (a in old(cache) && old(BlockOk(a)));
      }
      assert View().blocks == before.blocks[eip := Entry(Targets(block.predictions), 0)];
    }

    /** The prediction at index `i` of the cached block at `eip` is linked to a cached block. */
    method Link(block: Block, eip: nat, i: nat, target: Block)
      requires Valid() && eip in cache && cache[eip] == block && i == block.filled < |block.predictions|
      requires block.predictions[i].0 in cache && target == cache[block.predictions[i].0]
      modifies block
      ensures Valid() && View() == Linked(old(View()), eip, i)
      ensures block.filled == i + 1 && Targets(block.predictions) == old(Targets(block.predictions))
    {
      ghost var before := View();
      assert forall a :: a in cache && a != eip ==> BlockOk(a) && cache[a].address != eip;
      assert block.address == eip by { assert BlockOk(eip); }
      block.predictions := block.predictions[i := (block.predictions[i].0, target)];
      block.filled := i + 1;
      assert Targets(block.predictions) == old(Targets(block.predictions));
      assert forall a :: a in cache && a != eip ==> cache[a] != block;
      assert View().blocks == Linked(before, eip, i).blocks;
    }

    method Recur(eip: nat, depth: nat) returns (block: Block)
      requires Valid() && depth <= MAX_DEPTH
      modifies this
      ensures Valid() && eip in cache && block == cache[eip]
      ensures View() == Visit(compile, old(View()), eip, depth)
      ensures forall a :: a in old(cache) ==> a in cache && cache[a] == old(cache[a])
      ensures forall a :: a in cache && a !in old(cache) ==> fresh(cache[a])
      decreases MAX_DEPTH - depth, 1, 0
    {
      hide Fill, View, BlockOk, Targets;
      ViewHas(eip);
      if eip in cache {
        return cache[eip];
      }
      block := Compile(eip);
      ViewHas(eip);
      if depth < MAX_DEPTH {
        LinkAll(block, eip, depth);
      }
    }

    /** The loop over a new block's predictions. */
    method LinkAll(block: Block, eip: nat, depth: nat)
      requires Valid() && depth < MAX_DEPTH && eip in cache && block == cache[eip] && block.filled == 0
      modifies this, block
      ensures Valid() && eip in cache && block == cache[eip]
      ensures View() == Fill(compile, old(View()), eip, old(Targets(block.predictions)), 0, depth)
      ensures forall a :: a in old(cache) ==> a in cache && cache[a] == old(cache[a])
      ensures forall a :: a in cache && a !in old(cache) ==> fresh(cache[a])
      decreases MAX_DEPTH - depth, 0, 0
    {
      hide Visit, Fill, View, Linked, BlockOk;
      ViewHas(eip);
      ghost var s, targets := View(), Targets(block.predictions);
      var i := 0;
      while i < |block.predictions|
        invariant Valid() && eip in cache && cache[eip] == block
        invariant 0 <= i <= |block.predictions| && block.filled == i && Targets(block.predictions) == targets
        invariant eip in View().blocks && |targets| == |block.predictions|
        invariant Fill(compile, View(), eip, targets, i, depth) == Fill(compile, s, eip, targets, 0, depth)
        invariant forall a :: a in old(cache) ==> a in cache && cache[a] == old(cache[a])
        invariant forall a :: a in cache && a !in old(cache) ==> fresh(cache[a])
        decreases |targets| - i
      {
        ghost var v := View();
        var target := Recur(block.predictions[i].0, depth + 1);
        Link(block, eip, i, target);
        FillStep(compile, v, eip, targets, i, depth);
        i := i + 1;
      }
      FillDone(compile, View(), eip, targets, depth);
    }

    /** The ordinary lookup. */
    method Get(eip: nat) returns (block: Block)
      requires Valid()
      modifies this
      ensures Valid() && eip in cache && block == cache[eip]
      ensures View() == Visit(compile, old(View()), eip, 0)
      ensures forall a :: a in old(cache) ==> a in cache && cache[a] == old(cache[a])
    {
      block := Recur(eip, 0);
    }

    /** The lookup of the execution loop, with the block that ran last, if any. */
    method Next(last: Block?, eip: nat) returns (block: Block)
      requires Valid() && (last != null ==> last in cache.Values)
      modifies this
      ensures Valid() && eip in cache && block == cache[eip]
      ensures View() == Visit(compile, old(View()), eip, 0)
      ensures forall a :: a in old(cache) ==> a in cache && cache[a] == old(cache[a])
    {
      if last != null {
        block := last.GetPredicted(this, eip);
      } else {
        block := Get(eip);
      }
    }
  }
}
