/** Guest memory as bytes, little-endian accesses, and the log of overwritten values that the
    JIT's self-check rolls back (src/uwin-jit/basic_block.cpp). */
module GuestMemory {
  type byte = x: int | 0 <= x < 256

  /** A host store of consecutive bytes. */
  function Store(m: seq<byte>, a: nat, data: seq<byte>): (n: seq<byte>)
    requires a + |data| <= |m|
    ensures |n| == |m|
  {
    m[..a] + data + m[a + |data|..]
  }

  /** The `n` low bytes of `v`, least significant first. */
  function LittleEndian(n: nat, v: nat): (b: seq<byte>)
    ensures |b| == n
  {
    if n == 0 then [] else [v % 256] + LittleEndian(n - 1, v / 256)
  }

  function Value(b: seq<byte>): nat {
    if b == [] then 0 else b[0] + 256 * Value(b[1..])
  }

  /** The shift `<< j` that puts byte `i` of a little-endian value in its place. */
  function Weight(i: nat): nat {
    if i == 0 then 1 else 256 * Weight(i - 1)
  }

  lemma {:induction false} ValueSnoc(b: seq<byte>, x: byte)
    ensures Value(b + [x]) == Value(b) + Weight(|b|) * x
  {
    if b == [] {
      assert b + [x] == [x];
    } else {
      ValueSnoc(b[1..], x);
      assert (b + [x])[1..] == b[1..] + [x];
      assert 256 * (Weight(|b| - 1) * x) == Weight(|b|) * x;
    }
  }

  lemma {:induction false} ReadBack(b: seq<byte>)
    ensures LittleEndian(|b|, Value(b)) == b
  {
    if b != [] {
      ReadBack(b[1..]);
      assert Value(b) / 256 == Value(b[1..]) && Value(b) % 256 == b[0];
    }
  }

  lemma StoreOver(m: seq<byte>, a: nat, data: seq<byte>)
    requires a + |data| <= |m|
    ensures Store(Store(m, a, data), a, m[a..a + |data|]) == m
  {
  }

  /** One record of dirty_mem: address, width in bits, value before the write. */
  datatype Dirty = Dirty(addr: nat, size: nat, data: nat)

  predicate WellLogged(size: nat, log: seq<Dirty>) {
    forall d | d in log :: d.size in {8, 16, 32} && d.addr + d.size / 8 <= size
  }

  /** Memory after writing the logged values back, newest first. */
  function Undo(m: seq<byte>, log: seq<Dirty>): (n: seq<byte>)
    requires WellLogged(|m|, log)
    ensures |n| == |m|
    decreases |log|
  {
    if log == [] then m
    else
      var d := log[|log| - 1];
      Undo(Store(m, d.addr, LittleEndian(d.size / 8, d.data)), log[..|log| - 1])
  }

  /** Logging the old value before a store leaves the memory that the log leads back to unchanged,
      whatever addresses and widths were logged before. */
  lemma LogThenStore(m: seq<byte>, log: seq<Dirty>, a: nat, data: seq<byte>)
    requires WellLogged(|m|, log) && a + |data| <= |m| && |data| in {1, 2, 4}
    ensures var log' := log + [Dirty(a, 8 * |data|, Value(m[a..a + |data|]))];
            WellLogged(|m|, log') && Undo(Store(m, a, data), log') == Undo(m, log)
  {
    var d := Dirty(a, 8 * |data|, Value(m[a..a + |data|]));
    ReadBack(m[a..a + |data|]);
    StoreOver(m, a, data);
    assert (log + [d])[..|log|] == log;
  }

  /** A record of the log holds the byte at `x`. */
  predicate InLog(log: seq<Dirty>, x: nat) {
    exists d :: d in log && d.addr <= x < d.addr + d.size / 8
  }

  /** The log restores a byte it holds whatever memory has there, and leaves every other byte. */
  lemma {:induction false} UndoAt(m: seq<byte>, n: seq<byte>, log: seq<Dirty>, x: nat)
    requires |m| == |n| && x < |m| && WellLogged(|m|, log)
    ensures if InLog(log, x) then Undo(m, log)[x] == Undo(n, log)[x] else Undo(m, log)[x] == m[x]
    decreases |log|
  {
    if log != [] {
      var k := |log| - 1;
      var d := log[k];
      var bytes := LittleEndian(d.size / 8, d.data);
      var m', n' := Store(m, d.addr, bytes), Store(n, d.addr, bytes);
      UndoAt(m', n', log[..k], x);
      if !InLog(log[..k], x) {
        UndoAt(n', m', log[..k], x);
        assert InLog(log, x) <==> d.addr <= x < d.addr + d.size / 8;
      }
    }
  }

  /** The bytes a store changes, or that the log does not hold. */
  predicate Remembered(m: seq<byte>, log: seq<Dirty>, a: nat, data: seq<byte>)
    requires a + |data| <= |m|
  {
    forall i :: 0 <= i < |data| ==> data[i] == m[a + i] || InLog(log, a + i)
  }

  lemma StoredAt(m: seq<byte>, a: nat, data: seq<byte>, x: nat)
    requires a + |data| <= |m| && x < |m|
    ensures Store(m, a, data)[x] == if a <= x < a + |data| then data[x - a] else m[x]
  {
  }

  lemma UnloggedByte(m: seq<byte>, log: seq<Dirty>, a: nat, data: seq<byte>, x: nat)
    requires WellLogged(|m|, log) && a + |data| <= |m| && x < |m|
    ensures Undo(Store(m, a, data), log)[x] == Undo(m, log)[x]
            <==> (a <= x < a + |data| ==> data[x - a] == m[x] || InLog(log, x))
  {
    var n := Store(m, a, data);
    StoredAt(m, a, data, x);
    UndoAt(m, n, log, x);
    UndoAt(n, m, log, x);
  }

  /** A store that is not logged leaves what the log leads back to unchanged if and only if every byte it
      changes is held by the log already. */
  lemma UnloggedStore(m: seq<byte>, log: seq<Dirty>, a: nat, data: seq<byte>)
    requires WellLogged(|m|, log) && a + |data| <= |m|
    ensures Undo(Store(m, a, data), log) == Undo(m, log) <==> Remembered(m, log, a, data)
  {
    var n := Store(m, a, data);
    hide Undo, Store, InLog;
    forall x | 0 <= x < |m|
      ensures Undo(n, log)[x] == Undo(m, log)[x]
              <==> (a <= x < a + |data| ==> data[x - a] == m[x] || InLog(log, x))
    {
      UnloggedByte(m, log, a, data, x);
    }
    if Undo(n, log) == Undo(m, log) {
      forall i | 0 <= i < |data| ensures data[i] == m[a + i] || InLog(log, a + i) {
        assert Undo(n, log)[a + i] == Undo(m, log)[a + i];
      }
    }
  }
}
