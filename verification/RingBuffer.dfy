/** The log ring buffer with one producer and one consumer.

  The sequential class is the code of `append` and `drain`.  The interleaved machine runs one
  call of each at a time, one step per read or write of a field the other thread writes. */
module RingBuffer {
  import opened Wrappers

  /** A log entry, by identity. */
  type Entry = int

  // ---------- circular arithmetic ----------

  /** The slot of an absolute position. */
  function Index(i: nat, size: nat): (k: nat)
    requires size > 0
    ensures k < size
  {
    i % size
  }

  /** Multiples of a size are at least a size apart. */
  lemma Laps(d: int, size: nat)
    ensures d >= 1 ==> d * size >= size
    ensures d <= 0 ==> d * size <= 0
  {
    if d >= 1 {
      assert (d - 1) * size >= 0;
    } else {
      assert -d * size >= 0;
    }
  }

  lemma Quotient(i: nat, size: nat) returns (q: nat)
    requires size > 0
    ensures i == q * size + Index(i, size)
  {
    q := i / size;
  }

  /** Positions less than a lap apart use different slots. */
  lemma IndexDistinct(i: nat, j: nat, size: nat)
    requires size > 0 && i < j < i + size
    ensures Index(i, size) != Index(j, size)
  {
    hide Index;
    var a := Quotient(i, size);
    var b := Quotient(j, size);
    if Index(i, size) == Index(j, size) {
      assert (b - a) * size == b * size - a * size;
      Laps(b - a, size);
    }
  }

  lemma IndexIs(q: nat, size: nat, r: nat)
    requires r < size
    ensures Index(q * size + r, size) == r
  {
    hide Index;
    var d := Quotient(q * size + r, size);
    assert (q - d) * size == q * size - d * size;
    Laps(q - d, size);
    Laps(d - q, size);
    assert (d - q) * size == -((q - d) * size);
  }

  lemma IndexNext(i: nat, size: nat)
    requires size > 0
    ensures Index(Index(i, size) + 1, size) == Index(i + 1, size)
  {
    hide Index;
    var q := Quotient(i, size);
    var r := Index(i, size);
    if r + 1 == size {
      assert i + 1 == (q + 1) * size;
      IndexIs(q + 1, size, 0);
      IndexIs(1, size, 0);
    } else {
      IndexIs(q, size, r + 1);
      IndexIs(0, size, r + 1);
    }
  }

  lemma OneLap(i: nat, size: nat)
    requires size > 0
    ensures Index(i + size, size) == Index(i, size)
  {
    hide Index;
    var q := Quotient(i, size);
    assert i + size == (q + 1) * size + Index(i, size);
    IndexIs(q + 1, size, Index(i, size));
  }

  // ---------- pending entries ----------

  /** The entries in the slots from `from` up to `to`, going round. */
  function Pending(buffer: seq<Option<Entry>>, from: nat, to: nat, fuel: nat): seq<Option<Entry>>
    requires |buffer| > 0
    decreases fuel
  {
    if from == to || fuel == 0 || from >= |buffer| then []
    else [buffer[from]] + Pending(buffer, Index(from + 1, |buffer|), to, fuel - 1)
  }

  function Wrap(s: seq<Entry>): (r: seq<Option<Entry>>)
    ensures |r| == |s|
  {
    if s == [] then [] else [Some(s[0])] + Wrap(s[1..])
  }

  /** Slots hold the accepted entries between two absolute positions. */
  ghost predicate Holds(buffer: seq<Option<Entry>>, accepted: seq<Entry>, lo: nat) {
    |buffer| > 0 && forall i :: lo <= i < |accepted| ==> buffer[Index(i, |buffer|)] == Some(accepted[i])
  }

  lemma {:induction false} PendingIs(buffer: seq<Option<Entry>>, accepted: seq<Entry>, lo: nat, fuel: nat)
    requires |buffer| > 0 && lo <= |accepted| && |accepted| - lo < |buffer| && |accepted| - lo <= fuel
    requires Holds(buffer, accepted, lo)
    ensures Pending(buffer, Index(lo, |buffer|), Index(|accepted|, |buffer|), fuel) == Wrap(accepted[lo..])
    decreases fuel
  {
    hide Index;
    if lo < |accepted| {
      IndexDistinct(lo, |accepted|, |buffer|);
      IndexNext(lo, |buffer|);
      PendingIs(buffer, accepted, lo + 1, fuel - 1);
      assert accepted[lo..][1..] == accepted[lo + 1..];
    }
  }

  /** A free slot after the accepted entries can take one more. */
  lemma HoldsAppend(b: seq<Option<Entry>>, c: seq<Option<Entry>>, accepted: seq<Entry>, lo: nat, entry: Entry)
    requires Holds(b, accepted, lo) && lo <= |accepted| < lo + |b|
    requires c == b[Index(|accepted|, |b|) := Some(entry)]
    ensures Holds(c, accepted + [entry], lo)
  {
    hide Index;
    forall i | lo <= i < |accepted| ensures c[Index(i, |c|)] == Some((accepted + [entry])[i]) {
      IndexDistinct(i, |accepted|, |b|);
    }
  }

  lemma HoldsAt(b: seq<Option<Entry>>, accepted: seq<Entry>, lo: nat)
    requires Holds(b, accepted, lo) && lo < |accepted|
    ensures b[Index(lo, |b|)] == Some(accepted[lo])
  {
    hide Index;
  }

  /** The oldest slot can be overwritten once its entry is out. */
  lemma HoldsRetire(b: seq<Option<Entry>>, c: seq<Option<Entry>>, accepted: seq<Entry>, lo: nat)
    requires Holds(b, accepted, lo) && lo < |accepted| < lo + |b| && |c| == |b|
    requires forall i :: 0 <= i < |b| && i != Index(lo, |b|) ==> c[i] == b[i]
    ensures Holds(c, accepted, lo + 1)
  {
    hide Index;
    forall i | lo + 1 <= i < |accepted| ensures c[Index(i, |c|)] == Some(accepted[i]) {
      IndexDistinct(lo, i, |b|);
    }
  }

  /** Room for one more is exactly the next write position not being the read position. */
  lemma FullTest(n: nat, lo: nat, size: nat)
    requires size > 0 && lo <= n < lo + size
    ensures Index(Index(n, size) + 1, size) == Index(lo, size) <==> n + 1 == lo + size
  {
    hide Index;
    IndexNext(n, size);
    if n + 1 == lo + size {
      OneLap(lo, size);
    } else if n + 1 < lo + size {
      IndexDistinct(lo, n + 1, size);
    }
  }

  /** The two indices are absolute positions `n` and `lo`, modulo the size. */
  ghost predicate Positions(writePos: nat, readPos: nat, n: nat, lo: nat, size: nat) {
    size > 0 && writePos == Index(n, size) && readPos == Index(lo, size)
  }

  /** With different indices something waits, and the read index can move on. */
  lemma NextPositions(writePos: nat, readPos: nat, n: nat, lo: nat, size: nat)
    requires size > 0 && lo <= n < lo + size && Positions(writePos, readPos, n, lo, size) && readPos != writePos
    ensures lo < n && readPos == Index(lo, size)
    ensures Positions(writePos, Index(readPos + 1, size), n, lo + 1, size)
  {
    hide Index;
    IndexNext(lo, size);
  }

  lemma HoldsCleared(b: seq<Option<Entry>>, accepted: seq<Entry>, lo: nat)
    requires Holds(b, accepted, lo) && lo < |accepted| < lo + |b|
    ensures Holds(b[Index(lo, |b|) := None], accepted, lo + 1)
  {
    hide Holds, Index;
    HoldsRetire(b, b[Index(lo, |b|) := None], accepted, lo);
  }

  // ---------- the sequential class ----------

  class LockFreeRingBuffer {
    const size: nat
    const buffer: array<Option<Entry>>
    var writePos: nat
    var readPos: nat

    ghost var accepted: seq<Entry>   // every entry append took
    ghost var retired: nat           // how many of them drain gave out

    ghost predicate Valid()
      reads this, buffer
    {
      && size > 0 && buffer.Length == size
      && retired <= |accepted| && |accepted| - retired < size
      && Positions(writePos, readPos, |accepted|, retired, size)
      && Holds(buffer[..], accepted, retired)
    }

    /** The entries waiting in the buffer, oldest first. */
    ghost function Contents(): seq<Entry>
      reads this, buffer
      requires Valid()
    {
      accepted[retired..]
    }

    constructor (size: nat)
      requires size > 0
      ensures Valid() && Contents() == [] && this.size == size && fresh(buffer)
    {
      this.size := size;
      buffer := new Option<Entry>[size](_ => None);
      writePos, readPos := 0, 0;
      accepted, retired := [], 0;
    }

    /** Takes the entry unless size - 1 entries are waiting. */
    method Append(entry: Entry) returns (ok: bool)
      requires Valid()
      modifies this, buffer
      ensures Valid()
      ensures ok == (|old(Contents())| < size - 1)
      ensures Contents() == if ok then old(Contents()) + [entry] else old(Contents())
    {
      hide Holds, Index;
      var pos := writePos;
      var nextPos := Index(pos + 1, size);
      FullTest(|accepted|, retired, size);
      if nextPos == readPos {
        return false;
      }
      IndexNext(|accepted|, size);
      HoldsAppend(buffer[..], buffer[..][pos := Some(entry)], accepted, retired, entry);
      buffer[pos] := Some(entry);
      assert buffer[..] == old(buffer[..])[pos := Some(entry)];
      writePos := nextPos;
      accepted := accepted + [entry];
      ok := true;
    }

    /** One turn of the drain loop. */
    method TakeOne() returns (entry: Option<Entry>)
      requires Valid() && readPos != writePos
      modifies this, buffer
      ensures Valid() && accepted == old(accepted) && retired == old(retired) + 1
      ensures retired <= |accepted| && entry == Some(accepted[retired - 1])
    {
      hide Holds, Positions, Index;
      NextPositions(writePos, readPos, |accepted|, retired, size);
      HoldsAt(buffer[..], accepted, retired);
      HoldsCleared(buffer[..], accepted, retired);
      entry := buffer[readPos];
      if entry.Some? {
        buffer[readPos] := None;
        assert buffer[..] == old(buffer[..])[readPos := None];
      }
      readPos := Index(readPos + 1, size);
      retired := retired + 1;
    }

    /** Gives out the oldest entries, at most `maxItems` of them, in order. */
    method Drain(maxItems: nat) returns (items: seq<Entry>)
      requires Valid()
      modifies this, buffer
      ensures Valid()
      ensures items + Contents() == old(Contents())
      ensures |items| == if maxItems < |old(Contents())| then maxItems else |old(Contents())|
    {
      hide Holds, Positions, Index;
      items := [];
      var count := 0;
      ghost var all, start := accepted, retired;
      while count < maxItems && readPos != writePos
        invariant Valid() && accepted == all && retired == start + count && count <= maxItems
        invariant items == all[start..retired]
        decreases |all| - retired
      {
        var entry := TakeOne();
        items := items + [entry.value];
        count := count + 1;
      }
      if readPos == writePos { PositionsMeet(); }
      assert all[start..retired] + all[retired..] == all[start..];
    }

    lemma PositionsMeet()
      requires Valid() && readPos == writePos
      ensures retired == |accepted|
    {
      hide Index;
      if |accepted| != retired { IndexDistinct(retired, |accepted|, size); }
    }
  }
}
