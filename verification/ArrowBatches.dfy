/** Splitting a table into record batches of bounded size: a binary search for the longest slice
  that fits, inside a greedy partition. */
module ArrowBatches {

  const TARGET_BATCH_BYTES := 8 * 1024 * 1024

  /** A zero-copy slice of the table. */
  datatype Slice = Slice(offset: nat, rows: nat)

  function End(b: Slice): nat {
    b.offset + b.rows
  }

  /** Bytes of a slice do not shrink when the slice grows: `nbytes` is monotone under inclusion. */
  ghost predicate Monotone(nbytes: Slice -> nat, total: nat) {
    forall a: Slice, b: Slice :: a.offset <= b.offset && End(b) <= End(a) <= total ==> nbytes(b) <= nbytes(a)
  }

  /** The batches are consecutive, non-empty and cover the rows 0 to total. */
  ghost predicate Covers(batches: seq<Slice>, total: nat) {
    if batches == [] then total == 0
    else
      var last := batches[|batches| - 1];
      last.rows >= 1 && End(last) == total && Covers(batches[..|batches| - 1], last.offset)
  }

  /** Every batch meets the target or is a single row, which cannot be split. */
  ghost predicate Fit(nbytes: Slice -> nat, batches: seq<Slice>) {
    forall i :: 0 <= i < |batches| ==> nbytes(batches[i]) <= TARGET_BATCH_BYTES || batches[i].rows == 1
  }

  /** No batch could take one more row. */
  ghost predicate Longest(nbytes: Slice -> nat, batches: seq<Slice>, total: nat) {
    forall i :: 0 <= i < |batches| && End(batches[i]) < total ==>
      nbytes(Slice(batches[i].offset, batches[i].rows + 1)) > TARGET_BATCH_BYTES
  }

  /** One binary search: the longest slice from `offset` that fits, or one row. */
  method LongestFit(nbytes: Slice -> nat, offset: nat, total: nat) returns (rows: nat)
    requires offset < total
    ensures 1 <= rows <= total - offset
    ensures nbytes(Slice(offset, rows)) <= TARGET_BATCH_BYTES || rows == 1
    ensures Monotone(nbytes, total) && rows < total - offset ==> nbytes(Slice(offset, rows + 1)) > TARGET_BATCH_BYTES
  {
    var lo, hi := 2, total - offset;
    rows := 1;
    while lo <= hi
      invariant lo == rows + 1 && 1 <= rows <= total - offset && hi <= total - offset && hi >= rows
      invariant nbytes(Slice(offset, rows)) <= TARGET_BATCH_BYTES || rows == 1
      invariant Monotone(nbytes, total) ==>
                  forall r :: hi < r <= total - offset ==> nbytes(Slice(offset, r)) > TARGET_BATCH_BYTES
    {
      var mid := (lo + hi) / 2;
      if nbytes(Slice(offset, mid)) <= TARGET_BATCH_BYTES {
        rows, lo := mid, mid + 1;
      } else {
        hi := mid - 1;
      }
    }
  }

  /** `_write_bounded_batches`; `batches` lists the slices given to `write_table`, in order. */
  method WriteBoundedBatches(nbytes: Slice -> nat, total: nat) returns (batches: seq<Slice>)
    ensures Covers(batches, total) && Fit(nbytes, batches)
    ensures Monotone(nbytes, total) ==> Longest(nbytes, batches, total)
  {
    hide Monotone, Covers;
    CoversNothing();
    batches := [];
    var offset := 0;
    while offset < total
      invariant offset <= total && Covers(batches, offset) && Fit(nbytes, batches)
      invariant Monotone(nbytes, total) ==>
                  forall i :: 0 <= i < |batches| && End(batches[i]) < total ==>
                    nbytes(Slice(batches[i].offset, batches[i].rows + 1)) > TARGET_BATCH_BYTES
    {
      var rows := LongestFit(nbytes, offset, total);
      CoversMore(batches, offset, rows);
      batches := batches + [Slice(offset, rows)];
      offset := offset + rows;
    }
  }

  lemma CoversNothing()
    ensures Covers([], 0)
  {
  }

  lemma CoversMore(batches: seq<Slice>, offset: nat, rows: nat)
    requires Covers(batches, offset) && rows >= 1
    ensures Covers(batches + [Slice(offset, rows)], offset + rows)
  {
    assert (batches + [Slice(offset, rows)])[..|batches|] == batches;
  }

  // ---------- the rows, in order ----------

  /** What the reader of the batches gets back. */
  ghost function Joined<T>(rows: seq<T>, batches: seq<Slice>, total: nat): seq<T>
    requires Covers(batches, total) && total <= |rows|
  {
    if batches == [] then []
    else
      var last := batches[|batches| - 1];
      Joined(rows, batches[..|batches| - 1], last.offset) + rows[last.offset..End(last)]
  }

  /** Every row is written once, in order. */
  lemma {:induction false} RowsKept<T>(rows: seq<T>, batches: seq<Slice>, total: nat)
    requires Covers(batches, total) && total <= |rows|
    ensures Joined(rows, batches, total) == rows[..total]
  {
    if batches != [] {
      RowsKept(rows, batches[..|batches| - 1], batches[|batches| - 1].offset);
    }
  }

  // ---------- fewest batches ----------

  /** Where batch i starts, or where the last one ends. */
  function Start(batches: seq<Slice>, i: nat, total: nat): nat {
    if i < |batches| then batches[i].offset else total
  }

  lemma {:induction false} Consecutive(batches: seq<Slice>, total: nat, i: nat)
    requires Covers(batches, total) && i <= |batches|
    ensures Covers(batches[..i], Start(batches, i, total)) && Start(batches, i, total) <= total
    ensures i < |batches| ==> Start(batches, i, total) < total
    ensures i > 0 ==> batches[i - 1].rows >= 1 && End(batches[i - 1]) == Start(batches, i, total)
    decreases |batches|
  {
    if i == |batches| {
      assert batches[..i] == batches;
    } else {
      var n := |batches| - 1;
      Consecutive(batches[..n], batches[n].offset, i);
      assert batches[..n][..i] == batches[..i];
    }
  }

  /** The greedy partition stays ahead of any other. */
  lemma {:induction false} StaysAhead(nbytes: Slice -> nat, total: nat, greedy: seq<Slice>, other: seq<Slice>, i: nat)
    requires Monotone(nbytes, total) && Covers(greedy, total) && Longest(nbytes, greedy, total)
    requires Covers(other, total) && Fit(nbytes, other)
    requires i <= |greedy| && i <= |other|
    ensures Start(greedy, i, total) >= Start(other, i, total)
  {
    hide Covers;
    Consecutive(greedy, total, i);
    Consecutive(other, total, i);
    if i > 0 {
      StaysAhead(nbytes, total, greedy, other, i - 1);
      var g, o := greedy[i - 1], other[i - 1];
      var longer := Slice(g.offset, g.rows + 1);
      assert End(g) < End(o) ==> nbytes(longer) <= nbytes(o) && o.rows > 1;
    } else {
      OnlyEmpty(greedy, Start(greedy, 0, total));
      OnlyEmpty(other, Start(other, 0, total));
    }
  }

  lemma OnlyEmpty(batches: seq<Slice>, start: nat)
    requires Covers(batches[..0], start)
    ensures start == 0
  {
  }

  /** No contiguous partition into batches that fit has fewer of them. */
  lemma Fewest(nbytes: Slice -> nat, total: nat, greedy: seq<Slice>, other: seq<Slice>)
    requires Monotone(nbytes, total) && Covers(greedy, total) && Longest(nbytes, greedy, total)
    requires Covers(other, total) && Fit(nbytes, other)
    ensures |greedy| <= |other|
  {
    hide Monotone, Longest, Fit, Covers;
    if |greedy| > |other| {
      StaysAhead(nbytes, total, greedy, other, |other|);
      Consecutive(greedy, total, |other|);
      assert false;
    }
  }

  /** The partition is determined: nothing else covers the rows, fits and is as long as possible. */
  lemma Determined(nbytes: Slice -> nat, total: nat, a: seq<Slice>, b: seq<Slice>)
    requires Monotone(nbytes, total) && Covers(a, total) && Covers(b, total)
    requires Fit(nbytes, a) && Fit(nbytes, b) && Longest(nbytes, a, total) && Longest(nbytes, b, total)
    ensures a == b
  {
    hide Monotone, Longest, Fit, Covers;
    Fewest(nbytes, total, a, b);
    Fewest(nbytes, total, b, a);
    forall i | 0 <= i < |a| ensures a[i] == b[i] {
      SameStart(nbytes, total, a, b, i);
      SameStart(nbytes, total, a, b, i + 1);
      Consecutive(a, total, i + 1);
      Consecutive(b, total, i + 1);
    }
  }

  lemma SameStart(nbytes: Slice -> nat, total: nat, a: seq<Slice>, b: seq<Slice>, i: nat)
    requires Monotone(nbytes, total) && Covers(a, total) && Covers(b, total)
    requires Fit(nbytes, a) && Fit(nbytes, b) && Longest(nbytes, a, total) && Longest(nbytes, b, total)
    requires i <= |a| && i <= |b|
    ensures Start(a, i, total) == Start(b, i, total)
  {
    hide Monotone, Longest, Fit, Covers;
    StaysAhead(nbytes, total, a, b, i);
    StaysAhead(nbytes, total, b, a, i);
  }
}
