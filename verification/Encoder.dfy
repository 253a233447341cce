/** `_encode` and its helpers, as interop.py runs them: every helper appends to one shared
  buffer.  A raised error is the returned `failed`; the buffer is then discarded. */
module Encoder {
  import opened Wrappers
  import opened Bytes
  import opened Utf8
  import opened Float64
  import opened PyObjects
  import opened EncoderMeaning
  import Mp = MsgPack

  class ByteArray {
    var data: seq<Byte>

    constructor ()
      ensures data == []
    {
      data := [];
    }

    method Append(b: Byte)
      modifies this
      ensures data == old(data) + [b]
    {
      data := data + [b];
    }

    method Extend(b: seq<Byte>)
      modifies this
      ensures data == old(data) + b
    {
      data := data + b;
    }
  }

  /** The buffer grew by exactly the specified bytes, or the specified error was raised. */
  ghost predicate Wrote(before: seq<Byte>, after: seq<Byte>, failed: Option<Error>, spec: Result<seq<Byte>>) {
    match spec
    case Ok(b) => failed == None && after == before + b
    case Err(e) => failed == Some(e)
  }

  method EncodeInt(n: int, out: ByteArray) returns (failed: Option<Error>)
    modifies out
    ensures Wrote(old(out.data), out.data, failed, EncodeHead(Mp.IntHead(n)))
    ensures failed.Some? ==> out.data == old(out.data)
  {
    if !(-0x8000_0000_0000_0000 <= n <= 0xFFFF_FFFF_FFFF_FFFF) {
      return Some(IntRange);
    }
    if 0 <= n <= 0x7F {
      out.Append(n);
    } else if -32 <= n < 0 {
      out.Append(n % 0x100);
    } else if n > 0 {
      if n <= 0xFF {
        out.Extend([0xCC] + BigEndian(n, 1));
      } else if n <= 0xFFFF {
        out.Extend([0xCD] + BigEndian(n, 2));
      } else if n <= 0xFFFF_FFFF {
        out.Extend([0xCE] + BigEndian(n, 4));
      } else {
        out.Extend([0xCF] + BigEndian(n, 8));
      }
    } else {
      EncodeNegative(n, out);
    }
    failed := None;
  }

  /** `n.to_bytes(k, "big", signed=True)` for negative n. */
  function SignedBigEndian(n: int, k: nat): seq<Byte>
    requires n < 0
  {
    var p := match k case 1 => 0x100 case 2 => 0x1_0000 case 4 => 0x1_0000_0000 case _ => 0x1_0000_0000_0000_0000;
    if n + p < 0 then [] else BigEndian(n + p, k)
  }

  /** The integers below -32. */
  method EncodeNegative(n: int, out: ByteArray)
    requires -0x8000_0000_0000_0000 <= n < -32
    modifies out
    ensures out.data == old(out.data) + Mp.WriteHead(Mp.IntHead(n))
  {
    if n >= -0x80 {
      out.Extend([0xD0] + SignedBigEndian(n, 1));
    } else if n >= -0x8000 {
      out.Extend([0xD1] + SignedBigEndian(n, 2));
    } else if n >= -0x8000_0000 {
      out.Extend([0xD2] + SignedBigEndian(n, 4));
    } else {
      out.Extend([0xD3] + SignedBigEndian(n, 8));
    }
  }

  method EncodeStr(s: Text, out: ByteArray) returns (failed: Option<Error>)
    modifies out
    ensures Wrote(old(out.data), out.data, failed, EncodeText(s))
    ensures failed.Some? ==> out.data == old(out.data)
  {
    if !WellFormed(s) {
      return Some(Surrogate);
    }
    var b := Utf8.Encode(s);
    var n := |b|;
    if n <= 31 {
      out.Append(0xA0 + n);
    } else if n <= 0xFF {
      out.Extend([0xD9] + BigEndian(n, 1));
    } else if n <= 0xFFFF {
      out.Extend([0xDA] + BigEndian(n, 2));
    } else if n <= 0xFFFF_FFFF {
      out.Extend([0xDB] + BigEndian(n, 4));
    } else {
      return Some(TooLong);
    }
    assert out.data == old(out.data) + Mp.WriteHead(Mp.StrHead(n));
    out.Extend(b);
    failed := None;
  }

  method EncodeBin(b: seq<Byte>, out: ByteArray) returns (failed: Option<Error>)
    modifies out
    ensures Wrote(old(out.data), out.data, failed, Then(EncodeHead(Mp.BinHead(|b|)), Ok(b)))
    ensures failed.Some? ==> out.data == old(out.data)
  {
    var n := |b|;
    if n <= 0xFF {
      out.Extend([0xC4] + BigEndian(n, 1));
    } else if n <= 0xFFFF {
      out.Extend([0xC5] + BigEndian(n, 2));
    } else if n <= 0xFFFF_FFFF {
      out.Extend([0xC6] + BigEndian(n, 4));
    } else {
      return Some(TooLong);
    }
    out.Extend(b);
    failed := None;
  }

  method EncodeArrayHeader(n: nat, out: ByteArray) returns (failed: Option<Error>)
    modifies out
    ensures Wrote(old(out.data), out.data, failed, EncodeHead(Mp.ArrayHead(n)))
    ensures failed.Some? ==> out.data == old(out.data)
  {
    if n <= 15 {
      out.Append(0x90 + n);
    } else if n <= 0xFFFF {
      out.Extend([0xDC] + BigEndian(n, 2));
    } else if n <= 0xFFFF_FFFF {
      out.Extend([0xDD] + BigEndian(n, 4));
    } else {
      return Some(TooLong);
    }
    failed := None;
  }

  method EncodeMapHeader(n: nat, out: ByteArray) returns (failed: Option<Error>)
    modifies out
    ensures Wrote(old(out.data), out.data, failed, EncodeHead(Mp.MapHead(n)))
    ensures failed.Some? ==> out.data == old(out.data)
  {
    if n <= 15 {
      out.Append(0x80 + n);
    } else if n <= 0xFFFF {
      out.Extend([0xDE] + BigEndian(n, 2));
    } else if n <= 0xFFFF_FFFF {
      out.Extend([0xDF] + BigEndian(n, 4));
    } else {
      return Some(TooLong);
    }
    failed := None;
  }

  /** `sorted(keys)`. */
  method SortKeys(s: set<Text>) returns (r: seq<Text>)
    ensures r == Sorted(s)
  {
    r := [];
    var rest := s;
    while rest != {}
      invariant rest <= s
      invariant Increasing(r)
      invariant forall x, y :: x in r && y in rest ==> LexLess(x, y)
      invariant forall x :: x in s <==> x in r || x in rest
      decreases |rest|
    {
      ghost var least := MinimumExists(rest);
      var m :| m in rest && IsMinimum(m, rest);
      forall y | y in rest - {m} ensures LexLess(m, y) {
        assert IsMinimum(m, rest);
        assert y in rest;
        assert LexLeq(m, y);
      }
      assert forall x :: x in r + [m] <==> x in r || x == m;
      r := r + [m];
      rest := rest - {m};
    }
    IncreasingUnique(r, Sorted(s));
  }

  // An error met on a prefix is the error of the whole.

  lemma {:induction false} ItemsFail(v: Py, i: nat, n: nat, collapse: bool)
    requires v.PyList? || v.PyTuple?
    requires i <= n <= |v.items| && EncodeItems(v, i, collapse).Err?
    ensures EncodeItems(v, n, collapse) == EncodeItems(v, i, collapse)
    decreases n
  {
    hide EncodeValue;
    if i < n { ItemsFail(v, i, n - 1, collapse); }
  }

  method Encode(v: Py, out: ByteArray, collapse: bool) returns (failed: Option<Error>)
    modifies out
    ensures Wrote(old(out.data), out.data, failed, EncodeValue(v, collapse))
    decreases v, 2
  {
    hide Mp.WriteHead, EncodeText, EncodeItems, EncodeEntries, EncodeHead;
    failed := None;
    match v
    case PyNone =>
      out.Append(0xC0);
    case PyBool(b) =>
      out.Append(if b then 0xC3 else 0xC2);
    case PyInt(n) =>
      failed := EncodeInt(n, out);
    case PyFloat(bits) =>
      failed := EncodeFloat(bits, out, collapse);
    case PyStr(s) =>
      failed := EncodeStr(s, out);
    case PyBytes(bytes) =>
      failed := EncodeBin(bytes, out);
    case PreEncoded(elements) =>
      failed := EncodeElements(elements, out);
    case PyList(items) =>
      failed := EncodeSequence(v, out, collapse);
    case PyTuple(items) =>
      failed := EncodeSequence(v, out, collapse);
    case PyDict(entries) =>
      failed := EncodeDict(v, out, collapse);
    case _ =>
      failed := Some(BadType);
  }

  method EncodeFloat(bits: Bits, out: ByteArray, collapse: bool) returns (failed: Option<Error>)
    modifies out
    ensures Wrote(old(out.data), out.data, failed, EncodeValue(PyFloat(bits), collapse))
  {
    if !Finite(bits) {
      return Some(NotFinite);
    }
    if collapse && IsInteger(bits) && -0x8000_0000_0000_0000 <= ToInt(bits) < 0x1_0000_0000_0000_0000 {
      failed := EncodeInt(ToInt(bits), out);
    } else {
      out.Extend([0xCB] + BigEndian(bits, 8));
      failed := None;
    }
  }

  method EncodeElements(elements: seq<seq<Byte>>, out: ByteArray) returns (failed: Option<Error>)
    modifies out
    ensures Wrote(old(out.data), out.data, failed, EncodeValue(PreEncoded(elements), true))
  {
    hide Mp.WriteHead;
    failed := EncodeArrayHeader(|elements|, out);
    if failed.Some? { return; }
    ghost var start := out.data;
    for i := 0 to |elements|
      invariant out.data == start + Concat(elements[..i])
    {
      assert elements[..i + 1][..i] == elements[..i];
      out.Extend(elements[i]);
    }
    assert elements[..|elements|] == elements;
  }

  lemma Associate(a: seq<Byte>, b: seq<Byte>, c: seq<Byte>)
    ensures a + b + c == a + (b + c)
  {
  }

  lemma {:induction false} SequenceSpec(v: Py, collapse: bool)
    requires v.PyList? || v.PyTuple?
    ensures EncodeValue(v, collapse) == Then(EncodeHead(Mp.ArrayHead(|v.items|)), EncodeItems(v, |v.items|, collapse))
  {
    hide EncodeItems;
  }

  method EncodeSequence(v: Py, out: ByteArray, collapse: bool) returns (failed: Option<Error>)
    requires v.PyList? || v.PyTuple?
    modifies out
    ensures Wrote(old(out.data), out.data, failed, EncodeValue(v, collapse))
    decreases v, 0
  {
    hide Mp.WriteHead, EncodeValue;
    SequenceSpec(v, collapse);
    failed := EncodeArrayHeader(|v.items|, out);
    if failed.Some? { return; }
    ghost var start := out.data;
    for i := 0 to |v.items|
      invariant failed.None? && EncodeItems(v, i, collapse).Ok?
      invariant out.data == start + EncodeItems(v, i, collapse).value
    {
      failed := Encode(v.items[i], out, collapse);
      if failed.Some? {
        ItemsFail(v, i + 1, |v.items|, collapse);
        return;
      }
      assert EncodeItems(v, i + 1, collapse).Ok?;
    }
    Associate(old(out.data), Mp.WriteHead(Mp.ArrayHead(|v.items|)), EncodeItems(v, |v.items|, collapse).value);
  }

  ghost function EntryBytes(v: Py, k: Text, collapse: bool): Result<seq<Byte>>
    requires v.PyDict? && k in Names(v.entries)
  {
    Then(EncodeText(k), EncodeValue(v.entries[Find(v.entries, k)].value, collapse))
  }

  method EncodeEntry(v: Py, k: Text, out: ByteArray, collapse: bool) returns (failed: Option<Error>)
    requires v.PyDict? && k in Names(v.entries)
    modifies out
    ensures Wrote(old(out.data), out.data, failed, EntryBytes(v, k, collapse))
    decreases v, 0, 0
  {
    hide EncodeText, EncodeValue, Names;
    failed := EncodeStr(k, out);
    if failed.None? {
      failed := Encode(v.entries[Find(v.entries, k)].value, out, collapse);
    }
  }

  ghost function EntriesUpTo(v: Py, ks: seq<Text>, i: nat, collapse: bool): Result<seq<Byte>>
    requires v.PyDict? && i <= |ks| && forall k :: k in ks ==> k in Names(v.entries)
  {
    EncodeEntries(v, ks[..i], collapse)
  }

  lemma {:induction false} EntriesStep(v: Py, ks: seq<Text>, i: nat, collapse: bool)
    requires v.PyDict? && i <= |ks| && forall k :: k in ks ==> k in Names(v.entries)
    ensures EntriesUpTo(v, ks, 0, collapse) == Ok([])
    ensures EntriesUpTo(v, ks, |ks|, collapse) == EncodeEntries(v, ks, collapse)
    ensures i < |ks| ==>
      (ks[i] in ks &&
       EntriesUpTo(v, ks, i + 1, collapse) == Then(EntriesUpTo(v, ks, i, collapse), EntryBytes(v, ks[i], collapse)))
  {
    hide EncodeValue, EncodeText;
    assert ks[..|ks|] == ks;
    if i < |ks| { assert ks[..i + 1][..i] == ks[..i]; }
  }

  lemma {:induction false} EntriesFail(v: Py, ks: seq<Text>, i: nat, collapse: bool)
    requires v.PyDict? && (forall k :: k in ks ==> k in Names(v.entries))
    requires i <= |ks| && EntriesUpTo(v, ks, i, collapse).Err?
    ensures EncodeEntries(v, ks, collapse) == EntriesUpTo(v, ks, i, collapse)
    decreases |ks| - i
  {
    hide EntriesUpTo, EncodeEntries;
    EntriesStep(v, ks, i, collapse);
    if i < |ks| {
      EntriesFail(v, ks, i + 1, collapse);
    }
  }

  /** The loop over the sorted keys. */
  method EncodeSortedEntries(v: Py, ks: seq<Text>, out: ByteArray, collapse: bool) returns (failed: Option<Error>)
    requires v.PyDict? && forall k :: k in ks ==> k in Names(v.entries)
    modifies out
    ensures Wrote(old(out.data), out.data, failed, EncodeEntries(v, ks, collapse))
    decreases v, 0, 1
  {
    hide EntriesUpTo, EncodeEntries, EntryBytes, Names;
    failed := None;
    EntriesStep(v, ks, 0, collapse);
    for i := 0 to |ks|
      invariant failed.None? && EntriesUpTo(v, ks, i, collapse).Ok?
      invariant out.data == old(out.data) + EntriesUpTo(v, ks, i, collapse).value
    {
      EntriesStep(v, ks, i, collapse);
      failed := EncodeEntry(v, ks[i], out, collapse);
      if failed.Some? {
        EntriesFail(v, ks, i + 1, collapse);
        return;
      }
    }
  }

  method EncodeDict(v: Py, out: ByteArray, collapse: bool) returns (failed: Option<Error>)
    requires v.PyDict?
    modifies out
    ensures Wrote(old(out.data), out.data, failed, EncodeValue(v, collapse))
    decreases v, 1
  {
    hide Mp.WriteHead, EncodeEntries, EncodeValue, Names;
    DictMeaning(v, collapse);
    for i := 0 to |v.entries|
      invariant forall j :: 0 <= j < i ==> v.entries[j].key.Name?
      invariant out.data == old(out.data)
    {
      if v.entries[i].key.NotStr? {
        return Some(KeyNotStr);
      }
    }
    var ks := SortKeys(Names(v.entries));
    failed := EncodeMapHeader(|ks|, out);
    if failed.Some? { return; }
    failed := EncodeSortedEntries(v, ks, out, collapse);
    if failed.None? {
      Associate(old(out.data), Mp.WriteHead(Mp.MapHead(|ks|)), EncodeEntries(v, ks, collapse).value);
    }
  }

  method EncodeCanonical(v: Py, collapse: bool) returns (r: Result<seq<Byte>>)
    ensures r == EncodeValue(v, collapse)
  {
    hide EncodeValue;
    var out := new ByteArray();
    var failed := Encode(v, out, collapse);
    assert forall b: seq<Byte> :: [] + b == b;
    r := if failed.Some? then Err(failed.value) else Ok(out.data);
  }
}
