/** The canonical bytes of arrays and maps, member by member. */
module CanonicalBytes {
  import opened Bytes
  import opened Utf8
  import opened DataModel
  import opened CanonicalForm
  import opened ShortestForm
  import Mp = MsgPack

  ghost predicate AllSendable(ds: seq<Data>) {
    forall i :: 0 <= i < |ds| ==> Sendable(ds[i])
  }

  ghost function CanonicalAll(ds: seq<Data>): seq<Byte>
    requires AllSendable(ds)
  {
    if ds == [] then [] else CanonicalAll(ds[..|ds| - 1]) + Canonical(ds[|ds| - 1])
  }

  ghost function CanonicalPairs(m: map<Key, Data>, ks: seq<Text>): seq<Byte>
    requires forall k :: k in ks ==> SendablePair(m, k)
  {
    if ks == [] then []
    else
      var k := ks[|ks| - 1];
      assert k in ks && SendablePair(m, k);
      CanonicalPairs(m, ks[..|ks| - 1]) + (KeyBytes(k) + Canonical(m[StrKey(k)]))
  }

  lemma {:induction false} WriteItems(d: Data, n: nat)
    requires d.Array? && Sendable(d) && n <= |d.items|
    ensures AllSendable(d.items[..n]) && Mp.AllWritable(DocItems(d, n))
    ensures Mp.WriteAll(DocItems(d, n)) == CanonicalAll(d.items[..n])
  {
    hide Sendable, DocOf, Mp.Write, Mp.Writable;
    forall i | 0 <= i < |d.items| ensures Sendable(d.items[i]) { SendableItem(d, i); }
    ItemsWritable(d, n);
    if n > 0 {
      WriteItems(d, n - 1);
      DocWritable(d.items[n - 1]);
      WriteOne(DocOf(d.items[n - 1]));
      WriteAllAppend(DocItems(d, n - 1), [DocOf(d.items[n - 1])]);
      assert d.items[..n][..n - 1] == d.items[..n - 1];
    }
  }

  lemma {:induction false} CanonicalArray(ds: seq<Data>)
    requires AllSendable(ds) && |ds| < LIMIT
    ensures Sendable(Array(ds)) && Canonical(Array(ds)) == Mp.WriteHead(Mp.ArrayHead(|ds|)) + CanonicalAll(ds)
  {
    hide DocOf, DocItems, Mp.Write, Mp.WriteHead, Mp.Writable;
    var d := Array(ds);
    DocOfMany(d);
    DocWritable(d);
    WriteItems(d, |ds|);
    Mp.WrittenMany(DocItems(d, |ds|));
    assert ds[..|ds|] == ds;
  }

  lemma {:induction false} WritePairs(d: Data, ks: seq<Text>)
    requires d.Map? && Sendable(d) && forall k :: k in ks ==> StrKey(k) in d.m
    ensures (forall k :: k in ks ==> SendablePair(d.m, k)) && Mp.AllWritable(Flat(d, ks))
    ensures Mp.WriteAll(Flat(d, ks)) == CanonicalPairs(d.m, ks)
  {
    hide Sendable, SendableText, DocOf, Mp.Write, Mp.Writable;
    forall k | k in ks ensures SendablePair(d.m, k) { SendablePairOf(d, k); }
    FlatWritable(d, ks);
    if ks != [] {
      var k := ks[|ks| - 1];
      assert k in ks && SendablePair(d.m, k);
      WritePairs(d, ks[..|ks| - 1]);
      FlatWritable(d, ks[..|ks| - 1]);
      PairBytes(d, ks[..|ks| - 1], k);
      assert ks == ks[..|ks| - 1] + [k];
    }
  }

  lemma {:induction false} PairBytes(d: Data, init: seq<Text>, k: Text)
    requires d.Map? && Sendable(d) && (forall j :: j in init + [k] ==> StrKey(j) in d.m) && SendablePair(d.m, k)
    requires Mp.AllWritable(Flat(d, init)) && Mp.AllWritable(Flat(d, init + [k]))
    ensures Mp.WriteAll(Flat(d, init + [k])) ==
            Mp.WriteAll(Flat(d, init)) + (KeyBytes(k) + Canonical(d.m[StrKey(k)]))
  {
    hide Sendable, Encode, DocOf, Mp.Write, Mp.Writable;
    var key, val := Mp.Str(Encode(k)), DocOf(d.m[StrKey(k)]);
    KeyWritable(k);
    DocWritable(d.m[StrKey(k)]);
    WriteOne(key);
    WriteOne(val);
    WriteAllAppend([key], [val]);
    WriteAllAppend(Flat(d, init), [key] + [val]);
    assert (init + [k])[..|init|] == init;
    assert Flat(d, init + [k]) == Flat(d, init) + ([key] + [val]);
  }

  lemma {:induction false} SendablePairOf(d: Data, k: Text)
    requires d.Map? && Sendable(d) && StrKey(k) in d.m
    ensures SendablePair(d.m, k)
  {
  }

  lemma {:induction false} CanonicalMap(d: Data)
    requires d.Map? && Sendable(d)
    ensures var ks := SortedKeys(d.m);
            && (forall k :: k in ks ==> SendablePair(d.m, k))
            && Mp.WritableHead(Mp.MapHead(|ks|))
            && Canonical(d) == Mp.WriteHead(Mp.MapHead(|ks|)) + CanonicalPairs(d.m, ks)
  {
    hide DocOf, Flat, Mp.Write, Mp.WriteHead, Mp.Writable, SendablePair;
    var ks := SortedKeys(d.m);
    DocOfMany(d);
    DocWritable(d);
    WritePairs(d, ks);
    Mp.WrittenMany(Flat(d, ks));
  }

  lemma {:induction false} KeyBytesOf(k: Text)
    requires SendableText(k)
    ensures KeyBytes(k) == Mp.WriteHead(Mp.StrHead(|Encode(k)|)) + Encode(k)
  {
    hide Encode, Mp.WriteHead;
    KeyWritable(k);
    var doc := Mp.Str(Encode(k));
    assert Mp.HeadOfDoc(doc) == Mp.StrHead(|Encode(k)|) && Mp.Payload(doc) == Encode(k);
  }
}
