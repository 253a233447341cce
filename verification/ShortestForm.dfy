/** No MessagePack document of a value is shorter than its canonical one, whatever integer and
  length formats, key order and repeated keys it uses. */
module ShortestForm {
  import opened Wrappers
  import opened Bytes
  import opened Utf8
  import opened DataModel
  import opened CanonicalForm
  import opened Sets
  import Mp = MsgPack

  // ---------- sizes ----------

  lemma {:induction false} WriteAllAppend(a: seq<Mp.Doc>, b: seq<Mp.Doc>)
    requires Mp.AllWritable(a) && Mp.AllWritable(b)
    ensures Mp.AllWritable(a + b) && Mp.WriteAll(a + b) == Mp.WriteAll(a) + Mp.WriteAll(b)
  {
    hide Mp.Write, Mp.Writable;
    if a == [] {
      assert a + b == b;
    } else {
      WriteAllAppend(a[1..], b);
      assert (a + b)[1..] == a[1..] + b;
    }
  }

  lemma {:induction false} WriteOne(d: Mp.Doc)
    requires Mp.Writable(d)
    ensures Mp.AllWritable([d]) && Mp.WriteAll([d]) == Mp.Write(d)
  {
    hide Mp.Write, Mp.Writable;
    assert Mp.WriteAll([d]) == Mp.Write(d) + Mp.WriteAll([d][1..]);
  }

  lemma {:induction false} AppendPair(a: seq<Mp.Doc>, key: Mp.Doc, val: Mp.Doc)
    requires Mp.AllWritable(a) && Mp.Writable(key) && Mp.Writable(val)
    ensures Mp.AllWritable(a + [key, val])
    ensures |Mp.WriteAll(a + [key, val])| == |Mp.WriteAll(a)| + |Mp.Write(key)| + |Mp.Write(val)|
  {
    hide Mp.Writable, Mp.Write;
    WriteOne(key);
    WriteOne(val);
    WriteAllAppend([key], [val]);
    assert [key] + [val] == [key, val];
    WriteAllAppend(a, [key, val]);
  }

  lemma HeadMonotone(m: nat, n: nat)
    requires m <= n < LIMIT
    ensures |Mp.WriteHead(Mp.MapHead(m))| <= |Mp.WriteHead(Mp.MapHead(n))|
  {
  }

  ghost predicate SendablePair(m: map<Key, Data>, k: Text) {
    SendableText(k) && StrKey(k) in m && Sendable(m[StrKey(k)])
  }

  ghost function KeyBytes(k: Text): seq<Byte>
    requires SendableText(k)
  {
    Mp.Write(Mp.Str(Encode(k)))
  }

  ghost function PairSize(m: map<Key, Data>, k: Text): nat
    requires SendablePair(m, k)
  {
    |KeyBytes(k)| + |Canonical(m[StrKey(k)])|
  }

  /** The bytes the pairs of `ks` take. */
  ghost function Weight(m: map<Key, Data>, ks: set<Text>): nat
    requires forall k :: k in ks ==> SendablePair(m, k)
    decreases |ks|
  {
    if ks == {} then 0
    else
      var k := Pick(ks);
      PairSize(m, k) + Weight(m, ks - {k})
  }

  lemma {:induction false} WeightRemove(m: map<Key, Data>, ks: set<Text>, x: Text)
    requires x in ks && forall k :: k in ks ==> SendablePair(m, k)
    ensures Weight(m, ks) == PairSize(m, x) + Weight(m, ks - {x})
    decreases |ks|
  {
    hide PairSize, SendablePair;
    var k := Pick(ks);
    if k != x {
      WeightRemove(m, ks - {k}, x);
      WeightRemove(m, ks - {x}, k);
      assert ks - {k} - {x} == ks - {x} - {k};
    }
  }

  lemma {:induction false} WeightAgrees(m: map<Key, Data>, n: map<Key, Data>, ks: set<Text>)
    requires forall k :: k in ks ==> SendablePair(m, k) && StrKey(k) in n && n[StrKey(k)] == m[StrKey(k)]
    ensures forall k :: k in ks ==> SendablePair(n, k)
    ensures Weight(m, ks) == Weight(n, ks)
    decreases |ks|
  {
    hide Sendable, SendableText, KeyBytes, Canonical;
    if ks != {} {
      assert forall k :: k in ks - {Pick(ks)} ==> k in ks;
      WeightAgrees(m, n, ks - {Pick(ks)});
    }
  }

  lemma {:induction false} KeyWritable(k: Text)
    requires SendableText(k)
    ensures Mp.Writable(Mp.Str(Encode(k)))
  {
  }

  lemma {:induction false} SetSplit(ks: seq<Text>)
    requires Increasing(ks) && ks != []
    ensures var n := |ks| - 1;
            Increasing(ks[..n]) && ks[n] in ks && (set x | x in ks) - {ks[n]} == (set x | x in ks[..n])
  {
    var n := |ks| - 1;
    FreshKey(ks, n);
    assert ks == ks[..n] + [ks[n]];
  }

  lemma {:induction false} FlatSize(d: Data, ks: seq<Text>)
    requires d.Map? && Sendable(d) && Increasing(ks)
    requires forall k :: k in ks ==> StrKey(k) in d.m && SendablePair(d.m, k)
    ensures Mp.AllWritable(Flat(d, ks))
    ensures |Mp.WriteAll(Flat(d, ks))| == Weight(d.m, (set k | k in ks))
  {
    hide Sendable, Encode, Mp.Writable, Mp.Write, DocOf, Increasing;
    if ks != [] {
      var k := ks[|ks| - 1];
      assert k in ks && SendablePair(d.m, k);
      var init := ks[..|ks| - 1];
      SetSplit(ks);
      FlatSize(d, init);
      var key, val := Mp.Str(Encode(k)), DocOf(d.m[StrKey(k)]);
      KeyWritable(k);
      DocWritable(d.m[StrKey(k)]);
      AppendPair(Flat(d, init), key, val);
      WeightRemove(d.m, (set x | x in ks), k);
    }
  }

  // ---------- temporal values ----------

  /** No text that the reader's hook turns into `t` is shorter than `isoformat`'s, or has another tag. */
  ghost predicate Tight(t: Temporal, iso: Iso) {
    SendableText(iso.format(t)) ==>
      forall k: Kind, s: Text :: SendableText(s) && HookParse(iso, k, s) == Some(t) ==>
        k == t.kind && |Encode(iso.format(t))| <= |Encode(s)|
  }

  /** Every temporal value inside is tight. */
  ghost predicate AllTight(d: Data, iso: Iso) {
    match d
    case Moment(t) => Tight(t, iso)
    case Array(items) => forall i :: 0 <= i < |items| ==> AllTight(items[i], iso)
    case Map(m) => forall k :: k in m ==> AllTight(m[k], iso)
    case _ => true
  }

  /** What is stored for a value that a reader with `hook` is to give back. */
  ghost function Sent(d: Data, hook: Option<Iso>): Data {
    if hook.None? then d else Wire(d, hook.value)
  }

  ghost predicate SentTight(d: Data, hook: Option<Iso>) {
    hook.Some? ==> AllTight(d, hook.value)
  }

  lemma {:induction false} SentMany(d: Data, hook: Option<Iso>)
    ensures d.Array? ==> Sent(d, hook).Array? && |Sent(d, hook).items| == |d.items|
    ensures d.Array? ==> forall i :: 0 <= i < |d.items| ==> Sent(d, hook).items[i] == Sent(d.items[i], hook)
    ensures d.Map? ==> Sent(d, hook) == Map(SentMap(d.m, hook))
    ensures !d.Array? && !d.Map? && !d.Moment? ==> Sent(d, hook) == d
    ensures d.Moment? && hook.Some? ==> Sent(d, hook) == Map(SentinelOf(d.t, hook.value))
  {
    if hook.Some? {
      hide Wire;
      WireMany(d, hook.value);
      WireLeaf(d, hook.value);
      if d.Map? { assert Wire(d, hook.value).m == SentMap(d.m, hook); }
    }
  }

  lemma {:induction false} WireLeaf(d: Data, iso: Iso)
    ensures !d.Array? && !d.Map? && !d.Moment? ==> Wire(d, iso) == d
    ensures d.Moment? ==> Wire(d, iso) == Map(SentinelOf(d.t, iso))
  {
  }

  ghost function SentMap(m: map<Key, Data>, hook: Option<Iso>): map<Key, Data> {
    map k | k in m :: Sent(m[k], hook)
  }

  lemma {:induction false} TightMembers(d: Data, hook: Option<Iso>)
    requires SentTight(d, hook)
    ensures d.Array? ==> forall i :: 0 <= i < |d.items| ==> SentTight(d.items[i], hook)
    ensures d.Map? ==> forall k :: k in d.m ==> SentTight(d.m[k], hook)
    ensures d.Moment? && hook.Some? ==> Tight(d.t, hook.value)
  {
    hide Tight;
  }

  // ---------- a document is no shorter than the canonical one of what it builds ----------

  lemma {:induction false} KeyCount(doc: Mp.Doc, n: nat, hook: Option<Iso>)
    requires doc.Map? && 2 * n <= |doc.flat| && BuildPairs(doc, n, hook).Some?
    ensures |TextKeys(BuildPairs(doc, n, hook).value)| <= n
  {
    hide Build, BuildKey;
    if n > 0 {
      KeyCount(doc, n - 1, hook);
      var m := BuildPairs(doc, n - 1, hook).value;
      var k := BuildKey(doc.flat[2 * n - 2]).value;
      var all := BuildPairs(doc, n, hook).value;
      if k.StrKey? {
        assert TextKeys(all) == TextKeys(m) + {k.s};
      } else {
        assert TextKeys(all) == TextKeys(m);
      }
    }
  }

  lemma {:induction false} BuildKeySound(doc: Mp.Doc, k: Text)
    requires BuildKey(doc) == Some(StrKey(k))
    ensures WellFormed(k) && doc == Mp.Str(Encode(k))
  {
    DecodeSound(doc.utf8, k);
  }

  /** Whatever integer and length formats, key order, repeated keys and temporal texts it uses. */
  lemma {:induction false} BuiltIsNoLonger(doc: Mp.Doc, hook: Option<Iso>, d: Data)
    requires Mp.Writable(doc) && Build(doc, hook) == Some(d) && Sendable(Sent(d, hook)) && SentTight(d, hook)
    ensures |Canonical(Sent(d, hook))| <= |Mp.Write(doc)|
    decreases doc, 2
  {
    hide Build, BuildItems, BuildPairs, DocOf, DocItems, Flat, Encode, Revive, SentinelShaped;
    hide Sendable, Mp.Write, Sent, SentTight;
    BuildMany(doc, hook);
    SentMany(d, hook);
    TightMembers(d, hook);
    if doc.Array? {
      assert doc.items[..|doc.items|] == doc.items && d.items[..|d.items|] == d.items;
      ItemsNoLonger(doc, |doc.items|, hook, d);
      ArraySizes(doc, Sent(d, hook));
    } else if doc.Map? {
      MapNoLonger(doc, hook, d);
    } else {
      BuildAtomOnly(doc, hook, d);
    }
  }

  lemma {:induction false} MapNoLonger(doc: Mp.Doc, hook: Option<Iso>, d: Data)
    requires doc.Map? && Mp.Writable(doc) && Build(doc, hook) == Some(d)
    requires Sendable(Sent(d, hook)) && SentTight(d, hook)
    ensures |Canonical(Sent(d, hook))| <= |Mp.Write(doc)|
    decreases doc, 1
  {
    hide Build, BuildPairs, DocOf, Flat, Encode, Revive;
    hide Sendable, SendablePair, Mp.Write, Sent, SentTight, SentMap, Canonical;
    BuildMany(doc, hook);
    SentMany(d, hook);
    TightMembers(d, hook);
    var n := |doc.flat| / 2;
    var m := BuildPairs(doc, n, hook).value;
    assert doc.flat[..2 * n] == doc.flat;
    KeyCount(doc, n, hook);
    if hook.Some? { Revived(m, hook.value, d); }
    if d.Map? {
      SentKeys(m, hook);
      var w := SentMap(m, hook);
      forall k | k in TextKeys(m) ensures SendablePair(w, k) && SentTight(m[StrKey(k)], hook) {
        SendableEntryText(Map(w), k);
      }
      PairsNoLonger(doc, n, hook, TextKeys(m));
      MapSizes(doc, Map(w));
    } else {
      MomentNoLonger(doc, hook.value, m, d.t);
    }
  }

  lemma SentKeys(m: map<Key, Data>, hook: Option<Iso>)
    ensures SentMap(m, hook).Keys == m.Keys && TextKeys(SentMap(m, hook)) == TextKeys(m)
  {
    hide Sent;
  }

  /** The hook keeps a map or turns it into the temporal value its tag and text stand for. */
  lemma {:induction false} Revived(m: map<Key, Data>, iso: Iso, d: Data)
    requires Revive(m, iso) == Some(d)
    ensures d == Map(m) || d.Moment?
  {
    hide TagOf, ValueKey, HookParse;
  }

  lemma {:induction false} RevivedFrom(m: map<Key, Data>, iso: Iso, t: Temporal) returns (k: Kind)
    requires Revive(m, iso) == Some(Moment(t))
    ensures Tagged(m, k) && ValueKey() in m && m[ValueKey()].Str? && HookParse(iso, k, m[ValueKey()].s) == Some(t)
  {
    hide TagOf, ValueKey, HookParse;
    k := if Tagged(m, DateTimeKind) then DateTimeKind else if Tagged(m, DateKind) then DateKind else TimeKind;
  }

  lemma {:induction false} MomentNoLonger(doc: Mp.Doc, iso: Iso, m: map<Key, Data>, t: Temporal)
    requires doc.Map? && Mp.Writable(doc) && BuildPairs(doc, |doc.flat| / 2, Some(iso)) == Some(m)
    requires Revive(m, iso) == Some(Moment(t)) && Tight(t, iso) && Sendable(Map(SentinelOf(t, iso)))
    ensures |Canonical(Map(SentinelOf(t, iso)))| <= |Mp.Write(doc)|
    decreases doc, 0
  {
    hide BuildPairs, Revive, Tagged, TagOf, ValueKey, HookParse, Encode, Sendable, SendableText, SendablePair;
    hide Canonical, Mp.Write, Mp.WriteAll, Mp.AllWritable, Sent, SentTight, SentMap, Weight;
    var n, hook := |doc.flat| / 2, Some(iso);
    var k := RevivedFrom(m, iso, t);
    BuiltText(doc, n, hook, ValueKey());
    var w := SentinelOf(t, iso);
    SentinelParts(t, iso);
    var ks := {TagOf(t.kind).s, ValueKey().s};
    assert StrKey(TagOf(t.kind).s) == TagOf(t.kind) && StrKey(ValueKey().s) == ValueKey();
    TaggedSent(m, t.kind, hook);
    MemberSizes(w, SentMap(m, hook), t.kind, iso.format(t), m[ValueKey()].s);
    assert doc.flat[..2 * n] == doc.flat;
    PairsNoLonger(doc, n, hook, ks);
    KeyCount(doc, n, hook);
    WeightMonotone(w, SentMap(m, hook), ks);
    MapSizes(doc, Map(w));
  }

  lemma {:induction false} BuiltText(doc: Mp.Doc, n: nat, hook: Option<Iso>, k: Key)
    requires doc.Map? && Mp.AllWritable(doc.flat) && 2 * n <= |doc.flat| && BuildPairs(doc, n, hook).Some?
    requires k in BuildPairs(doc, n, hook).value && BuildPairs(doc, n, hook).value[k].Str?
    ensures SendableText(BuildPairs(doc, n, hook).value[k].s)
  {
    hide Build, BuildPairs, BuildKey, SendableText, Mp.Writable;
    BuildPairsStep(doc, n, hook);
    if n > 0 {
      if k == BuildKey(doc.flat[2 * n - 2]).value {
        StrDoc(doc.flat[2 * n - 1], hook, BuildPairs(doc, n, hook).value[k].s);
      } else {
        BuiltText(doc, n - 1, hook, k);
      }
    }
  }

  lemma {:induction false} StrDoc(doc: Mp.Doc, hook: Option<Iso>, s: Text)
    requires Mp.Writable(doc) && Build(doc, hook) == Some(Str(s))
    ensures SendableText(s)
  {
    hide BuildItems, BuildPairs, Revive;
    if doc.Map? && hook.Some? { Revived(BuildPairs(doc, |doc.flat| / 2, hook).value, hook.value, Str(s)); }
    if doc.Str? { DecodeSound(doc.utf8, s); }
  }

  lemma SentinelParts(t: Temporal, iso: Iso)
    requires Sendable(Map(SentinelOf(t, iso)))
    ensures TextKeys(SentinelOf(t, iso)) == {TagOf(t.kind).s, ValueKey().s} && TagOf(t.kind) != ValueKey()
    ensures SendableText(TagOf(t.kind).s) && SendableText(ValueKey().s) && SendableText(iso.format(t))
    ensures SendablePair(SentinelOf(t, iso), TagOf(t.kind).s) && SendablePair(SentinelOf(t, iso), ValueKey().s)
  {
    hide TagOf, ValueKey, Encode;
    TagsDiffer();
    var d := Map(SentinelOf(t, iso));
    SendableEntryText(d, TagOf(t.kind).s);
    SendableEntryText(d, ValueKey().s);
  }

  /** A tagged map holds two text keys, its flag and its text. */
  lemma TaggedSent(m: map<Key, Data>, k: Kind, hook: Option<Iso>)
    requires Tagged(m, k) && SendableText(m[ValueKey()].s)
    requires SendableText(TagOf(k).s) && SendableText(ValueKey().s)
    ensures var w := SentMap(m, hook);
            && TagOf(k) in m && ValueKey() in m
            && TagOf(k) in w && w[TagOf(k)] == Bool(true) && ValueKey() in w && w[ValueKey()] == m[ValueKey()]
            && SendablePair(w, TagOf(k).s) && SendablePair(w, ValueKey().s)
            && SentTight(m[TagOf(k)], hook) && SentTight(m[ValueKey()], hook)
    ensures |TextKeys(m)| >= 2
  {
    hide TagOf, ValueKey, Encode, Sent;
    TagsDiffer();
    SentMany(m[TagOf(k)], hook);
    SentMany(m[ValueKey()], hook);
    Cardinality({TagOf(k).s, ValueKey().s}, TextKeys(m));
  }

  lemma Cardinality(a: set<Text>, b: set<Text>)
    requires a <= b
    ensures |a| <= |b|
  {
    assert b == a + (b - a);
  }

  lemma StrSize(s: Text)
    requires SendableText(s)
    ensures |Canonical(Str(s))| == |Mp.WriteHead(Mp.StrHead(|Encode(s)|))| + |Encode(s)|
  {
    hide Encode, Mp.WriteHead;
    KeyWritable(s);
    assert Mp.HeadOfDoc(Mp.Str(Encode(s))) == Mp.StrHead(|Encode(s)|) && Mp.Payload(Mp.Str(Encode(s))) == Encode(s);
  }

  lemma StrHeadMonotone(m: nat, n: nat)
    requires m <= n < LIMIT
    ensures |Mp.WriteHead(Mp.StrHead(m))| <= |Mp.WriteHead(Mp.StrHead(n))|
  {
  }

  lemma TextSizes(a: Text, b: Text)
    requires SendableText(a) && SendableText(b) && |Encode(a)| <= |Encode(b)|
    ensures |Canonical(Str(a))| <= |Canonical(Str(b))|
    ensures |Encode(a)| < |Encode(b)| ==> |Canonical(Str(a))| < |Canonical(Str(b))|
  {
    hide Encode, Canonical, Mp.WriteHead;
    StrSize(a);
    StrSize(b);
    StrHeadMonotone(|Encode(a)|, |Encode(b)|);
  }

  lemma {:induction false} WeightMonotone(m: map<Key, Data>, n: map<Key, Data>, ks: set<Text>)
    requires forall k :: k in ks ==> SendablePair(m, k) && SendablePair(n, k)
    requires forall k :: k in ks ==> PairSize(m, k) <= PairSize(n, k)
    ensures Weight(m, ks) <= Weight(n, ks)
    ensures (exists k :: k in ks && PairSize(m, k) < PairSize(n, k)) ==> Weight(m, ks) < Weight(n, ks)
    decreases |ks|
  {
    hide PairSize, SendablePair;
    if ks != {} { WeightMonotone(m, n, ks - {Pick(ks)}); }
  }

  lemma MemberSizes(m: map<Key, Data>, n: map<Key, Data>, k: Kind, a: Text, b: Text)
    requires SendableText(a) && SendableText(b) && |Encode(a)| <= |Encode(b)|
    requires SendablePair(m, TagOf(k).s) && SendablePair(n, TagOf(k).s) && m[TagOf(k)] == n[TagOf(k)]
    requires SendablePair(m, ValueKey().s) && SendablePair(n, ValueKey().s)
    requires m[ValueKey()] == Str(a) && n[ValueKey()] == Str(b)
    ensures PairSize(m, TagOf(k).s) == PairSize(n, TagOf(k).s)
    ensures PairSize(m, ValueKey().s) <= PairSize(n, ValueKey().s)
    ensures |Encode(a)| < |Encode(b)| ==> PairSize(m, ValueKey().s) < PairSize(n, ValueKey().s)
  {
    hide Encode, Canonical, TagOf, ValueKey;
    TextSizes(a, b);
  }

  lemma {:induction false} SendableEntryText(d: Data, k: Text)
    requires d.Map? && Sendable(d) && k in TextKeys(d.m)
    ensures SendablePair(d.m, k)
  {
  }

  lemma {:induction false} BuildAtomOnly(doc: Mp.Doc, hook: Option<Iso>, d: Data)
    requires !doc.Array? && !doc.Map? && Mp.Writable(doc) && Build(doc, hook) == Some(d) && Sendable(Sent(d, hook))
    ensures |Canonical(Sent(d, hook))| == |Mp.Write(doc)|
  {
    hide Mp.Write, Sent;
    SentMany(d, hook);
    if doc.Str? { DecodeSound(doc.utf8, d.s); }
    assert DocOf(d) == doc;
  }

  lemma ArraySize(d: Data)
    requires d.Array? && Sendable(d)
    ensures Mp.AllWritable(DocItems(d, |d.items|))
    ensures |Canonical(d)| == |Mp.WriteHead(Mp.ArrayHead(|d.items|))| + |Mp.WriteAll(DocItems(d, |d.items|))|
  {
    hide DocOf, DocItems, Mp.WriteHead, Mp.Write, Mp.WriteAll, Mp.Writable, Sendable;
    ItemsWritable(d, |d.items|);
    DocOfMany(d);
    DocWritable(d);
    Mp.WrittenMany(DocItems(d, |d.items|));
  }

  lemma ArraySizes(doc: Mp.Doc, d: Data)
    requires doc.Array? && Mp.Writable(doc) && Mp.AllWritable(doc.items)
    requires d.Array? && Sendable(d) && |d.items| == |doc.items|
    requires Mp.AllWritable(DocItems(d, |d.items|))
    requires |Mp.WriteAll(DocItems(d, |d.items|))| <= |Mp.WriteAll(doc.items)|
    ensures |Canonical(d)| <= |Mp.Write(doc)|
  {
    hide DocOf, DocItems, Mp.WriteHead, Mp.Write, Mp.WriteAll, Mp.Writable, Sendable, Canonical;
    ArraySize(d);
    Mp.WrittenMany(doc.items);
  }

  lemma {:induction false} MapSize(d: Data)
    requires d.Map? && Sendable(d)
    ensures forall k :: k in TextKeys(d.m) ==> SendablePair(d.m, k)
    ensures |TextKeys(d.m)| < LIMIT
    ensures |Canonical(d)| == |Mp.WriteHead(Mp.MapHead(|TextKeys(d.m)|))| + Weight(d.m, TextKeys(d.m))
  {
    hide DocOf, Flat, Mp.WriteHead, Mp.Write, Mp.WriteAll, Mp.Writable, SendablePair, TextKeys, Sendable, Weight;
    KeysBelow(d);
    forall k | k in TextKeys(d.m) ensures SendablePair(d.m, k) { SendableEntryText(d, k); }
    var ks := SortedKeys(d.m);
    forall k | k in ks ensures StrKey(k) in d.m && SendablePair(d.m, k) { PairKey(d.m, k); }
    DocOfMany(d);
    DocWritable(d);
    FlatSize(d, ks);
    assert (set k | k in ks) == TextKeys(d.m);
    SortedCount(d.m);
    Mp.WrittenMany(Flat(d, ks));
  }

  lemma KeysBelow(d: Data)
    requires d.Map? && Sendable(d)
    ensures |TextKeys(d.m)| < LIMIT
  {
  }

  lemma PairKey(m: map<Key, Data>, k: Text)
    requires SendablePair(m, k)
    ensures StrKey(k) in m
  {
  }

  lemma SortedCount(m: map<Key, Data>)
    ensures |SortedKeys(m)| == |TextKeys(m)|
  {
  }

  lemma MapSizes(doc: Mp.Doc, d: Data)
    requires doc.Map? && Mp.Writable(doc) && Mp.AllWritable(doc.flat) && |doc.flat| / 2 < LIMIT && d.Map? && Sendable(d)
    requires forall k :: k in TextKeys(d.m) ==> SendablePair(d.m, k)
    requires |TextKeys(d.m)| <= |doc.flat| / 2 && Weight(d.m, TextKeys(d.m)) <= |Mp.WriteAll(doc.flat)|
    ensures |Canonical(d)| <= |Mp.Write(doc)|
  {
    hide Mp.WriteHead, Mp.Write, Mp.WriteAll, Mp.Writable, Sendable, SendablePair, TextKeys, Canonical;
    MapSize(d);
    HeadMonotone(|TextKeys(d.m)|, |doc.flat| / 2);
    Mp.WrittenMany(doc.flat);
  }

  lemma {:induction false} ItemsNoLonger(doc: Mp.Doc, n: nat, hook: Option<Iso>, d: Data)
    requires doc.Array? && Mp.AllWritable(doc.items) && n <= |doc.items|
    requires d.Array? && n <= |d.items| && BuildItems(doc, n, hook) == Some(d.items[..n])
    requires Sendable(Sent(d, hook)) && SentTight(d, hook)
    requires Sent(d, hook).Array? && |Sent(d, hook).items| == |d.items|
    ensures Mp.AllWritable(DocItems(Sent(d, hook), n))
    ensures |Mp.WriteAll(DocItems(Sent(d, hook), n))| <= |Mp.WriteAll(doc.items[..n])|
    decreases doc, 0, n
  {
    hide Build, BuildItems, DocOf, Sendable, Mp.Writable, Mp.Write, Sent, SentTight;
    var w := Sent(d, hook);
    SentMany(d, hook);
    TightMembers(d, hook);
    ItemsWritable(w, n);
    BuildItemsStep(doc, n, hook);
    if n > 0 {
      var last := d.items[n - 1];
      assert d.items[..n] == d.items[..n - 1] + [last];
      AppendIff(BuildItems(doc, n - 1, hook).value, Build(doc.items[n - 1], hook).value, d.items[..n - 1], last);
      ItemsNoLonger(doc, n - 1, hook, d);
      SendableItem(w, n - 1);
      BuiltIsNoLonger(doc.items[n - 1], hook, last);
      ItemsGrow(w, n);
      WriteOne(doc.items[n - 1]);
      assert doc.items[..n] == doc.items[..n - 1] + [doc.items[n - 1]];
      WriteAllAppend(doc.items[..n - 1], [doc.items[n - 1]]);
    }
  }

  lemma {:induction false} ItemsGrow(d: Data, n: nat)
    requires d.Array? && Sendable(d) && 0 < n <= |d.items|
    ensures Mp.AllWritable(DocItems(d, n)) && Mp.AllWritable(DocItems(d, n - 1)) && Sendable(d.items[n - 1])
    ensures |Mp.WriteAll(DocItems(d, n))| == |Mp.WriteAll(DocItems(d, n - 1))| + |Canonical(d.items[n - 1])|
  {
    hide DocOf, Sendable, Mp.Writable, Mp.Write;
    SendableItem(d, n - 1);
    ItemsWritable(d, n);
    ItemsWritable(d, n - 1);
    DocWritable(d.items[n - 1]);
    WriteOne(DocOf(d.items[n - 1]));
    WriteAllAppend(DocItems(d, n - 1), [DocOf(d.items[n - 1])]);
  }

  lemma {:induction false} PairsNoLonger(doc: Mp.Doc, n: nat, hook: Option<Iso>, ks: set<Text>)
    requires doc.Map? && Mp.AllWritable(doc.flat) && 2 * n <= |doc.flat| && BuildPairs(doc, n, hook).Some?
    requires forall k :: k in ks ==> SendablePair(SentMap(BuildPairs(doc, n, hook).value, hook), k)
    requires var m := BuildPairs(doc, n, hook).value;
             forall k :: k in ks ==> StrKey(k) in m && SentTight(m[StrKey(k)], hook)
    ensures Weight(SentMap(BuildPairs(doc, n, hook).value, hook), ks) <= |Mp.WriteAll(doc.flat[..2 * n])|
    decreases doc, 0, n
  {
    hide Build, BuildPairs, BuildKey, Sendable, SendableText, Mp.Writable, Mp.Write, Encode, Canonical, KeyBytes;
    hide Sent, SentTight, SentMap, SendablePair, Weight;
    BuildPairsStep(doc, n, hook);
    if n == 0 {
      assert ks == {};
      NoWeight(SentMap(map[], hook));
    } else {
      var before, m := BuildPairs(doc, n - 1, hook).value, BuildPairs(doc, n, hook).value;
      var keyDoc, valDoc := doc.flat[2 * n - 2], doc.flat[2 * n - 1];
      var k := BuildKey(keyDoc).value;
      AppendPair(doc.flat[..2 * n - 2], keyDoc, valDoc);
      assert doc.flat[..2 * n] == doc.flat[..2 * n - 2] + [keyDoc, valDoc];
      SentMapNext(before, k, m[k], hook);
      WeightNext(SentMap(before, hook), k, Sent(m[k], hook), ks);
      if k.StrKey? && k.s in ks {
        PairsNoLonger(doc, n - 1, hook, ks - {k.s});
        PairNoLonger(keyDoc, k.s);
        BuiltIsNoLonger(valDoc, hook, m[k]);
      } else {
        PairsNoLonger(doc, n - 1, hook, ks);
      }
    }
  }

  lemma NoWeight(m: map<Key, Data>)
    ensures Weight(m, {}) == 0
  {
  }

  /** What one more pair adds to the weight of `ks`. */
  lemma {:induction false} WeightNext(m: map<Key, Data>, k: Key, x: Data, ks: set<Text>)
    requires forall j :: j in ks ==> SendablePair(m[k := x], j)
    ensures k.StrKey? && k.s in ks ==>
              (SendableText(k.s) && Sendable(x) && (forall j :: j in ks - {k.s} ==> SendablePair(m, j)) &&
               Weight(m[k := x], ks) == |KeyBytes(k.s)| + |Canonical(x)| + Weight(m, ks - {k.s}))
    ensures !(k.StrKey? && k.s in ks) ==>
              ((forall j :: j in ks ==> SendablePair(m, j)) && Weight(m[k := x], ks) == Weight(m, ks))
  {
    hide Sendable, SendableText, Canonical, KeyBytes, SendablePair, Weight;
    var rest := if k.StrKey? && k.s in ks then ks - {k.s} else ks;
    forall j | j in rest ensures StrKey(j) in m && m[StrKey(j)] == m[k := x][StrKey(j)] { PairParts(m[k := x], j); }
    WeightAgrees(m[k := x], m, rest);
    if k.StrKey? && k.s in ks {
      PairParts(m[k := x], k.s);
      WeightRemove(m[k := x], ks, k.s);
    }
  }

  lemma SentMapNext(m: map<Key, Data>, k: Key, v: Data, hook: Option<Iso>)
    ensures SentMap(m[k := v], hook) == SentMap(m, hook)[k := Sent(v, hook)]
  {
    hide Sent;
  }

  lemma PairParts(m: map<Key, Data>, k: Text)
    requires SendablePair(m, k)
    ensures StrKey(k) in m && SendableText(k) && Sendable(m[StrKey(k)])
    ensures PairSize(m, k) == |KeyBytes(k)| + |Canonical(m[StrKey(k)])|
  {
  }

  lemma {:induction false} PairNoLonger(keyDoc: Mp.Doc, k: Text)
    requires Mp.Writable(keyDoc) && BuildKey(keyDoc) == Some(StrKey(k)) && SendableText(k)
    ensures KeyBytes(k) == Mp.Write(keyDoc)
  {
    BuildKeySound(keyDoc, k);
  }

  /** Any byte string that starts with a document of `d` spends at least as many bytes on it
    as the stored form does. */
  lemma NoDocumentIsShorter(b: seq<Byte>, doc: Mp.Doc, rest: seq<Byte>, hook: Option<Iso>, d: Data)
    requires Mp.Parse(b) == Some(Mp.Parsed(doc, rest)) && Build(doc, hook) == Some(d)
    requires Sendable(Sent(d, hook)) && SentTight(d, hook)
    ensures |Canonical(Sent(d, hook))| <= |b| - |rest|
  {
    hide Mp.Parse, Build, Canonical, Mp.Write, Sent, SentTight;
    Mp.ParsedIsNoShorter(b);
    BuiltIsNoLonger(doc, hook, d);
  }

  /** A value that is stored as it is has no temporal part. */
  lemma {:induction false} SendableIsTight(d: Data, iso: Iso)
    requires Sendable(d)
    ensures AllTight(d, iso)
    decreases d
  {
    hide Tight;
    if d.Array? {
      forall i | 0 <= i < |d.items| ensures AllTight(d.items[i], iso) { SendableIsTight(d.items[i], iso); }
    } else if d.Map? {
      forall k | k in d.m ensures AllTight(d.m[k], iso) { SendableIsTight(d.m[k], iso); }
    }
  }
}
