/** What the canonical form is for: it is prefix-free and injective, it is the shortest
  MessagePack document of its value, and the reader undoes it. */
module CanonicalForm {
  import opened Wrappers
  import opened Bytes
  import opened Utf8
  import opened DataModel
  import Mp = MsgPack

  // ---------- the reader undoes the canonical document ----------

  lemma {:induction false} FlatAt(d: Data, ks: seq<Text>, i: nat)
    requires d.Map? && Sendable(d) && i < |ks|
    requires forall k :: k in ks ==> StrKey(k) in d.m
    ensures ks[i] in ks && StrKey(ks[i]) in d.m
    ensures Flat(d, ks)[2 * i] == Mp.Str(Encode(ks[i])) && Flat(d, ks)[2 * i + 1] == DocOf(d.m[StrKey(ks[i])])
  {
    if i < |ks| - 1 {
      FlatAt(d, ks[..|ks| - 1], i);
    }
  }

  lemma {:induction false} ItemAt(d: Data, n: nat, i: nat)
    requires d.Array? && Sendable(d) && i < n <= |d.items|
    ensures DocItems(d, n)[i] == DocOf(d.items[i])
  {
    if i < n - 1 {
      ItemAt(d, n - 1, i);
    }
  }

  ghost function Restrict(m: map<Key, Data>, ks: seq<Text>): map<Key, Data> {
    map k | k in m.Keys && k.StrKey? && k.s in ks :: m[k]
  }

  lemma RestrictExtends(m: map<Key, Data>, ks: seq<Text>, n: nat)
    requires n < |ks| && StrKey(ks[n]) in m
    ensures Restrict(m, ks[..n + 1]) == Restrict(m, ks[..n])[StrKey(ks[n]) := m[StrKey(ks[n])]]
  {
    assert ks[..n + 1] == ks[..n] + [ks[n]];
  }

  lemma RestrictNone(m: map<Key, Data>)
    ensures Restrict(m, []) == map[]
  {
  }

  lemma RestrictFresh(m: map<Key, Data>, ks: seq<Text>, k: Text)
    requires k !in ks
    ensures StrKey(k) !in Restrict(m, ks)
  {
  }

  lemma RestrictAll(d: Data)
    requires d.Map? && Sendable(d)
    ensures Restrict(d.m, SortedKeys(d.m)) == d.m
  {
    forall k | k in d.m ensures k in Restrict(d.m, SortedKeys(d.m)) {
      assert k.s in TextKeys(d.m);
    }
  }

  /** No map inside has the shape of a temporal sentinel. */
  ghost predicate NoSentinel(d: Data) {
    match d
    case Array(items) => forall i :: 0 <= i < |items| ==> NoSentinel(items[i])
    case Map(m) => !SentinelShaped(m) && forall k :: k in m ==> NoSentinel(m[k])
    case _ => true
  }

  lemma {:induction false} BuildCanonical(d: Data, hook: Option<Iso>)
    requires Sendable(d) && (hook.Some? ==> NoSentinel(d))
    ensures Build(DocOf(d), hook) == Some(d)
    decreases d
  {
    hide Build, BuildItems, BuildPairs, DocOf, DocItems, Flat, Tagged, Encode;
    DocOfMany(d);
    BuildMany(DocOf(d), hook);
    if d.Array? {
      BuildCanonicalItems(d, DocOf(d), |d.items|, hook);
      assert d.items[..|d.items|] == d.items;
    } else if d.Map? {
      var ks := SortedKeys(d.m);
      BuildCanonicalPairs(d, DocOf(d), ks, |ks|, hook);
      assert ks[..|ks|] == ks;
      RestrictAll(d);
    } else {
      BuildAtom(d, hook);
    }
  }

  lemma {:induction false} BuildAtom(d: Data, hook: Option<Iso>)
    requires Sendable(d) && !d.Array? && !d.Map?
    ensures Build(DocOf(d), hook) == Some(d)
  {
    if d.Str? {
      RoundTrip(d.s);
    }
  }

  lemma {:induction false} BuildCanonicalItems(d: Data, doc: Mp.Doc, n: nat, hook: Option<Iso>)
    requires d.Array? && Sendable(d) && n <= |d.items|
    requires hook.Some? ==> NoSentinel(d)
    requires doc.Array? && doc.items == DocItems(d, |d.items|)
    ensures BuildItems(doc, n, hook) == Some(d.items[..n])
    decreases d, n
  {
    hide Build, BuildItems, DocOf, DocItems, Tagged, Encode;
    BuildItemsStep(doc, n, hook);
    if n > 0 {
      BuildCanonicalItems(d, doc, n - 1, hook);
      ItemAt(d, |d.items|, n - 1);
      BuildCanonical(d.items[n - 1], hook);
      assert d.items[..n] == d.items[..n - 1] + [d.items[n - 1]];
    }
  }

  lemma {:induction false} BuildCanonicalPairs(d: Data, doc: Mp.Doc, ks: seq<Text>, n: nat, hook: Option<Iso>)
    requires d.Map? && Sendable(d) && n <= |ks|
    requires forall k :: k in ks ==> StrKey(k) in d.m
    requires hook.Some? ==> forall k :: k in d.m ==> NoSentinel(d.m[k])
    requires doc.Map? && doc.flat == Flat(d, ks)
    ensures BuildPairs(doc, n, hook) == Some(Restrict(d.m, ks[..n]))
    decreases d, n
  {
    hide Build, BuildPairs, BuildKey, DocOf, Flat, Encode, Sendable, NoSentinel, Restrict;
    BuildPairsStep(doc, n, hook);
    RestrictNone(d.m);
    assert n == 0 ==> ks[..n] == [];
    if n > 0 {
      var k := ks[n - 1];
      assert k in ks;
      BuildCanonicalPairs(d, doc, ks, n - 1, hook);
      FlatAt(d, ks, n - 1);
      SendableEntry(d, StrKey(k));
      BuildTextKey(k);
      BuildCanonical(d.m[StrKey(k)], hook);
      RestrictExtends(d.m, ks, n - 1);
    }
  }

  /** Byte strings that start with a canonical document start with exactly one, and different
    values have different documents. */
  lemma CanonicalPrefixFree(a: Data, b: Data, x: seq<Byte>, y: seq<Byte>)
    requires Sendable(a) && Sendable(b)
    requires Canonical(a) + x == Canonical(b) + y
    ensures a == b && x == y
  {
    DocWritable(a);
    DocWritable(b);
    Mp.PrefixFree(DocOf(a), DocOf(b), x, y);
    BuildCanonical(a, None);
    BuildCanonical(b, None);
  }

  lemma CanonicalInjective(a: Data, b: Data)
    requires Sendable(a) && Sendable(b) && Canonical(a) == Canonical(b)
    ensures a == b
  {
    assert Canonical(a) + [] == Canonical(b) + [];
    CanonicalPrefixFree(a, b, [], []);
  }

  /** A map is written pair by pair, each key with its value, and the keys increase strictly, by code
    point and by UTF-8 byte alike. */
  lemma KeysIncrease(d: Data, i: nat, j: nat)
    requires d.Map? && Sendable(d) && i < j < |SortedKeys(d.m)|
    ensures var ks := SortedKeys(d.m);
            && WellFormed(ks[i]) && WellFormed(ks[j]) && LexLess(ks[i], ks[j]) && LexLess(Encode(ks[i]), Encode(ks[j]))
            && StrKey(ks[i]) in d.m && DocOf(d).Map? && |DocOf(d).flat| == 2 * |ks|
            && DocOf(d).flat[2 * i] == Mp.Str(Encode(ks[i])) && DocOf(d).flat[2 * i + 1] == DocOf(d.m[StrKey(ks[i])])
            && DocOf(d).flat[2 * j] == Mp.Str(Encode(ks[j]))
  {
    hide Encode, Flat, DocOf, Sendable;
    var ks := SortedKeys(d.m);
    DocOfMany(d);
    KeysOfMap(d);
    FlatAt(d, ks, i);
    FlatAt(d, ks, j);
    PreservesOrder(ks[i], ks[j]);
  }

  lemma KeysOfMap(d: Data)
    requires d.Map? && Sendable(d)
    ensures forall k :: k in SortedKeys(d.m) ==> StrKey(k) in d.m && WellFormed(k) && Sendable(d.m[StrKey(k)])
  {
    hide Encode;
  }

  // ---------- sentinel maps ----------

  /** The wire form of a value: temporal values become their sentinel maps. */
  ghost function Wire(d: Data, iso: Iso): Data
    decreases d
  {
    match d
    case Moment(t) => Map(SentinelOf(t, iso))
    case Array(items) => Array(WireItems(d, |items|, iso))
    case Map(m) => Map(map k | k in m :: Wire(m[k], iso))
    case _ => d
  }

  ghost function WireItems(d: Data, n: nat, iso: Iso): (r: seq<Data>)
    requires d.Array? && n <= |d.items|
    ensures |r| == n && forall i :: 0 <= i < n ==> r[i] == Wire(d.items[i], iso)
    decreases d, n
  {
    if n == 0 then [] else WireItems(d, n - 1, iso) + [Wire(d.items[n - 1], iso)]
  }

  ghost function SentinelOf(t: Temporal, iso: Iso): map<Key, Data> {
    map[TagOf(t.kind) := Bool(true), ValueKey() := Str(iso.format(t))]
  }

  /** `fromisoformat` undoes `isoformat`. */
  ghost predicate Faithful(iso: Iso) {
    forall t: Temporal :: HookParse(iso, t.kind, iso.format(t)) == Some(t)
  }

  lemma TagsDiffer()
    ensures forall j, k :: TagOf(j) == TagOf(k) ==> j == k
    ensures forall k :: TagOf(k) != ValueKey()
  {
    forall k ensures TagOf(k) != ValueKey() {
      assert |TagOf(k).s| != |ValueKey().s|;
    }
    assert TagOf(DateKind).s[2] == 'd' as int && TagOf(TimeKind).s[2] == 't' as int;
    assert |TagOf(DateTimeKind).s| != |TagOf(DateKind).s| && |TagOf(DateTimeKind).s| != |TagOf(TimeKind).s|;
  }

  /** A map whose members hold no sentinel is built as it is and then goes through the hook. */
  lemma {:induction false} BuildThenRevive(d: Data, iso: Iso)
    requires d.Map? && Sendable(d) && forall k :: k in d.m ==> NoSentinel(d.m[k])
    ensures Build(DocOf(d), Some(iso)) == Revive(d.m, iso)
  {
    hide Build, BuildPairs, DocOf, Flat, Encode, Revive, SentinelShaped;
    var ks := SortedKeys(d.m);
    DocOfMany(d);
    BuildMany(DocOf(d), Some(iso));
    BuildCanonicalPairs(d, DocOf(d), ks, |ks|, Some(iso));
    assert ks[..|ks|] == ks;
    RestrictAll(d);
  }

  lemma {:induction false} ReviveSentinel(t: Temporal, iso: Iso)
    requires Faithful(iso) && Sendable(Map(SentinelOf(t, iso)))
    ensures Build(DocOf(Map(SentinelOf(t, iso))), Some(iso)) == Some(Moment(t))
  {
    hide Build, DocOf, Revive, TagOf, ValueKey, Sendable;
    BuildThenRevive(Map(SentinelOf(t, iso)), iso);
    ReviveTagged(t, iso);
  }

  lemma {:induction false} ReviveTagged(t: Temporal, iso: Iso)
    requires Faithful(iso)
    ensures Revive(SentinelOf(t, iso), iso) == Some(Moment(t))
  {
    hide TagOf, ValueKey, HookParse;
    TagsDiffer();
    assert HookParse(iso, t.kind, iso.format(t)) == Some(t);
    assert Tagged(SentinelOf(t, iso), t.kind);
  }

  lemma ReviveKeeps(m: map<Key, Data>, x: map<Key, Data>, iso: Iso)
    ensures Revive(m, iso) == Some(Map(x)) <==> m == x && !SentinelShaped(m)
  {
    hide Tagged;
  }

  lemma {:induction false} WireMany(d: Data, iso: Iso)
    ensures d.Array? ==> Wire(d, iso).Array? && |Wire(d, iso).items| == |d.items|
    ensures d.Array? ==> forall i :: 0 <= i < |d.items| ==> Wire(d, iso).items[i] == Wire(d.items[i], iso)
    ensures d.Map? ==> Wire(d, iso).Map? && Wire(d, iso).m.Keys == d.m.Keys
    ensures d.Map? ==> forall k :: k in d.m ==> Wire(d, iso).m[k] == Wire(d.m[k], iso)
  {
  }

  lemma {:induction false} SendableItem(d: Data, i: nat)
    requires d.Array? && Sendable(d) && i < |d.items|
    ensures Sendable(d.items[i])
  {
  }

  lemma {:induction false} SendableEntry(d: Data, k: Key)
    requires d.Map? && Sendable(d) && k in d.m
    ensures k.StrKey? && WellFormed(k.s) && Sendable(d.m[k])
  {
  }

  lemma {:induction false} WireIsIdentity(d: Data, iso: Iso)
    requires Sendable(d)
    ensures Wire(d, iso) == d
    decreases d
  {
    hide Sendable, Wire;
    WireMany(d, iso);
    if d.Array? {
      forall i | 0 <= i < |d.items| ensures Wire(d, iso).items[i] == d.items[i] {
        SendableItem(d, i);
        WireIsIdentity(d.items[i], iso);
      }
      assert Wire(d, iso).items == d.items;
    } else if d.Map? {
      forall k | k in d.m ensures Wire(d, iso).m[k] == d.m[k] {
        SendableEntry(d, k);
        WireIsIdentity(d.m[k], iso);
      }
      assert Wire(d, iso).m == d.m;
    } else {
      WireAtom(d, iso);
    }
  }

  lemma {:induction false} WireAtom(d: Data, iso: Iso)
    requires Sendable(d) && !d.Array? && !d.Map?
    ensures Wire(d, iso) == d
  {
  }

  /** Decoding what was sent gives the value back exactly when none of its own maps is shaped
    like a sentinel. */
  lemma {:induction false} BuildWire(d: Data, iso: Iso)
    requires Faithful(iso) && Sendable(Wire(d, iso))
    ensures Build(DocOf(Wire(d, iso)), Some(iso)) == Some(d) <==> NoSentinel(d)
    decreases d, 2
  {
    hide Build, BuildItems, BuildPairs, DocOf, DocItems, Flat, Encode, Revive, Tagged, Faithful;
    var w := Wire(d, iso);
    if d.Moment? {
      ReviveSentinel(d.t, iso);
    } else if d.Array? {
      DocOfMany(w);
      BuildMany(DocOf(w), Some(iso));
      BuildWireItems(d, DocOf(w), |d.items|, iso);
      assert d.items[..|d.items|] == d.items;
    } else if d.Map? {
      DocOfMany(w);
      BuildMany(DocOf(w), Some(iso));
      BuildWireMap(d, iso);
      var m := BuildPairs(DocOf(w), |SortedKeys(w.m)|, Some(iso));
      if m.Some? { ReviveKeeps(m.value, d.m, iso); }
    } else {
      BuildAtom(d, Some(iso));
    }
  }

  lemma {:induction false} BuildWireItems(d: Data, doc: Mp.Doc, n: nat, iso: Iso)
    requires Faithful(iso) && d.Array? && Sendable(Wire(d, iso)) && n <= |d.items|
    requires doc.Array? && doc.items == DocItems(Wire(d, iso), |d.items|)
    ensures BuildItems(doc, n, Some(iso)) == Some(d.items[..n]) <==> forall i :: 0 <= i < n ==> NoSentinel(d.items[i])
    decreases d, 0, n
  {
    hide Build, BuildItems, DocOf, DocItems, Encode, SentinelShaped, Faithful, Wire, Sendable, NoSentinel;
    WireMany(d, iso);
    BuildItemsStep(doc, n, Some(iso));
    if n > 0 {
      var w := Wire(d, iso);
      BuildWireItems(d, doc, n - 1, iso);
      SendableItem(w, n - 1);
      ItemAt(w, |w.items|, n - 1);
      BuildWire(d.items[n - 1], iso);
      assert d.items[..n] == d.items[..n - 1] + [d.items[n - 1]];
      var r, v := BuildItems(doc, n - 1, Some(iso)), Build(doc.items[n - 1], Some(iso));
      if r.Some? && v.Some? { AppendIff(r.value, v.value, d.items[..n - 1], d.items[n - 1]); }
    }
  }

  lemma AppendIff(s: seq<Data>, v: Data, t: seq<Data>, x: Data)
    requires |s| == |t|
    ensures s + [v] == t + [x] <==> s == t && v == x
  {
    if s + [v] == t + [x] {
      assert s == (s + [v])[..|s|] == (t + [x])[..|t|] == t;
      assert v == (s + [v])[|s|];
    }
  }

  lemma {:induction false} BuildWireMap(d: Data, iso: Iso)
    requires Faithful(iso) && d.Map? && Sendable(Wire(d, iso))
    ensures var r := BuildPairs(DocOf(Wire(d, iso)), |SortedKeys(Wire(d, iso).m)|, Some(iso));
            r == Some(d.m) <==> forall k :: k in d.m ==> NoSentinel(d.m[k])
    decreases d, 1
  {
    hide Build, BuildPairs, DocOf, Flat, Encode, SentinelShaped, Faithful;
    hide Wire, SortedKeys, Sendable, NoSentinel, Restrict;
    WireMany(d, iso);
    var w := Wire(d, iso);
    DocOfMany(w);
    var ks := SortedKeys(w.m);
    BuildWirePairs(d, DocOf(w), ks, |ks|, iso);
    assert ks[..|ks|] == ks;
    RestrictWire(d, iso);
    if forall k :: k in ks ==> NoSentinel(d.m[StrKey(k)]) {
      forall k | k in d.m ensures NoSentinel(d.m[k]) {
        assert k.s in ks && k == StrKey(k.s);
      }
    }
  }

  lemma {:induction false} RestrictWire(d: Data, iso: Iso)
    requires d.Map? && Sendable(Wire(d, iso))
    ensures var ks := SortedKeys(Wire(d, iso).m);
            && Restrict(d.m, ks) == d.m
            && (forall k :: k in d.m ==> k.StrKey? && k.s in ks)
            && (forall k :: k in ks ==> StrKey(k) in d.m)
  {
    hide Wire;
    WireMany(d, iso);
    forall k | k in d.m ensures k.StrKey? && k.s in TextKeys(Wire(d, iso).m) {
      SendableEntry(Wire(d, iso), k);
    }
  }

  lemma {:induction false} BuildWirePairs(d: Data, doc: Mp.Doc, ks: seq<Text>, n: nat, iso: Iso)
    requires Faithful(iso) && d.Map? && Sendable(Wire(d, iso)) && n <= |ks|
    requires ks == SortedKeys(Wire(d, iso).m) && doc.Map? && doc.flat == Flat(Wire(d, iso), ks)
    ensures var r := BuildPairs(doc, n, Some(iso));
            && (r.Some? ==> r.value.Keys == Restrict(d.m, ks[..n]).Keys)
            && (r == Some(Restrict(d.m, ks[..n])) <==>
                forall k :: k in ks[..n] ==> StrKey(k) in d.m && NoSentinel(d.m[StrKey(k)]))
    decreases d, 0, n
  {
    hide Build, BuildPairs, BuildKey, DocOf, Flat, Encode, SentinelShaped, Faithful;
    hide Wire, Sendable, NoSentinel, Restrict;
    RestrictNone(d.m);
    WireMany(d, iso);
    BuildPairsStep(doc, n, Some(iso));
    if n > 0 {
      var w := Wire(d, iso);
      var k := ks[n - 1];
      FlatAt(w, ks, n - 1);
      SendableEntry(w, StrKey(k));
      BuildWirePairs(d, doc, ks, n - 1, iso);
      BuildWire(d.m[StrKey(k)], iso);
      BuildTextKey(k);
      RestrictExtends(d.m, ks, n - 1);
      assert ks[..n] == ks[..n - 1] + [k];
      FreshKey(ks, n - 1);
      RestrictFresh(d.m, ks[..n - 1], k);
      ExtendIff(BuildPairs(doc, n - 1, Some(iso)), Build(DocOf(w.m[StrKey(k)]), Some(iso)),
                Restrict(d.m, ks[..n - 1]), StrKey(k), d.m[StrKey(k)]);
    }
  }

  lemma {:induction false} FreshKey(ks: seq<Text>, n: nat)
    requires Increasing(ks) && n < |ks|
    ensures ks[n] !in ks[..n]
  {
    if ks[n] in ks[..n] {
      var j :| 0 <= j < n && ks[j] == ks[n];
      LexIrreflexive(ks[n]);
    }
  }

  lemma {:induction false} ExtendIff(r: Option<map<Key, Data>>, v: Option<Data>, m: map<Key, Data>, k: Key, x: Data)
    requires k !in m && (r.Some? ==> r.value.Keys == m.Keys)
    ensures r.Some? && v.Some? ==> (r.value[k := v.value] == m[k := x] <==> r.value == m && v.value == x)
  {
    if r.Some? && v.Some? && r.value[k := v.value] == m[k := x] {
      forall j | j in m ensures r.value[j] == m[j] {
        assert r.value[k := v.value][j] == m[k := x][j];
      }
      assert r.value[k := v.value][k] == m[k := x][k];
    }
  }
}
