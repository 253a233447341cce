/** When the stored form of a value with temporal parts is the shortest one: exactly when no
  temporal part has a shorter text that the reader turns into it. */
module TemporalForms {
  import opened Wrappers
  import opened Bytes
  import opened Utf8
  import opened DataModel
  import opened CanonicalForm
  import opened ShortestForm
  import opened PyObjects
  import opened InteropValues
  import Mp = MsgPack

  /** A text for a kind is read as a temporal value of that kind. */
  ghost predicate KindKept(iso: Iso) {
    forall k: Kind, s: Text :: HookParse(iso, k, s).Some? ==> HookParse(iso, k, s).value.kind == k
  }

  // ---------- the same reader, a terser printer ----------

  ghost predicate Better(t: Temporal, iso: Iso, s: Text) {
    SendableText(iso.format(t)) && SendableText(s) && HookParse(iso, t.kind, s) == Some(t) &&
    |Encode(s)| < |Encode(iso.format(t))|
  }

  lemma LooseIsBeaten(t: Temporal, iso: Iso) returns (s: Text)
    requires KindKept(iso) && !Tight(t, iso)
    ensures Better(t, iso, s)
  {
    hide HookParse, Encode;
    var k: Kind, x: Text :| SendableText(x) && HookParse(iso, k, x) == Some(t) &&
      !(k == t.kind && |Encode(iso.format(t))| <= |Encode(x)|);
    s := x;
  }

  ghost function TerseText(t: Temporal, iso: Iso): (s: Text)
    ensures s == iso.format(t) || Better(t, iso, s)
    ensures (exists x :: Better(t, iso, x)) ==> Better(t, iso, s)
  {
    hide Better;
    if x :| Better(t, iso, x) then x else iso.format(t)
  }

  ghost function Terse(iso: Iso): Iso {
    Iso(t => TerseText(t, iso), iso.parse)
  }

  lemma TerseFormat(t: Temporal, iso: Iso)
    requires KindKept(iso) && SendableText(iso.format(t))
    ensures var s := Terse(iso).format(t);
            SendableText(s) && |Encode(s)| <= |Encode(iso.format(t))| &&
            (!Tight(t, iso) ==> |Encode(s)| < |Encode(iso.format(t))|)
  {
    hide Encode, HookParse, Tight, SendableText;
    if !Tight(t, iso) { var s := LooseIsBeaten(t, iso); }
  }

  lemma TerseIsFaithful(iso: Iso)
    requires Faithful(iso)
    ensures Faithful(Terse(iso))
  {
    hide Encode, SendableText;
    var terse := Terse(iso);
    forall t: Temporal ensures HookParse(terse, t.kind, terse.format(t)) == Some(t) {
      assert HookParse(iso, t.kind, iso.format(t)) == Some(t);
      assert HookParse(terse, t.kind, terse.format(t)) == HookParse(iso, t.kind, TerseText(t, iso));
    }
  }

  // ---------- a reader looks at its parser only ----------

  lemma {:induction false} SameReader(doc: Mp.Doc, a: Iso, b: Iso)
    requires a.parse == b.parse
    ensures Build(doc, Some(a)) == Build(doc, Some(b))
    decreases doc, 2
  {
    hide Build, BuildItems, BuildPairs;
    BuildMany(doc, Some(a));
    BuildMany(doc, Some(b));
    if doc.Array? {
      SameItems(doc, |doc.items|, a, b);
    } else if doc.Map? {
      var n := |doc.flat| / 2;
      SamePairs(doc, n, a, b);
      if BuildPairs(doc, n, Some(a)).Some? { SameRevival(BuildPairs(doc, n, Some(a)).value, a, b); }
    } else {
      SameAtom(doc, a, b);
    }
  }

  lemma SameAtom(doc: Mp.Doc, a: Iso, b: Iso)
    requires !doc.Array? && !doc.Map?
    ensures Build(doc, Some(a)) == Build(doc, Some(b))
  {
  }

  lemma SameRevival(m: map<Key, Data>, a: Iso, b: Iso)
    requires a.parse == b.parse
    ensures Revive(m, a) == Revive(m, b)
  {
    hide TagOf, ValueKey, IsoUtc;
  }

  lemma {:induction false} SameItems(doc: Mp.Doc, n: nat, a: Iso, b: Iso)
    requires doc.Array? && n <= |doc.items| && a.parse == b.parse
    ensures BuildItems(doc, n, Some(a)) == BuildItems(doc, n, Some(b))
    decreases doc, 0, n
  {
    hide Build, BuildItems;
    BuildItemsStep(doc, n, Some(a));
    BuildItemsStep(doc, n, Some(b));
    if n > 0 {
      SameItems(doc, n - 1, a, b);
      SameReader(doc.items[n - 1], a, b);
    }
  }

  lemma {:induction false} SamePairs(doc: Mp.Doc, n: nat, a: Iso, b: Iso)
    requires doc.Map? && 2 * n <= |doc.flat| && a.parse == b.parse
    ensures BuildPairs(doc, n, Some(a)) == BuildPairs(doc, n, Some(b))
    decreases doc, 0, n
  {
    hide Build, BuildPairs, BuildKey;
    BuildPairsStep(doc, n, Some(a));
    BuildPairsStep(doc, n, Some(b));
    if n > 0 {
      SamePairs(doc, n - 1, a, b);
      SameReader(doc.flat[2 * n - 1], a, b);
    }
  }

  // ---------- a reader never returns a sentinel map ----------

  lemma {:induction false} BuiltHasNoSentinel(doc: Mp.Doc, iso: Iso, d: Data)
    requires Build(doc, Some(iso)) == Some(d)
    ensures NoSentinel(d)
    decreases doc, 2
  {
    hide Build, BuildItems, BuildPairs, Revive, SentinelShaped;
    BuildMany(doc, Some(iso));
    if doc.Array? {
      ItemsHaveNoSentinel(doc, |doc.items|, iso);
    } else if doc.Map? {
      var n := |doc.flat| / 2;
      var m := BuildPairs(doc, n, Some(iso)).value;
      PairsHaveNoSentinel(doc, n, iso);
      Revived(m, iso, d);
      if d.Map? { ReviveKeeps(m, d.m, iso); }
    } else {
      AtomHasNoSentinel(doc, iso, d);
    }
  }

  lemma AtomHasNoSentinel(doc: Mp.Doc, iso: Iso, d: Data)
    requires !doc.Array? && !doc.Map? && Build(doc, Some(iso)) == Some(d)
    ensures NoSentinel(d)
  {
  }

  lemma {:induction false} ItemsHaveNoSentinel(doc: Mp.Doc, n: nat, iso: Iso)
    requires doc.Array? && n <= |doc.items| && BuildItems(doc, n, Some(iso)).Some?
    ensures forall i :: 0 <= i < n ==> NoSentinel(BuildItems(doc, n, Some(iso)).value[i])
    decreases doc, 0, n
  {
    hide Build, BuildItems, NoSentinel;
    BuildItemsStep(doc, n, Some(iso));
    if n > 0 {
      ItemsHaveNoSentinel(doc, n - 1, iso);
      BuiltHasNoSentinel(doc.items[n - 1], iso, Build(doc.items[n - 1], Some(iso)).value);
    }
  }

  lemma {:induction false} PairsHaveNoSentinel(doc: Mp.Doc, n: nat, iso: Iso)
    requires doc.Map? && 2 * n <= |doc.flat| && BuildPairs(doc, n, Some(iso)).Some?
    ensures var m := BuildPairs(doc, n, Some(iso)).value; forall k :: k in m ==> NoSentinel(m[k])
    decreases doc, 0, n
  {
    hide Build, BuildPairs, BuildKey, NoSentinel;
    BuildPairsStep(doc, n, Some(iso));
    if n > 0 {
      PairsHaveNoSentinel(doc, n - 1, iso);
      BuiltHasNoSentinel(doc.flat[2 * n - 1], iso, Build(doc.flat[2 * n - 1], Some(iso)).value);
    }
  }

  // ---------- sizes of the two wire forms ----------

  /** The terser printer's wire form is sendable and no longer, and shorter if anything is loose. */
  ghost predicate Terser(d: Data, iso: Iso)
    requires Sendable(Wire(d, iso))
  {
    && Sendable(Wire(d, Terse(iso)))
    && |Canonical(Wire(d, Terse(iso)))| <= |Canonical(Wire(d, iso))|
    && (!AllTight(d, iso) ==> |Canonical(Wire(d, Terse(iso)))| < |Canonical(Wire(d, iso))|)
  }

  lemma {:induction false} WireIsTerser(d: Data, iso: Iso)
    requires KindKept(iso) && Sendable(Wire(d, iso))
    ensures Terser(d, iso)
    decreases d, 2
  {
    hide Wire, Terse, Canonical, Sendable, KindKept, Tight;
    if d.Moment? {
      MomentIsTerser(d.t, iso);
    } else if d.Array? {
      ArrayIsTerser(d, iso);
    } else if d.Map? {
      MapIsTerser(d, iso);
    } else {
      WireLeaf(d, iso);
      WireLeaf(d, Terse(iso));
    }
  }

  lemma {:induction false} MomentIsTerser(t: Temporal, iso: Iso)
    requires KindKept(iso) && Sendable(Wire(Moment(t), iso))
    ensures Terser(Moment(t), iso)
  {
    hide Terse, Canonical, Sendable, KindKept, Tight, SentinelOf, Wire, TagOf, ValueKey, Encode, SendableText;
    var terse := Terse(iso);
    WireLeaf(Moment(t), iso);
    WireLeaf(Moment(t), terse);
    SentinelParts(t, iso);
    TerseFormat(t, iso);
    var m, n := SentinelOf(t, terse), SentinelOf(t, iso);
    SentinelSendable(t, iso, terse);
    SentinelParts(t, terse);
    SentinelEntries(t, iso);
    SentinelEntries(t, terse);
    MemberSizes(m, n, t.kind, terse.format(t), iso.format(t));
    MapSize(Map(m));
    MapSize(Map(n));
    WeightMonotone(m, n, TextKeys(m));
  }

  lemma SentinelEntries(t: Temporal, iso: Iso)
    ensures TagOf(t.kind) in SentinelOf(t, iso) && ValueKey() in SentinelOf(t, iso)
    ensures SentinelOf(t, iso)[TagOf(t.kind)] == Bool(true) && SentinelOf(t, iso)[ValueKey()] == Str(iso.format(t))
  {
    hide TagOf, ValueKey;
    TagsDiffer();
  }

  lemma SentinelSendable(t: Temporal, iso: Iso, other: Iso)
    requires Sendable(Map(SentinelOf(t, iso))) && SendableText(other.format(t))
    ensures Sendable(Map(SentinelOf(t, other)))
  {
    hide TagOf, ValueKey, Encode, SendableText;
    TagsDiffer();
    SentinelParts(t, iso);
    assert TextKeys(SentinelOf(t, other)) == TextKeys(SentinelOf(t, iso));
  }

  lemma {:induction false} ArrayIsTerser(d: Data, iso: Iso)
    requires KindKept(iso) && d.Array? && Sendable(Wire(d, iso))
    ensures Terser(d, iso)
    decreases d, 1
  {
    hide Wire, Terse, Canonical, KindKept, Sendable, DocItems;
    var w, x := Wire(d, iso), Wire(d, Terse(iso));
    WireMany(d, iso);
    WireMany(d, Terse(iso));
    forall i | 0 <= i < |d.items| ensures Sendable(w.items[i]) && Terser(d.items[i], iso) {
      SendableItem(w, i);
      WireIsTerser(d.items[i], iso);
    }
    SendableArray(w, x);
    ItemSizes(d, w, x, |d.items|, iso);
    ArraySize(w);
    ArraySize(x);
  }

  lemma SendableArray(w: Data, x: Data)
    requires w.Array? && x.Array? && Sendable(w) && |x.items| == |w.items|
    requires forall i :: 0 <= i < |x.items| ==> Sendable(x.items[i])
    ensures Sendable(x)
  {
  }

  lemma {:induction false} ItemSizes(d: Data, w: Data, x: Data, n: nat, iso: Iso)
    requires d.Array? && w.Array? && x.Array? && n <= |d.items| == |w.items| == |x.items| && Sendable(w) && Sendable(x)
    requires forall i :: 0 <= i < |d.items| ==>
      w.items[i] == Wire(d.items[i], iso) && x.items[i] == Wire(d.items[i], Terse(iso))
    requires forall i :: 0 <= i < |d.items| ==> Sendable(w.items[i]) && Terser(d.items[i], iso)
    ensures Mp.AllWritable(DocItems(w, n)) && Mp.AllWritable(DocItems(x, n))
    ensures |Mp.WriteAll(DocItems(x, n))| <= |Mp.WriteAll(DocItems(w, n))|
    ensures (exists i :: 0 <= i < n && !AllTight(d.items[i], iso)) ==>
              |Mp.WriteAll(DocItems(x, n))| < |Mp.WriteAll(DocItems(w, n))|
    decreases n
  {
    hide Wire, Terse, Canonical, Sendable, DocItems, Mp.WriteAll, Mp.Writable, AllTight;
    ItemsWritable(w, n);
    ItemsWritable(x, n);
    if n == 0 {
      NoItems(w);
      NoItems(x);
    } else {
      ItemSizes(d, w, x, n - 1, iso);
      ItemsGrow(w, n);
      ItemsGrow(x, n);
      assert Terser(d.items[n - 1], iso);
    }
  }

  lemma NoItems(d: Data)
    requires d.Array? && Sendable(d)
    ensures DocItems(d, 0) == [] && |Mp.WriteAll(DocItems(d, 0))| == 0
  {
  }

  lemma {:induction false} MapIsTerser(d: Data, iso: Iso)
    requires KindKept(iso) && d.Map? && Sendable(Wire(d, iso))
    ensures Terser(d, iso)
    decreases d, 1
  {
    hide Wire, Terse, Canonical, KindKept, Sendable, SendablePair, PairSize, TextKeys;
    var w, x := Wire(d, iso), Wire(d, Terse(iso));
    WireMany(d, iso);
    WireMany(d, Terse(iso));
    forall k | k in d.m ensures k.StrKey? && Sendable(w.m[k]) && Terser(d.m[k], iso) {
      SendableEntry(w, k);
      WireIsTerser(d.m[k], iso);
    }
    SendableMap(w, x);
    MapSize(w);
    MapSize(x);
    SameKeys(w.m, x.m);
    forall k | k in TextKeys(x.m)
      ensures PairSize(x.m, k) <= PairSize(w.m, k)
      ensures !AllTight(d.m[StrKey(k)], iso) ==> PairSize(x.m, k) < PairSize(w.m, k)
    {
      PairParts(w.m, k);
      PairParts(x.m, k);
      assert Terser(d.m[StrKey(k)], iso);
    }
    WeightMonotone(x.m, w.m, TextKeys(x.m));
    if !AllTight(d, iso) {
      var k :| k in d.m && !AllTight(d.m[k], iso);
      TextKeyOf(x.m, k);
      assert PairSize(x.m, k.s) < PairSize(w.m, k.s);
    }
  }

  lemma TextKeyOf(m: map<Key, Data>, k: Key)
    requires k in m && k.StrKey?
    ensures k.s in TextKeys(m) && StrKey(k.s) == k
  {
  }

  lemma SameKeys(m: map<Key, Data>, n: map<Key, Data>)
    requires m.Keys == n.Keys
    ensures TextKeys(m) == TextKeys(n)
    ensures forall k :: k in TextKeys(m) ==> StrKey(k) in m
  {
  }

  lemma SendableMap(w: Data, x: Data)
    requires w.Map? && x.Map? && Sendable(w) && x.m.Keys == w.m.Keys && forall k :: k in x.m ==> Sendable(x.m[k])
    ensures Sendable(x)
  {
    hide SendableText;
    assert TextKeys(x.m) == TextKeys(w.m);
  }

  // ---------- the exact condition ----------

  /** What is stored for `v` is shortest among all byte strings that decode to `v`. */
  ghost predicate IsShortest(v: Py, iso: Iso)
    requires EncodeInterop(v, iso).Ok? && ValueData(v).Some?
  {
    forall b :: DecodeInterop(b, iso) == Value(ValueData(v).value) ==> |EncodeInterop(v, iso).value| <= |b|
  }

  /** The terser printer's document decodes to the same value. */
  lemma {:induction false} TerseDecodes(d: Data, iso: Iso)
    requires Faithful(iso) && Sendable(Wire(d, Terse(iso))) && NoSentinel(d)
    ensures DecodeInterop(Canonical(Wire(d, Terse(iso))), iso) == Value(d)
  {
    hide Wire, Faithful, Sendable, Canonical, DocOf, Build, NoSentinel, DecodeInterop;
    var terse := Terse(iso);
    TerseIsFaithful(iso);
    BuildWire(d, terse);
    SameReader(DocOf(Wire(d, terse)), iso, terse);
    DecodeCanonical(Wire(d, terse), iso);
  }

  lemma {:induction false} DecodedHasNoSentinel(b: seq<Byte>, iso: Iso, d: Data)
    requires DecodeInterop(b, iso) == Value(d)
    ensures NoSentinel(d)
  {
    hide Mp.Parse, Build, NoSentinel, StartsWithMagic;
    BuiltHasNoSentinel(Mp.Parse(b).value.value, iso, d);
  }

  /** The stored form of a value is the shortest one that decodes to it exactly when every temporal
    part is tight; a value with a sentinel-shaped dict is never decoded at all. */
  lemma {:induction false} ShortestIff(v: Py, iso: Iso)
    requires Proper(v) && Faithful(iso) && KindKept(iso) && EncodeInterop(v, iso).Ok?
    ensures ValueData(v).Some?
    ensures IsShortest(v, iso) <==> AllTight(ValueData(v).value, iso) || !NoSentinel(ValueData(v).value)
  {
    hide EncodeInterop, ValueData, Wire, Canonical, Sendable, AllTight, NoSentinel, DecodeInterop, Faithful, KindKept;
    ValueIsCanonical(v, iso);
    var d := ValueData(v).value;
    if !NoSentinel(d) {
      forall b | DecodeInterop(b, iso) == Value(d) ensures false { DecodedHasNoSentinel(b, iso, d); }
    } else if AllTight(d, iso) {
      forall b | DecodeInterop(b, iso) == Value(d) ensures |EncodeInterop(v, iso).value| <= |b| {
        StoredFormIsShortest(v, iso, b);
      }
    } else {
      WireIsTerser(d, iso);
      TerseDecodes(d, iso);
    }
  }

  /** A part whose own text is the only one its reader takes for it is tight. */
  lemma OwnTextIsTight(t: Temporal, iso: Iso)
    requires KindKept(iso) && forall s :: HookParse(iso, t.kind, s) == Some(t) ==> s == iso.format(t)
    ensures Tight(t, iso)
  {
    hide HookParse, Encode;
    if !Tight(t, iso) {
      var s := LooseIsBeaten(t, iso);
    }
  }

  // ---------- datetimes in UTC ----------

  lemma {:induction false} EncodeAppend(a: Text, b: Text)
    requires WellFormed(a) && WellFormed(b)
    ensures WellFormed(a + b) && Encode(a + b) == Encode(a) + Encode(b)
  {
    hide EncodeChar, Scalar;
    if a == [] {
      assert a + b == b;
    } else {
      EncodeAppend(a[1..], b);
      assert (a + b)[0] == a[0] && (a + b)[1..] == a[1..] + b;
      var first, rest := EncodeChar(a[0]), Encode(a[1..]);
      assert first + (rest + Encode(b)) == (first + rest) + Encode(b);
    }
  }

  lemma EncodeAscii(c: int)
    requires 0 <= c < 0x80
    ensures WellFormed([c]) && Encode([c]) == [c]
  {
    assert [c][1..] == [];
  }

  lemma {:induction false} EncodeSuffix(s: Text)
    ensures WellFormed(AsText("Z")) && |Encode(AsText("Z"))| == 1
    ensures WellFormed(AsText("+00:00")) && |Encode(AsText("+00:00"))| >= 6
  {
    EncodeAscii('Z' as int);
    assert AsText("Z") == ['Z' as int];
    NoShorter(AsText("+00:00"));
  }

  lemma {:induction false} NoShorter(s: Text)
    requires WellFormed(s)
    ensures |Encode(s)| >= |s|
  {
    if s != [] { NoShorter(s[1..]); }
  }

  lemma WellFormedPrefix(a: Text, b: Text)
    requires WellFormed(a + b)
    ensures WellFormed(a)
  {
    assert forall i :: 0 <= i < |a| ==> a[i] == (a + b)[i];
  }

  /** A datetime that prints with the offset +00:00 is never tight: Z in its place reads the same. */
  lemma ZuluIsLoose(t: Temporal, iso: Iso, s: Text)
    requires Faithful(iso) && t.kind.DateTimeKind? && iso.format(t) == s + AsText("+00:00")
    requires SendableText(iso.format(t))
    ensures !Tight(t, iso)
  {
    hide Encode;
    var z := s + AsText("Z");
    WellFormedPrefix(s, AsText("+00:00"));
    EncodeSuffix(s);
    EncodeAppend(s, AsText("+00:00"));
    EncodeAppend(s, AsText("Z"));
    assert z[|z| - 1] == 'Z' as int && z[..|z| - 1] == s;
    assert IsoUtc(z) == iso.format(t) && IsoUtc(iso.format(t)) == iso.format(t);
    assert HookParse(iso, t.kind, iso.format(t)) == Some(t) && HookParse(iso, t.kind, z) == Some(t);
  }

  ghost predicate Inside(t: Temporal, d: Data) {
    match d
    case Moment(u) => u == t
    case Array(items) => exists i :: 0 <= i < |items| && Inside(t, items[i])
    case Map(m) => exists k :: k in m && Inside(t, m[k])
    case _ => false
  }

  lemma {:induction false} LooseInside(t: Temporal, d: Data, iso: Iso)
    requires Inside(t, d) && Sendable(Wire(d, iso))
    ensures SendableText(iso.format(t)) && (AllTight(d, iso) ==> Tight(t, iso))
    decreases d
  {
    hide Tight, Wire, Sendable, SendableText;
    WireMany(d, iso);
    if d.Moment? {
      WireLeaf(d, iso);
      SentinelParts(t, iso);
    } else if d.Array? {
      var i :| 0 <= i < |d.items| && Inside(t, d.items[i]);
      SendableItem(Wire(d, iso), i);
      LooseInside(t, d.items[i], iso);
    } else {
      var k :| k in d.m && Inside(t, d.m[k]);
      SendableEntry(Wire(d, iso), k);
      LooseInside(t, d.m[k], iso);
    }
  }

  /** A value that holds such a datetime, at any depth, has a shorter document than the stored one. */
  lemma {:induction false} ZuluIsShorter(v: Py, t: Temporal, iso: Iso, s: Text) returns (b: seq<Byte>)
    requires Proper(v) && Faithful(iso) && KindKept(iso) && EncodeInterop(v, iso).Ok?
    requires ValueData(v).Some? && NoSentinel(ValueData(v).value) && Inside(t, ValueData(v).value)
    requires t.kind.DateTimeKind? && iso.format(t) == s + AsText("+00:00")
    ensures DecodeInterop(b, iso) == Value(ValueData(v).value) && |b| < |EncodeInterop(v, iso).value|
  {
    hide EncodeInterop, ValueData, Wire, Canonical, Sendable, AllTight, NoSentinel, DecodeInterop, Faithful, KindKept;
    hide Tight, Inside;
    ValueIsCanonical(v, iso);
    ShortestIff(v, iso);
    LooseInside(t, ValueData(v).value, iso);
    ZuluIsLoose(t, iso, s);
    b :| DecodeInterop(b, iso) == Value(ValueData(v).value) && |b| < |EncodeInterop(v, iso).value|;
  }
}
