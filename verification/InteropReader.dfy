/** What a reader of interop values makes of a byte string, stated without the reader: the value
  a document denotes, in whatever permitted forms it is written. */
module InteropReader {
  import opened Wrappers
  import opened Bytes
  import opened Utf8
  import opened DataModel
  import opened CanonicalForm
  import opened InteropValues
  import Mp = MsgPack
  import Forms = MsgPackForms

  // ---------- what a document denotes ----------

  /** `true` under the sentinel key `tag` and a string under "value". */
  ghost predicate Flagged(m: map<Key, Data>, tag: string) {
    && StrKey(AsText(tag)) in m && m[StrKey(AsText(tag))] == Bool(true)
    && StrKey(AsText("value")) in m && m[StrKey(AsText("value"))].Str?
  }

  /** The text that `fromisoformat` is given for `s`: a final Z or z is written +00:00. */
  ghost predicate Spoken(s: Text, u: Text) {
    || (exists init :: Zulu(s, init) && u == init + AsText("+00:00"))
    || (u == s && forall init :: !Zulu(s, init))
  }

  predicate Zulu(s: Text, init: Text) {
    s == init + ['Z' as int] || s == init + ['z' as int]
  }

  /** `d` is the temporal value of kind `k` that the text of the sentinel `m` stands for. */
  ghost predicate Stamp(m: map<Key, Data>, k: Kind, iso: Iso, d: Data)
    requires StrKey(AsText("value")) in m && m[StrKey(AsText("value"))].Str?
  {
    var s := m[StrKey(AsText("value"))].s;
    d.Moment? && exists u :: (if k == DateKind then u == s else Spoken(s, u)) && iso.parse(k, u) == Some(d.t)
  }

  /** A sentinel map stands for its temporal value, datetime before date before time; any other
    map for itself. */
  ghost predicate Revives(m: map<Key, Data>, iso: Iso, d: Data) {
    if Flagged(m, "__datetime__") then Stamp(m, DateTimeKind, iso, d)
    else if Flagged(m, "__date__") then Stamp(m, DateKind, iso, d)
    else if Flagged(m, "__time__") then Stamp(m, TimeKind, iso, d)
    else d == Map(m)
  }

  /** Keys are text or bytes. */
  ghost predicate KeyDenotes(doc: Mp.Doc, k: Key) {
    match k
    case StrKey(s) => WellFormed(s) && doc == Mp.Str(Encode(s))
    case BinKey(bytes) => doc == Mp.Bin(bytes)
  }

  /** `doc` denotes `d`. */
  ghost predicate Denotes(doc: Mp.Doc, d: Data, iso: Iso)
    decreases doc, 2
  {
    match doc
    case Nil => d == Nil
    case Bool(b) => d == Bool(b)
    case Int(n) => d == Int(n)
    case Double(bits) => d == Double(bits)
    case Single(bits) => d == Single(bits)
    case Str(utf8) => d.Str? && WellFormed(d.s) && Encode(d.s) == utf8
    case Bin(bytes) => d == Bin(bytes)
    case Ext(code, bytes) => d == Ext(code, bytes)
    case Array(items) =>
      d.Array? && |d.items| == |items| && forall i :: 0 <= i < |items| ==> Denotes(items[i], d.items[i], iso)
    case Map(flat) => exists m :: Pairs(doc, |flat| / 2, m, iso) && Revives(m, iso, d)
  }

  /** The first `n` pairs of a map document denote `m`: each key of theirs, with the value of the
    last pair that has it. */
  ghost predicate Pairs(doc: Mp.Doc, n: nat, m: map<Key, Data>, iso: Iso)
    requires doc.Map? && 2 * n <= |doc.flat|
    decreases doc, 1, 1
  {
    && (forall i :: 0 <= i < n ==> PairIn(doc, i, m, iso))
    && forall k :: k in m ==> exists i :: 0 <= i < n && LastAt(doc, n, i, k) && ValueAt(doc, i, m[k], iso)
  }

  ghost predicate PairIn(doc: Mp.Doc, i: nat, m: map<Key, Data>, iso: Iso)
    requires doc.Map? && 2 * i + 1 < |doc.flat|
    decreases doc, 1, 0
  {
    exists k, v :: k in m && KeyAt(doc, i, k) && ValueAt(doc, i, v, iso)
  }

  ghost predicate KeyAt(doc: Mp.Doc, i: nat, k: Key)
    requires doc.Map? && 2 * i + 1 < |doc.flat|
  {
    KeyDenotes(doc.flat[2 * i], k)
  }

  ghost predicate ValueAt(doc: Mp.Doc, i: nat, v: Data, iso: Iso)
    requires doc.Map? && 2 * i + 1 < |doc.flat|
    decreases doc, 0
  {
    Denotes(doc.flat[2 * i + 1], v, iso)
  }

  /** Pair `i` is the last of the first `n` with the key `k`. */
  ghost predicate LastAt(doc: Mp.Doc, n: nat, i: nat, k: Key)
    requires doc.Map? && 2 * n <= |doc.flat| && i < n
  {
    KeyAt(doc, i, k) && forall j :: i < j < n ==> !KeyAt(doc, j, k)
  }

  // ---------- the reader builds what a document denotes ----------

  lemma KeyIff(doc: Mp.Doc, k: Key)
    ensures BuildKey(doc) == Some(k) <==> KeyDenotes(doc, k)
  {
    hide Encode, Decode;
    if doc.Str? && k.StrKey? {
      TextIff(doc.utf8, k.s);
    }
  }

  lemma TextIff(utf8: seq<Byte>, s: Text)
    ensures Decode(utf8) == Some(s) <==> WellFormed(s) && Encode(s) == utf8
  {
    if Decode(utf8) == Some(s) { DecodeSound(utf8, s); }
    if WellFormed(s) { RoundTrip(s); }
  }

  lemma SpokenIff(s: Text, u: Text)
    ensures Spoken(s, u) <==> u == IsoUtc(s)
  {
    hide AsText;
    if s != [] {
      var init, last := s[..|s| - 1], s[|s| - 1];
      assert s == init + [last];
      assert last == 'Z' as int || last == 'z' as int ==> Zulu(s, init);
    }
    forall x | Zulu(s, x)
      ensures s != [] && x == s[..|s| - 1] && (s[|s| - 1] == 'Z' as int || s[|s| - 1] == 'z' as int)
    {
    }
  }

  lemma FlaggedIff(m: map<Key, Data>, k: Kind)
    ensures Tagged(m, k) <==>
            Flagged(m, match k
                       case DateTimeKind => "__datetime__" case DateKind => "__date__" case TimeKind => "__time__")
  {
    hide AsText;
  }

  lemma StampIff(m: map<Key, Data>, k: Kind, iso: Iso, d: Data)
    requires Tagged(m, k) && StrKey(AsText("value")) in m && m[StrKey(AsText("value"))].Str?
    ensures ParseTemporal(iso, k, m[ValueKey()].s) == Some(d) <==> Stamp(m, k, iso, d)
  {
    hide AsText, Spoken, IsoUtc;
    var s := m[ValueKey()].s;
    forall u ensures Spoken(s, u) <==> u == IsoUtc(s) { SpokenIff(s, u); }
  }

  lemma RevivesIff(m: map<Key, Data>, iso: Iso, d: Data)
    ensures Revive(m, iso) == Some(d) <==> Revives(m, iso, d)
  {
    hide Stamp, ParseTemporal, AsText;
    FlaggedIff(m, DateTimeKind);
    FlaggedIff(m, DateKind);
    FlaggedIff(m, TimeKind);
    if Tagged(m, DateTimeKind) { StampIff(m, DateTimeKind, iso, d); }
    if Tagged(m, DateKind) { StampIff(m, DateKind, iso, d); }
    if Tagged(m, TimeKind) { StampIff(m, TimeKind, iso, d); }
  }

  lemma {:induction false} BuildIff(doc: Mp.Doc, iso: Iso, d: Data)
    ensures Build(doc, Some(iso)) == Some(d) <==> Denotes(doc, d, iso)
    decreases doc, 3
  {
    hide Build, Denotes, BuildItems, BuildPairs, Pairs, Revive, Revives;
    BuildMany(doc, Some(iso));
    DenotesMany(doc, d, iso);
    if doc.Array? {
      var n := |doc.items|;
      if d.Array? && |d.items| == n {
        ItemsIff(doc, n, iso, d.items);
      }
    } else if doc.Map? {
      var n := |doc.flat| / 2;
      forall m ensures BuildPairs(doc, n, Some(iso)) == Some(m) <==> Pairs(doc, n, m, iso) { PairsIff(doc, n, iso, m); }
      forall m ensures Revive(m, iso) == Some(d) <==> Revives(m, iso, d) { RevivesIff(m, iso, d); }
      if BuildPairs(doc, n, Some(iso)).Some? {
        var m := BuildPairs(doc, n, Some(iso)).value;
        assert Pairs(doc, n, m, iso);
      }
    } else {
      AtomIff(doc, iso, d);
    }
  }

  lemma DenotesMany(doc: Mp.Doc, d: Data, iso: Iso)
    ensures doc.Array? ==>
      (Denotes(doc, d, iso) <==>
       d.Array? && |d.items| == |doc.items| &&
       forall i :: 0 <= i < |doc.items| ==> Denotes(doc.items[i], d.items[i], iso))
    ensures doc.Map? ==>
      (Denotes(doc, d, iso) <==> exists m :: Pairs(doc, |doc.flat| / 2, m, iso) && Revives(m, iso, d))
  {
    hide Pairs, Revives;
  }

  lemma AtomIff(doc: Mp.Doc, iso: Iso, d: Data)
    requires !doc.Array? && !doc.Map?
    ensures Build(doc, Some(iso)) == Some(d) <==> Denotes(doc, d, iso)
  {
    hide Encode, Decode;
    if doc.Str? && d.Str? { TextIff(doc.utf8, d.s); }
  }

  lemma {:induction false} ItemsIff(doc: Mp.Doc, n: nat, iso: Iso, ds: seq<Data>)
    requires doc.Array? && n <= |doc.items| && |ds| == n
    ensures BuildItems(doc, n, Some(iso)) == Some(ds) <==> forall i :: 0 <= i < n ==> Denotes(doc.items[i], ds[i], iso)
    decreases doc, 0, n
  {
    hide Build, Denotes, BuildItems;
    BuildItemsStep(doc, n, Some(iso));
    if n > 0 {
      var init, last := ds[..n - 1], ds[n - 1];
      assert ds == init + [last];
      ItemsIff(doc, n - 1, iso, init);
      BuildIff(doc.items[n - 1], iso, last);
      var r, v := BuildItems(doc, n - 1, Some(iso)), Build(doc.items[n - 1], Some(iso));
      if r.Some? && v.Some? { AppendIff(r.value, v.value, init, last); }
    }
  }

  // pairs

  lemma {:induction false} ValueIff(doc: Mp.Doc, i: nat, iso: Iso, v: Data)
    requires doc.Map? && 2 * i + 1 < |doc.flat|
    ensures ValueAt(doc, i, v, iso) <==> Build(doc.flat[2 * i + 1], Some(iso)) == Some(v)
    decreases doc, 0
  {
    BuildIff(doc.flat[2 * i + 1], iso, v);
  }

  /** What is built from the first `n` pairs is what they denote. */
  lemma {:induction false} BuiltPairs(doc: Mp.Doc, n: nat, iso: Iso)
    requires doc.Map? && 2 * n <= |doc.flat| && BuildPairs(doc, n, Some(iso)).Some?
    ensures Pairs(doc, n, BuildPairs(doc, n, Some(iso)).value, iso)
    decreases doc, 1, n
  {
    hide Build, BuildPairs, BuildKey, KeyDenotes, ValueAt;
    BuildPairsStep(doc, n, Some(iso));
    if n > 0 {
      BuiltPairs(doc, n - 1, iso);
      var before, m := BuildPairs(doc, n - 1, Some(iso)).value, BuildPairs(doc, n, Some(iso)).value;
      var k := BuildKey(doc.flat[2 * n - 2]).value;
      KeyIff(doc.flat[2 * n - 2], k);
      ValueIff(doc, n - 1, iso, m[k]);
      PairsNext(doc, n, before, k, m[k], iso);
    }
  }

  lemma PairsNext(doc: Mp.Doc, n: nat, m: map<Key, Data>, k: Key, v: Data, iso: Iso)
    requires doc.Map? && 0 < n && 2 * n <= |doc.flat| && Pairs(doc, n - 1, m, iso)
    requires KeyAt(doc, n - 1, k) && ValueAt(doc, n - 1, v, iso)
    ensures Pairs(doc, n, m[k := v], iso)
  {
    hide KeyDenotes, ValueAt;
    var next := m[k := v];
    forall i | 0 <= i < n ensures PairIn(doc, i, next, iso) {
      if i < n - 1 {
        assert PairIn(doc, i, m, iso);
        var j, w :| j in m && KeyAt(doc, i, j) && ValueAt(doc, i, w, iso);
        assert j in next;
      } else {
        assert k in next;
      }
    }
    forall j | j in next ensures exists i :: 0 <= i < n && LastAt(doc, n, i, j) && ValueAt(doc, i, next[j], iso) {
      if j == k {
        assert LastAt(doc, n, n - 1, k);
      } else {
        var i :| 0 <= i < n - 1 && LastAt(doc, n - 1, i, j) && ValueAt(doc, i, m[j], iso);
        OneKey(doc.flat[2 * n - 2], j, k);
        assert LastAt(doc, n, i, j);
      }
    }
  }

  lemma OneKey(doc: Mp.Doc, j: Key, k: Key)
    requires KeyDenotes(doc, k) && j != k
    ensures !KeyDenotes(doc, j)
  {
    hide KeyDenotes;
    KeyIff(doc, j);
    KeyIff(doc, k);
  }

  /** Pairs that denote something are built. */
  lemma {:induction false} PairsAreBuilt(doc: Mp.Doc, n: nat, m: map<Key, Data>, iso: Iso)
    requires doc.Map? && 2 * n <= |doc.flat| && forall i :: 0 <= i < n ==> PairIn(doc, i, m, iso)
    ensures BuildPairs(doc, n, Some(iso)).Some?
    decreases doc, 1, n
  {
    hide Build, BuildPairs, BuildKey, KeyDenotes, ValueAt;
    BuildPairsStep(doc, n, Some(iso));
    if n > 0 {
      PairsAreBuilt(doc, n - 1, m, iso);
      assert PairIn(doc, n - 1, m, iso);
      var k, v :| k in m && KeyAt(doc, n - 1, k) && ValueAt(doc, n - 1, v, iso);
      KeyIff(doc.flat[2 * n - 2], k);
      ValueIff(doc, n - 1, iso, v);
    }
  }

  /** The pairs determine the map. */
  lemma {:induction false} PairsUnique(doc: Mp.Doc, n: nat, a: map<Key, Data>, b: map<Key, Data>, iso: Iso)
    requires doc.Map? && 2 * n <= |doc.flat| && Pairs(doc, n, a, iso) && Pairs(doc, n, b, iso)
    ensures a == b
    decreases doc, 1, n
  {
    hide Build, KeyDenotes, ValueAt;
    SameKeys(doc, n, a, b, iso);
    SameKeys(doc, n, b, a, iso);
    forall k | k in a ensures a[k] == b[k] {
      var i :| 0 <= i < n && LastAt(doc, n, i, k) && ValueAt(doc, i, a[k], iso);
      var j :| 0 <= j < n && LastAt(doc, n, j, k) && ValueAt(doc, j, b[k], iso);
      assert i == j;
      ValueIff(doc, i, iso, a[k]);
      ValueIff(doc, i, iso, b[k]);
    }
  }

  lemma SameKeys(doc: Mp.Doc, n: nat, a: map<Key, Data>, b: map<Key, Data>, iso: Iso)
    requires doc.Map? && 2 * n <= |doc.flat| && Pairs(doc, n, a, iso) && Pairs(doc, n, b, iso)
    ensures a.Keys <= b.Keys
  {
    hide KeyDenotes, ValueAt;
    forall k | k in a ensures k in b {
      var i :| 0 <= i < n && LastAt(doc, n, i, k) && ValueAt(doc, i, a[k], iso);
      assert PairIn(doc, i, b, iso);
      var j, v :| j in b && KeyAt(doc, i, j) && ValueAt(doc, i, v, iso);
      if j != k { OneKey(doc.flat[2 * i], k, j); }
    }
  }

  lemma {:induction false} PairsIff(doc: Mp.Doc, n: nat, iso: Iso, m: map<Key, Data>)
    requires doc.Map? && 2 * n <= |doc.flat|
    ensures BuildPairs(doc, n, Some(iso)) == Some(m) <==> Pairs(doc, n, m, iso)
    decreases doc, 2, n
  {
    hide BuildPairs, PairIn, LastAt, ValueAt;
    if BuildPairs(doc, n, Some(iso)) == Some(m) {
      BuiltPairs(doc, n, iso);
    } else if Pairs(doc, n, m, iso) {
      PairsAreBuilt(doc, n, m, iso);
      BuiltPairs(doc, n, iso);
      PairsUnique(doc, n, m, BuildPairs(doc, n, Some(iso)).value, iso);
      assert false;
    }
  }

  // ---------- decode_interop_value ----------

  /** Decoding yields `d` exactly for the byte strings that spell, in any permitted forms, one
    document that denotes `d`, unless they start with the frame magic CK. */
  lemma DecodeIff(b: seq<Byte>, iso: Iso, d: Data)
    ensures DecodeInterop(b, iso) == Value(d) <==>
            && !(|b| >= 2 && b[0] == 'C' as int && b[1] == 'K' as int)
            && exists s :: Forms.WellSpelled(s) && Forms.Spell(s) == b && Denotes(Forms.DocOf(s), d, iso)
  {
    hide Mp.Parse, Build, Denotes, Forms.WellSpelled, Forms.Spell, Forms.DocOf;
    if Mp.Parse(b).Some? {
      var p := Mp.Parse(b).value;
      Forms.ParseIff(b, p.value, p.rest);
      BuildIff(p.value, iso, d);
      if p.rest == [] {
        var s := Forms.ParsedIsSpelled(b);
        assert Forms.Spell(s) == b;
      }
    }
    forall s | Forms.WellSpelled(s) && Forms.Spell(s) == b
      ensures Mp.Parse(b) == Some(Mp.Parsed(Forms.DocOf(s), []))
    {
      Forms.ParseSpelled(s, []);
      assert b + [] == b;
    }
  }

  /** An integer in any permitted form, signed or unsigned, of any width, decodes to itself. */
  lemma IntegerDecodes(v: int, t: Byte, w: nat, n: nat, iso: Iso)
    requires Forms.Permits(Mp.IntHead(v), t, w, n)
    ensures DecodeInterop([t] + BigEndian(n, w), iso) == Value(Int(v))
  {
    var s := Forms.Spelled(Mp.IntHead(v), t, w, n, [], []);
    assert Forms.WellSpelled(s) && Forms.DocOf(s) == Mp.Int(v) && Forms.Spell(s) == [t] + BigEndian(n, w);
    assert Denotes(Mp.Int(v), Int(v), iso);
    DecodeIff([t] + BigEndian(n, w), iso, Int(v));
  }
}
