/** `_encode` writes exactly the canonical bytes of what its argument means, and fails exactly
  when that is not in the data model. */
module EncoderMeaning {
  import opened Wrappers
  import opened Bytes
  import opened Utf8
  import opened DataModel
  import opened CanonicalForm
  import opened ShortestForm
  import opened CanonicalBytes
  import opened PyObjects
  import Mp = MsgPack

  ghost predicate Agree(r: Result<seq<Byte>>, m: Option<Data>) {
    && (r.Ok? <==> m.Some? && Sendable(m.value))
    && (r.Ok? ==> r.value == Canonical(m.value))
  }

  ghost predicate AgreeAll(r: Result<seq<Byte>>, ms: Option<seq<Data>>) {
    && (r.Ok? <==> ms.Some? && AllSendable(ms.value))
    && (r.Ok? ==> r.value == CanonicalAll(ms.value))
  }

  lemma {:induction false} EncodesAtom(v: Py, collapse: bool)
    requires !v.PyList? && !v.PyTuple? && !v.PyDict? && !v.PreEncoded?
    ensures Agree(EncodeValue(v, collapse), Meaning(v, collapse))
  {
    hide Encode, Mp.WriteHead, Canonical;
    if v.PyNone? || v.PyBool? {
      NilAndBool();
    } else if Meaning(v, collapse).Some? && Sendable(Meaning(v, collapse).value) {
      AtomBytes(Meaning(v, collapse).value);
    }
  }

  lemma NilAndBool()
    ensures Canonical(Nil) == [0xC0] && Canonical(Bool(true)) == [0xC3] && Canonical(Bool(false)) == [0xC2]
  {
    hide Canonical, Mp.WriteHead;
    OneByteHeads();
    OneByte(Nil);
    OneByte(Bool(true));
    OneByte(Bool(false));
  }

  lemma OneByteHeads()
    ensures Mp.WriteHead(Mp.NilHead) == [0xC0]
    ensures Mp.WriteHead(Mp.BoolHead(true)) == [0xC3] && Mp.WriteHead(Mp.BoolHead(false)) == [0xC2]
  {
    OneByteHead(Mp.NilHead);
    OneByteHead(Mp.BoolHead(true));
    OneByteHead(Mp.BoolHead(false));
  }

  lemma OneByteHead(h: Mp.Head)
    requires h.NilHead? || h.BoolHead?
    ensures Mp.WriteHead(h) == [Mp.Shortest(h).tag]
  {
    var f := Mp.Shortest(h);
    assert f.field == 0 && Mp.FieldWidth(f.tag) == 0;
  }

  lemma {:induction false} OneByte(d: Data)
    requires d.Nil? || d.Bool?
    ensures Canonical(d) == Mp.WriteHead(Mp.HeadOfDoc(DocOf(d)))
  {
    hide Mp.WriteHead;
    DocWritable(d);
    assert Mp.Payload(DocOf(d)) == [];
  }

  lemma {:induction false} AtomBytes(d: Data)
    requires Sendable(d)
    ensures d.Int? ==> Canonical(d) == Mp.WriteHead(Mp.IntHead(d.n))
    ensures d.Double? ==> Canonical(d) == Mp.WriteHead(Mp.DoubleHead(d.bits))
    ensures d.Str? ==> Canonical(d) == Mp.WriteHead(Mp.StrHead(|Encode(d.s)|)) + Encode(d.s)
    ensures d.Bin? ==> Canonical(d) == Mp.WriteHead(Mp.BinHead(|d.bytes|)) + d.bytes
  {
    hide Encode, Mp.WriteHead;
    DocWritable(d);
    if !d.Array? && !d.Map? {
      var doc := DocOf(d);
      assert Mp.Write(doc) == Mp.WriteHead(Mp.HeadOfDoc(doc)) + Mp.Payload(doc);
    }
  }

  lemma {:induction false} AppendAll(r: Result<seq<Byte>>, ms: Option<seq<Data>>, s: Result<seq<Byte>>, m: Option<Data>)
    requires AgreeAll(r, ms) && Agree(s, m)
    ensures AgreeAll(Then(r, s), if ms.None? || m.None? then None else Some(ms.value + [m.value]))
  {
    hide Sendable, Canonical;
    if ms.Some? && m.Some? {
      var all := ms.value + [m.value];
      assert all[..|all| - 1] == ms.value && all[|all| - 1] == m.value;
      if AllSendable(all) {
        assert forall i :: 0 <= i < |ms.value| ==> ms.value[i] == all[i];
      }
    }
  }

  lemma {:induction false} ArrayAgrees(n: nat, r: Result<seq<Byte>>, ms: Option<seq<Data>>)
    requires AgreeAll(r, ms) && (ms.Some? ==> |ms.value| == n)
    ensures Agree(Then(EncodeHead(Mp.ArrayHead(n)), r), match ms case None => None case Some(ds) => Some(Array(ds)))
  {
    hide Mp.WriteHead, Canonical;
    if ms.Some? && AllSendable(ms.value) && n < LIMIT {
      CanonicalArray(ms.value);
    }
  }

  lemma {:induction false} ConcatIsCanonicalAll(elements: seq<seq<Byte>>, ds: seq<Data>)
    requires |ds| == |elements| && forall i :: 0 <= i < |ds| ==> Represents(elements[i], ds[i])
    ensures AllSendable(ds) && Concat(elements) == CanonicalAll(ds)
  {
    hide Sendable, Canonical;
    if ds != [] {
      ConcatIsCanonicalAll(elements[..|ds| - 1], ds[..|ds| - 1]);
      assert Represents(elements[|ds| - 1], ds[|ds| - 1]);
    }
  }

  /** The central property of the encoder. */
  lemma {:induction false} EncodesMeaning(v: Py, collapse: bool)
    requires Proper(v)
    ensures Agree(EncodeValue(v, collapse), Meaning(v, collapse))
    decreases v, 2
  {
    hide EncodeItems, MeaningItems, EncodeEntries, MeaningEntries, Agree, AgreeAll, EncodeHead, Then, Concat;
    if v.PyList? || v.PyTuple? {
      EncodesItems(v, |v.items|, collapse);
      ArrayAgrees(|v.items|, EncodeItems(v, |v.items|, collapse), MeaningItems(v, |v.items|, collapse));
    } else if v.PreEncoded? {
      var ds := DecodeElements(v.elements);
      ConcatIsCanonicalAll(v.elements, ds);
      PreEncodedAgrees(Concat(v.elements), ds);
      ArrayAgrees(|v.elements|, Ok(Concat(v.elements)), Some(ds));
    } else if v.PyDict? {
      EncodesDict(v, collapse);
    } else {
      EncodesAtom(v, collapse);
    }
  }

  lemma PreEncodedAgrees(b: seq<Byte>, ds: seq<Data>)
    requires AllSendable(ds) && b == CanonicalAll(ds)
    ensures AgreeAll(Ok(b), Some(ds))
  {
  }

  lemma {:induction false} EncodesItems(v: Py, n: nat, collapse: bool)
    requires Proper(v) && (v.PyList? || v.PyTuple?) && n <= |v.items|
    ensures AgreeAll(EncodeItems(v, n, collapse), MeaningItems(v, n, collapse))
    decreases v, 0, n
  {
    hide EncodeValue, Meaning, Agree, Then;
    if n > 0 {
      EncodesItems(v, n - 1, collapse);
      EncodesMeaning(v.items[n - 1], collapse);
      AppendAll(EncodeItems(v, n - 1, collapse), MeaningItems(v, n - 1, collapse),
                EncodeValue(v.items[n - 1], collapse), Meaning(v.items[n - 1], collapse));
    }
  }

  // ---------- dicts ----------

  lemma {:induction false} FindUnique(entries: seq<Entry>, i: nat)
    requires DistinctKeys(entries) && i < |entries| && entries[i].key.Name?
    ensures entries[i].key.s in Names(entries) && Find(entries, entries[i].key.s) == i
  {
    var k := entries[i].key.s;
    assert k in Names(entries);
    var j := Find(entries, k);
    assert j == i;
  }

  /** Every value of the dict means something. */
  ghost predicate AllMean(v: Py, n: nat, collapse: bool)
    requires v.PyDict? && n <= |v.entries|
  {
    forall i :: 0 <= i < n ==> v.entries[i].key.Name? && Meaning(v.entries[i].value, collapse).Some?
  }

  lemma {:induction false} MeaningDefined(v: Py, n: nat, collapse: bool)
    requires v.PyDict? && n <= |v.entries|
    ensures MeaningEntries(v, n, collapse).Some? <==> AllMean(v, n, collapse)
  {
    hide Meaning;
    if n > 0 {
      MeaningDefined(v, n - 1, collapse);
    }
  }

  lemma {:induction false} MeaningKeys(v: Py, n: nat, collapse: bool)
    requires v.PyDict? && n <= |v.entries| && MeaningEntries(v, n, collapse).Some?
    ensures var m := MeaningEntries(v, n, collapse).value;
            forall k :: k in m <==> k.StrKey? && k.s in Names(v.entries[..n])
  {
    hide Meaning, Names;
    if n > 0 {
      MeaningKeys(v, n - 1, collapse);
      assert v.entries[..n] == v.entries[..n - 1] + [v.entries[n - 1]];
      NamesAppend(v.entries[..n - 1], v.entries[n - 1]);
    } else {
      NoNames();
    }
  }

  lemma NoNames()
    ensures Names([]) == {}
  {
  }

  lemma {:induction false} MeaningAt(v: Py, n: nat, collapse: bool, i: nat)
    requires v.PyDict? && DistinctKeys(v.entries) && i < n <= |v.entries| && MeaningEntries(v, n, collapse).Some?
    ensures var m := MeaningEntries(v, n, collapse).value; var e := v.entries[i];
            && e.key.Name? && StrKey(e.key.s) in m
            && Meaning(e.value, collapse) == Some(m[StrKey(e.key.s)])
  {
    hide Meaning;
    if i < n - 1 {
      MeaningAt(v, n - 1, collapse, i);
    }
  }

  lemma {:induction false} NamesAppend(entries: seq<Entry>, e: Entry)
    requires e.key.Name?
    ensures Names(entries + [e]) == Names(entries) + {e.key.s}
  {
    var all := entries + [e];
    forall k | k in Names(entries) + {e.key.s} ensures k in Names(all) {
      if k == e.key.s {
        assert all[|entries|] == e;
      } else {
        var i :| 0 <= i < |entries| && entries[i].key == Name(k);
        assert all[i] == entries[i];
      }
    }
    forall k | k in Names(all) ensures k in Names(entries) + {e.key.s} {
      var i :| 0 <= i < |all| && all[i].key == Name(k);
      if i < |entries| { assert entries[i] == all[i]; }
    }
  }

  ghost predicate KeySendable(v: Py, k: Text, collapse: bool)
    requires v.PyDict? && k in Names(v.entries)
  {
    var m := Meaning(v.entries[Find(v.entries, k)].value, collapse);
    SendableText(k) && m.Some? && Sendable(m.value)
  }

  lemma {:induction false} EncodesText(k: Text)
    ensures EncodeText(k).Ok? <==> SendableText(k)
    ensures EncodeText(k).Ok? ==> EncodeText(k).value == KeyBytes(k)
  {
    hide Encode, Mp.WriteHead, KeyBytes;
    if SendableText(k) {
      KeyBytesOf(k);
    }
  }

  lemma {:induction false} EntriesOk(v: Py, ks: seq<Text>, collapse: bool)
    requires Proper(v) && v.PyDict? && forall k :: k in ks ==> k in Names(v.entries)
    ensures EncodeEntries(v, ks, collapse).Ok? <==> forall k :: k in ks ==> KeySendable(v, k, collapse)
    decreases v, 0, |ks|
  {
    hide EncodeValue, Meaning, EncodeText, Sendable, SendableText, Names, Canonical, KeyBytes;
    if ks != [] {
      var k := ks[|ks| - 1];
      assert k in ks && ks == ks[..|ks| - 1] + [k];
      EntriesOk(v, ks[..|ks| - 1], collapse);
      EncodesText(k);
      EncodesMeaning(v.entries[Find(v.entries, k)].value, collapse);
    }
  }

  /** `m` holds the meaning of what the dict stores under each of `ks`. */
  ghost predicate Describes(m: map<Key, Data>, v: Py, ks: seq<Text>, collapse: bool)
    requires v.PyDict? && forall k :: k in ks ==> k in Names(v.entries)
  {
    forall k :: k in ks ==>
      StrKey(k) in m && Meaning(v.entries[Find(v.entries, k)].value, collapse) == Some(m[StrKey(k)])
  }

  lemma {:induction false} EntriesBytes(v: Py, ks: seq<Text>, collapse: bool, m: map<Key, Data>)
    requires Proper(v) && v.PyDict? && forall k :: k in ks ==> k in Names(v.entries)
    requires EncodeEntries(v, ks, collapse).Ok? && Describes(m, v, ks, collapse)
    ensures forall k :: k in ks ==> SendablePair(m, k)
    ensures EncodeEntries(v, ks, collapse).value == CanonicalPairs(m, ks)
    decreases v, 0, |ks|
  {
    hide EncodeValue, Meaning, EncodeText, Sendable, SendableText, Names, Canonical, KeyBytes;
    if ks != [] {
      var k := ks[|ks| - 1];
      assert k in ks && ks == ks[..|ks| - 1] + [k];
      EntriesBytes(v, ks[..|ks| - 1], collapse, m);
      EncodesText(k);
      EncodesMeaning(v.entries[Find(v.entries, k)].value, collapse);
      assert SendablePair(m, k);
    }
  }

  lemma {:induction false} DictMeaning(v: Py, collapse: bool)
    requires v.PyDict?
    ensures Meaning(v, collapse) ==
            match MeaningEntries(v, |v.entries|, collapse) case None => None case Some(m) => Some(Map(m))
    ensures EncodeValue(v, collapse) ==
            if !AllStr(v.entries) then Err(KeyNotStr)
            else var ks := Sorted(Names(v.entries));
                 Then(EncodeHead(Mp.MapHead(|ks|)), EncodeEntries(v, ks, collapse))
  {
    hide MeaningEntries, EncodeEntries, Mp.WriteHead;
  }

  lemma {:induction false} DescribesAll(v: Py, m: map<Key, Data>, collapse: bool)
    requires v.PyDict? && DistinctKeys(v.entries) && MeaningEntries(v, |v.entries|, collapse) == Some(m)
    ensures Describes(m, v, Sorted(Names(v.entries)), collapse)
    ensures TextKeys(m) == Names(v.entries) && AllStr(v.entries)
    ensures forall k :: k in m ==> k.StrKey?
  {
    hide Meaning, MeaningEntries, Names;
    MeaningKeys(v, |v.entries|, collapse);
    assert v.entries[..|v.entries|] == v.entries;
    forall k | k in Names(v.entries)
      ensures StrKey(k) in m && Meaning(v.entries[Find(v.entries, k)].value, collapse) == Some(m[StrKey(k)])
    {
      MeaningAt(v, |v.entries|, collapse, Find(v.entries, k));
    }
    MeaningDefined(v, |v.entries|, collapse);
  }

  lemma {:induction false} SendableDict(v: Py, m: map<Key, Data>, collapse: bool)
    requires v.PyDict? && TextKeys(m) == Names(v.entries) && forall k :: k in m ==> k.StrKey?
    requires Describes(m, v, Sorted(Names(v.entries)), collapse)
    ensures var ks := Sorted(Names(v.entries));
            Sendable(Map(m)) <==> |ks| < LIMIT && forall k :: k in ks ==> KeySendable(v, k, collapse)
  {
    hide Meaning, Find, SendableText;
    var ks := Sorted(Names(v.entries));
    forall k | k in m ensures k.s in ks {
      assert k.s in TextKeys(m);
    }
    if forall k :: k in ks ==> KeySendable(v, k, collapse) {
      forall k | k in m ensures k.StrKey? && SendableText(k.s) && Sendable(m[k]) {
        assert KeySendable(v, k.s, collapse) && k == StrKey(k.s);
      }
    }
  }

  lemma {:induction false} EncodesDict(v: Py, collapse: bool)
    requires Proper(v) && v.PyDict?
    ensures Agree(EncodeValue(v, collapse), Meaning(v, collapse))
    decreases v, 1
  {
    hide EncodeValue, Meaning, MeaningEntries, EncodeEntries, Mp.WriteHead, Canonical, Sendable, SendableText, Find;
    hide Describes, AllStr, KeySendable;
    var entries := v.entries;
    var ks := Sorted(Names(entries));
    DictMeaning(v, collapse);
    EntriesOk(v, ks, collapse);
    var om := MeaningEntries(v, |entries|, collapse);
    if om.Some? {
      var m := om.value;
      DescribesAll(v, m, collapse);
      SendableDict(v, m, collapse);
      if Sendable(Map(m)) {
        EntriesBytes(v, ks, collapse, m);
        CanonicalMap(Map(m));
      }
    } else {
      NoMeaning(v, collapse);
    }
  }

  lemma {:induction false} NoMeaning(v: Py, collapse: bool)
    requires Proper(v) && v.PyDict? && MeaningEntries(v, |v.entries|, collapse).None?
    ensures AllStr(v.entries) ==>
              exists k :: k in Sorted(Names(v.entries)) && !KeySendable(v, k, collapse)
  {
    hide Meaning, MeaningEntries, SendableText, Sendable, Find;
    MeaningDefined(v, |v.entries|, collapse);
    if AllStr(v.entries) {
      var i :| 0 <= i < |v.entries| && Meaning(v.entries[i].value, collapse).None?;
      FindUnique(v.entries, i);
      assert !KeySendable(v, v.entries[i].key.s, collapse);
    }
  }

  /** Encodings are prefix-free, and equal encodings encode equal values: in the value profile
    the same value, in the argument profile the same after number collapse. */
  lemma {:induction false} EncodingPrefixFree(v: Py, w: Py, collapse: bool, x: seq<Byte>, y: seq<Byte>)
    requires Proper(v) && Proper(w)
    requires EncodeValue(v, collapse).Ok? && EncodeValue(w, collapse).Ok?
    requires EncodeValue(v, collapse).value + x == EncodeValue(w, collapse).value + y
    ensures Meaning(v, collapse) == Meaning(w, collapse) && x == y
  {
    hide EncodeValue, Meaning, Canonical, Sendable;
    EncodesMeaning(v, collapse);
    EncodesMeaning(w, collapse);
    CanonicalPrefixFree(Meaning(v, collapse).value, Meaning(w, collapse).value, x, y);
  }
}
