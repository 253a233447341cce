/** Argument normalisation and the canonical argument bytes behind every interop key. */
module InteropArgs {
  import opened Wrappers
  import opened Bytes
  import opened DataModel
  import opened CanonicalForm
  import opened CanonicalBytes
  import opened Float64
  import opened PyObjects
  import opened EncoderMeaning

  /** The Unix time of an aware datetime as a float; None for a naive one. */
  type UnixTime = Temporal -> Option<Bits>

  // ---------- _normalize_arg ----------

  ghost function NormalizeArg(v: Py, unix: UnixTime): Result<Py>
    decreases v
  {
    match v
    case PyTemporal(t) =>
      if t.kind != DateTimeKind then Err(BadType)
      else (match unix(t) case None => Err(Naive) case Some(bits) => Ok(PyFloat(bits)))
    case PyUuid(text) => Ok(PyStr(text))
    case PySet(items) =>
      (match EncodeElements(v, |items|, unix) case Err(e) => Err(e) case Ok(bs) => Ok(PreEncoded(SortedBytes(bs))))
    case PyList(items) => (match NormalizeItems(v, |items|, unix) case Err(e) => Err(e) case Ok(ns) => Ok(PyList(ns)))
    case PyTuple(items) => (match NormalizeItems(v, |items|, unix) case Err(e) => Err(e) case Ok(ns) => Ok(PyList(ns)))
    case PyDict(entries) =>
      (match NormalizeEntries(v, |entries|, unix) case Err(e) => Err(e) case Ok(es) => Ok(PyDict(es)))
    case PyEnum(member) => NormalizeArg(member, unix)
    case PyPath(posix) => Ok(PyStr(posix))
    case PyDecimal(text) => Ok(PyStr(text))
    case PreEncoded(_) => Err(BadType)
    case PyOther => Err(BadType)
    case _ => Ok(v)
  }

  /** `sorted` on a set of byte strings. */
  ghost function SortedByteStrings(words: set<seq<Byte>>): (r: seq<seq<Byte>>)
    ensures SortedOf(r, words)
  {
    var r := Sorted(words);
    assert forall i :: 0 <= i < |r| ==> r[i] in r;
    r
  }

  ghost function SortedBytes(bs: seq<seq<Byte>>): seq<seq<Byte>> {
    SortedByteStrings(set b | b in bs)
  }

  ghost function EncodeElements(v: Py, n: nat, unix: UnixTime): Result<seq<seq<Byte>>>
    requires v.PySet? && n <= |v.items|
    decreases v, n
  {
    if n == 0 then Ok([])
    else
      var bs := EncodeElements(v, n - 1, unix);
      if bs.Err? then bs
      else
        var b := CanonicalArg(NormalizeArg(v.items[n - 1], unix));
        if b.Err? then Err(b.error) else Ok(bs.value + [b.value])
  }

  /** Encode what normalisation returned. */
  ghost function CanonicalArg(normalized: Result<Py>): Result<seq<Byte>> {
    if normalized.Err? then Err(normalized.error) else EncodeValue(normalized.value, true)
  }

  ghost function NormalizeItems(v: Py, n: nat, unix: UnixTime): (r: Result<seq<Py>>)
    requires v.PyList? || v.PyTuple?
    requires n <= |v.items|
    ensures r.Ok? ==> |r.value| == n
    decreases v, n
  {
    if n == 0 then Ok([])
    else
      var ns := NormalizeItems(v, n - 1, unix);
      if ns.Err? then ns
      else
        var x := NormalizeArg(v.items[n - 1], unix);
        if x.Err? then Err(x.error) else Ok(ns.value + [x.value])
  }

  ghost function NormalizeEntries(v: Py, n: nat, unix: UnixTime): (r: Result<seq<Entry>>)
    requires v.PyDict? && n <= |v.entries|
    ensures r.Ok? ==> |r.value| == n
    decreases v, n
  {
    if n == 0 then Ok([])
    else
      var es := NormalizeEntries(v, n - 1, unix);
      if es.Err? then es
      else
        var e := v.entries[n - 1];
        if e.key.NotStr? then Err(KeyNotStr)
        else
          var x := NormalizeArg(e.value, unix);
          if x.Err? then Err(x.error) else Ok(es.value + [Entry(e.key, x.value)])
  }

  /** `canonical_args_bytes`. */
  ghost function CanonicalArgs(args: seq<Py>, unix: UnixTime): Result<seq<Byte>> {
    CanonicalArg(NormalizeArg(PyList(args), unix))
  }

  // ---------- what an argument stands for ----------

  ghost function CanonicalSet(ds: set<Data>): set<seq<Byte>>
    requires forall d :: d in ds ==> Sendable(d)
  {
    set d | d in ds :: Canonical(d)
  }

  /** The elements of a set in the order of their canonical bytes. */
  ghost function Elements(ds: set<Data>): (r: seq<Data>)
    requires forall d :: d in ds ==> Sendable(d)
  {
    var words := CanonicalSet(ds);
    var sorted := SortedByteStrings(words);
    assert forall i :: 0 <= i < |sorted| ==> IsCanonical(sorted[i]) by {
      hide Sendable, Canonical;
      forall i | 0 <= i < |sorted| ensures IsCanonical(sorted[i]) {
        assert sorted[i] in sorted;
        var d :| d in ds && Canonical(d) == sorted[i];
        assert Represents(sorted[i], d);
      }
    }
    DecodeElements(sorted)
  }

  /** The value of an argument in the data model: no insertion or iteration order, no list
    versus tuple, numbers collapsed.  None when it has none. */
  ghost function ArgData(v: Py, unix: UnixTime): Option<Data>
    decreases v
  {
    match v
    case PyTemporal(t) =>
      if t.kind != DateTimeKind || unix(t).None? then None else Meaning(PyFloat(unix(t).value), true)
    case PyUuid(text) => Some(Str(text))
    case PyPath(posix) => Some(Str(posix))
    case PyDecimal(text) => Some(Str(text))
    case PyEnum(member) => ArgData(member, unix)
    case PyList(items) => (match ArgItems(v, |items|, unix) case None => None case Some(ds) => Some(Array(ds)))
    case PyTuple(items) => (match ArgItems(v, |items|, unix) case None => None case Some(ds) => Some(Array(ds)))
    case PySet(items) =>
      var ds := ArgItems(v, |items|, unix);
      if ds.None? || !AllSendable(ds.value) then None else Some(Array(Elements(set d | d in ds.value)))
    case PyDict(entries) => (match ArgEntries(v, |entries|, unix) case None => None case Some(m) => Some(Map(m)))
    case PreEncoded(_) => None
    case PyOther => None
    case _ => Meaning(v, true)
  }

  ghost function ArgItems(v: Py, n: nat, unix: UnixTime): (r: Option<seq<Data>>)
    requires v.PyList? || v.PyTuple? || v.PySet?
    requires n <= |v.items|
    ensures r.Some? ==> |r.value| == n
    decreases v, n
  {
    if n == 0 then Some([])
    else
      var ds := ArgItems(v, n - 1, unix);
      var d := ArgData(v.items[n - 1], unix);
      if ds.None? || d.None? then None else Some(ds.value + [d.value])
  }

  ghost function ArgEntries(v: Py, n: nat, unix: UnixTime): Option<map<Key, Data>>
    requires v.PyDict? && n <= |v.entries|
    decreases v, n
  {
    if n == 0 then Some(map[])
    else
      var m := ArgEntries(v, n - 1, unix);
      var e := v.entries[n - 1];
      var d := ArgData(e.value, unix);
      if m.None? || d.None? || e.key.NotStr? then None else Some(m.value[StrKey(e.key.s) := d.value])
  }

  // ---------- normalisation keeps the value ----------

  /** Normalising succeeds on what has a value and yields an encoder input with that value. */
  ghost predicate Keeps(normalized: Result<Py>, m: Option<Data>) {
    && (normalized.Err? ==> m.None?)
    && (normalized.Ok? ==> Proper(normalized.value) && Meaning(normalized.value, true) == m)
  }

  lemma {:induction false} NormalizeKeeps(v: Py, unix: UnixTime)
    requires Proper(v)
    ensures Keeps(NormalizeArg(v, unix), ArgData(v, unix))
    decreases v, 2
  {
    if v.PyEnum? {
      hide Meaning;
      NormalizeKeeps(v.member, unix);
    } else if v.PyList? || v.PyTuple? {
      NormalizeItemsKeeps(v, unix);
    } else if v.PySet? {
      NormalizeSetKeeps(v, unix);
    } else if v.PyDict? {
      NormalizeDictKeeps(v, unix);
    }
  }

  lemma {:induction false} NormalizedItems(v: Py, n: nat, unix: UnixTime)
    requires Proper(v) && (v.PyList? || v.PyTuple?) && n <= |v.items|
    ensures var r := NormalizeItems(v, n, unix);
            && (r.Err? ==> ArgItems(v, n, unix).None?)
            && (r.Ok? ==> forall i :: 0 <= i < n ==> Keeps(Ok(r.value[i]), ArgData(v.items[i], unix)))
    decreases v, 0, n
  {
    hide NormalizeArg, ArgData, Meaning, Proper;
    if n > 0 {
      NormalizedItems(v, n - 1, unix);
      ProperItem(v, n - 1);
      NormalizeKeeps(v.items[n - 1], unix);
    }
  }

  lemma {:induction false} ProperItem(v: Py, i: nat)
    requires Proper(v) && (v.PyList? || v.PyTuple? || v.PySet?) && i < |v.items|
    ensures Proper(v.items[i])
  {
  }

  lemma {:induction false} SameItems(l: Py, v: Py, n: nat, unix: UnixTime)
    requires l.PyList? && (v.PyList? || v.PyTuple?) && |l.items| == |v.items| && n <= |v.items|
    requires forall i :: 0 <= i < |v.items| ==> Keeps(Ok(l.items[i]), ArgData(v.items[i], unix))
    ensures MeaningItems(l, n, true) == ArgItems(v, n, unix)
    decreases n
  {
    hide ArgData, Meaning, Proper;
    if n > 0 { SameItems(l, v, n - 1, unix); }
  }

  lemma {:induction false} NormalizeItemsKeeps(v: Py, unix: UnixTime)
    requires Proper(v) && (v.PyList? || v.PyTuple?)
    ensures Keeps(NormalizeArg(v, unix), ArgData(v, unix))
    decreases v, 1
  {
    hide NormalizeItems, ArgItems, MeaningItems;
    NormalizedItems(v, |v.items|, unix);
    var r := NormalizeItems(v, |v.items|, unix);
    if r.Ok? {
      SameItems(PyList(r.value), v, |v.items|, unix);
    }
  }

  // sets

  lemma {:induction false} EncodedElements(v: Py, n: nat, unix: UnixTime)
    requires Proper(v) && v.PySet? && n <= |v.items|
    ensures var r := EncodeElements(v, n, unix); var ds := ArgItems(v, n, unix);
            && (r.Ok? <==> ds.Some? && AllSendable(ds.value))
            && (r.Ok? ==> |r.value| == n && forall i :: 0 <= i < n ==> Represents(r.value[i], ds.value[i]))
    decreases v, 0, n
  {
    hide NormalizeArg, ArgData, Meaning, Proper, EncodeValue, Sendable, Canonical;
    if n > 0 {
      EncodedElements(v, n - 1, unix);
      ProperItem(v, n - 1);
      NormalizeKeeps(v.items[n - 1], unix);
      var x := NormalizeArg(v.items[n - 1], unix);
      if x.Ok? { EncodesMeaning(x.value, true); }
      var ds, d := ArgItems(v, n - 1, unix), ArgData(v.items[n - 1], unix);
      if ds.Some? && d.Some? { AllSendableAppend(ds.value, d.value); }
    }
  }

  lemma {:induction false} AllSendableAppend(ds: seq<Data>, d: Data)
    ensures AllSendable(ds + [d]) <==> AllSendable(ds) && Sendable(d)
  {
    hide Sendable;
    if AllSendable(ds + [d]) {
      assert forall i :: 0 <= i < |ds| ==> ds[i] == (ds + [d])[i];
      assert (ds + [d])[|ds|] == d;
    }
  }

  lemma {:induction false} SameElements(bs: seq<seq<Byte>>, ds: seq<Data>)
    requires |bs| == |ds| && AllSendable(ds) && forall i :: 0 <= i < |ds| ==> Represents(bs[i], ds[i])
    ensures (set b | b in bs) == CanonicalSet(set d | d in ds)
  {
    hide Sendable, Canonical;
    var words := CanonicalSet(set d | d in ds);
    forall b | b in bs ensures b in words {
      var i :| 0 <= i < |bs| && bs[i] == b;
      assert ds[i] in ds && Represents(bs[i], ds[i]);
    }
    forall b | b in words ensures b in bs {
      var d :| d in ds && Canonical(d) == b;
      var i :| 0 <= i < |ds| && ds[i] == d;
      assert Represents(bs[i], ds[i]);
    }
  }

  lemma {:induction false} NormalizeSetKeeps(v: Py, unix: UnixTime)
    requires Proper(v) && v.PySet?
    ensures Keeps(NormalizeArg(v, unix), ArgData(v, unix))
    decreases v, 1
  {
    hide EncodeElements, ArgItems, Sendable, Canonical;
    EncodedElements(v, |v.items|, unix);
    var r := EncodeElements(v, |v.items|, unix);
    if r.Ok? {
      var ds := ArgItems(v, |v.items|, unix).value;
      SameElements(r.value, ds);
      var sorted := SortedBytes(r.value);
      forall i | 0 <= i < |sorted| ensures IsCanonical(sorted[i]) {
        assert sorted[i] in sorted;
        var j :| 0 <= j < |r.value| && r.value[j] == sorted[i];
        assert Represents(r.value[j], ds[j]);
      }
    }
  }

  // dicts

  lemma {:induction false} ProperEntry(v: Py, i: nat)
    requires Proper(v) && v.PyDict? && i < |v.entries|
    ensures Proper(v.entries[i].value)
  {
  }

  lemma {:induction false} NormalizedEntries(v: Py, n: nat, unix: UnixTime)
    requires Proper(v) && v.PyDict? && n <= |v.entries|
    ensures var r := NormalizeEntries(v, n, unix);
            && (r.Err? ==> ArgEntries(v, n, unix).None?)
            && (r.Ok? ==> forall i :: 0 <= i < n ==>
                  r.value[i].key == v.entries[i].key && Keeps(Ok(r.value[i].value), ArgData(v.entries[i].value, unix)))
    decreases v, 0, n
  {
    hide NormalizeArg, ArgData, Meaning, Proper;
    if n > 0 {
      NormalizedEntries(v, n - 1, unix);
      ProperEntry(v, n - 1);
      NormalizeKeeps(v.entries[n - 1].value, unix);
    }
  }

  lemma {:induction false} SameEntries(d: Py, v: Py, n: nat, unix: UnixTime)
    requires d.PyDict? && v.PyDict? && |d.entries| == |v.entries| && n <= |v.entries|
    requires forall i :: 0 <= i < |v.entries| ==>
      d.entries[i].key == v.entries[i].key && Keeps(Ok(d.entries[i].value), ArgData(v.entries[i].value, unix))
    ensures MeaningEntries(d, n, true) == ArgEntries(v, n, unix)
    decreases n
  {
    hide ArgData, Meaning, Proper;
    if n > 0 { SameEntries(d, v, n - 1, unix); }
  }

  lemma {:induction false} NormalizeDictKeeps(v: Py, unix: UnixTime)
    requires Proper(v) && v.PyDict?
    ensures Keeps(NormalizeArg(v, unix), ArgData(v, unix))
    decreases v, 1
  {
    hide NormalizeEntries, ArgEntries, MeaningEntries;
    NormalizedEntries(v, |v.entries|, unix);
    var r := NormalizeEntries(v, |v.entries|, unix);
    if r.Ok? {
      SameEntries(PyDict(r.value), v, |v.entries|, unix);
    }
  }

  // ---------- the canonical argument bytes ----------

  /** The argument bytes are the canonical bytes of the argument list's value; they exist exactly
    when every argument is in the data model. */
  lemma {:induction false} ArgsAreCanonical(args: seq<Py>, unix: UnixTime)
    requires Proper(PyList(args))
    ensures Agree(CanonicalArgs(args, unix), ArgData(PyList(args), unix))
  {
    hide NormalizeArg, ArgData, Meaning, EncodeValue;
    NormalizeKeeps(PyList(args), unix);
    var n := NormalizeArg(PyList(args), unix);
    if n.Ok? { EncodesMeaning(n.value, true); }
  }

  /** The elements of a set argument: each value once, by increasing canonical bytes. */
  lemma {:induction false} ElementsOrdered(ds: set<Data>)
    requires forall d :: d in ds ==> Sendable(d)
    ensures forall d :: d in Elements(ds) <==> d in ds
    ensures AllSendable(Elements(ds))
    ensures forall i, j :: 0 <= i < j < |Elements(ds)| ==>
              LexLess(Canonical(Elements(ds)[i]), Canonical(Elements(ds)[j]))
  {
    hide Sendable, Canonical, LexLess;
    var words := CanonicalSet(ds);
    var sorted := SortedByteStrings(words);
    var r := Elements(ds);
    assert forall i :: 0 <= i < |r| ==> Represents(sorted[i], r[i]);
    forall d | d in r ensures d in ds {
      var i :| 0 <= i < |r| && r[i] == d;
      assert sorted[i] in sorted;
      var e :| e in ds && Canonical(e) == sorted[i];
      CanonicalInjective(d, e);
    }
    forall d | d in ds ensures d in r {
      assert Canonical(d) in words;
      var i :| 0 <= i < |sorted| && sorted[i] == Canonical(d);
      assert Represents(sorted[i], r[i]);
      CanonicalInjective(d, r[i]);
    }
  }
}
