/** Arguments and values that differ only in dict order and list versus tuple, and arguments also in
  set order and int versus integral float, at any depth, are encoded alike. */
module InteropOrder {
  import opened Wrappers
  import opened Bytes
  import opened Utf8
  import opened DataModel
  import opened CanonicalForm
  import opened CanonicalBytes
  import opened Float64
  import opened PyObjects
  import opened InteropArgs
  import opened InteropKeys
  import V = InteropValues

  /** The integer a number argument stands for, when it is one in range. */
  ghost predicate IsNumber(v: Py, n: int) {
    && -0x8000_0000_0000_0000 <= n < 0x1_0000_0000_0000_0000
    && (v == PyInt(n) || (v.PyFloat? && Finite(v.bits) && Value(v.bits) == n as real))
  }

  predicate IsSequence(v: Py) {
    v.PyList? || v.PyTuple?
  }

  /** Arguments are normalised with the Unix time of a datetime, values without one. */
  type Profile = Option<UnixTime>

  ghost function DataIn(v: Py, p: Profile): Option<Data> {
    if p.Some? then ArgData(v, p.value) else V.ValueData(v)
  }

  /** The same argument, or the same value, written in two ways. */
  ghost predicate Alike(v: Py, w: Py, args: bool)
    decreases v, 1
  {
    || v == w
    || (args && exists n :: IsNumber(v, n) && IsNumber(w, n))
    || (IsSequence(v) && IsSequence(w) && |v.items| == |w.items| &&
        forall i :: 0 <= i < |v.items| ==> Alike(v.items[i], w.items[i], args))
    || (args && v.PySet? && w.PySet? &&
        (forall i :: 0 <= i < |v.items| ==> HasElement(v, i, w, args)) &&
        (forall j :: 0 <= j < |w.items| ==> IsElement(v, w, j, args)))
    || (v.PyDict? && w.PyDict? &&
        (forall i :: 0 <= i < |v.entries| ==> HasItem(v, i, w, args)) &&
        (forall j :: 0 <= j < |w.entries| ==> IsItem(v, w, j, args)))
  }

  /** Element i of `v` is like some element of `w`. */
  ghost predicate HasElement(v: Py, i: nat, w: Py, args: bool)
    requires v.PySet? && w.PySet? && i < |v.items|
    decreases v, 0
  {
    exists j :: 0 <= j < |w.items| && Alike(v.items[i], w.items[j], args)
  }

  ghost predicate IsElement(v: Py, w: Py, j: nat, args: bool)
    requires v.PySet? && w.PySet? && j < |w.items|
    decreases v, 0
  {
    exists i :: 0 <= i < |v.items| && Alike(v.items[i], w.items[j], args)
  }

  /** Item i of `v` is like some item of `w` under the same key. */
  ghost predicate HasItem(v: Py, i: nat, w: Py, args: bool)
    requires v.PyDict? && w.PyDict? && i < |v.entries|
    decreases v, 0
  {
    var e := v.entries[i];
    exists j :: 0 <= j < |w.entries| && e.key == w.entries[j].key && Alike(e.value, w.entries[j].value, args)
  }

  ghost predicate IsItem(v: Py, w: Py, j: nat, args: bool)
    requires v.PyDict? && w.PyDict? && j < |w.entries|
    decreases v, 0
  {
    var f := w.entries[j];
    exists i :: 0 <= i < |v.entries| && v.entries[i].key == f.key && Alike(v.entries[i].value, f.value, args)
  }

  // ---------- sequences ----------

  ghost function ItemsIn(v: Py, n: nat, p: Profile): (r: Option<seq<Data>>)
    requires IsSequence(v) && n <= |v.items|
  {
    if p.Some? then ArgItems(v, n, p.value) else V.ValueItems(v, n)
  }

  lemma {:induction false} ItemsSame(v: Py, w: Py, n: nat, p: Profile)
    requires IsSequence(v) && IsSequence(w) && n <= |v.items| == |w.items|
    requires forall i :: 0 <= i < |v.items| ==> DataIn(v.items[i], p) == DataIn(w.items[i], p)
    ensures ItemsIn(v, n, p) == ItemsIn(w, n, p)
  {
    hide ArgData, V.ValueData;
    if n > 0 { ItemsSame(v, w, n - 1, p); }
  }

  lemma {:induction false} SequencesSame(v: Py, w: Py, p: Profile)
    requires IsSequence(v) && IsSequence(w) && |v.items| == |w.items|
    requires forall i :: 0 <= i < |v.items| ==> DataIn(v.items[i], p) == DataIn(w.items[i], p)
    ensures DataIn(v, p) == DataIn(w, p)
  {
    hide ArgItems, V.ValueItems;
    ItemsSame(v, w, |v.items|, p);
  }

  // ---------- sets ----------

  lemma {:induction false} ArgItemsAt(v: Py, n: nat, unix: UnixTime)
    requires v.PyList? || v.PyTuple? || v.PySet?
    requires n <= |v.items|
    ensures var ds := ArgItems(v, n, unix);
            && (ds.Some? <==> forall i :: 0 <= i < n ==> ArgData(v.items[i], unix).Some?)
            && (ds.Some? ==> forall i :: 0 <= i < n ==> ArgData(v.items[i], unix) == Some(ds.value[i]))
  {
    hide ArgData;
    if n > 0 { ArgItemsAt(v, n - 1, unix); }
  }

  ghost predicate SameData(v: Py, w: Py, unix: UnixTime) {
    ArgData(v, unix) == ArgData(w, unix)
  }

  /** `x` stands for what some element of `w` does. */
  ghost predicate InSet(x: Py, w: Py, unix: UnixTime)
    requires w.PySet?
  {
    exists j :: 0 <= j < |w.items| && SameData(x, w.items[j], unix)
  }

  ghost predicate Covered(v: Py, w: Py, unix: UnixTime)
    requires v.PySet? && w.PySet?
  {
    forall i :: 0 <= i < |v.items| ==> InSet(v.items[i], w, unix)
  }

  ghost predicate MembersWithin(ds: seq<Data>, es: seq<Data>) {
    forall d :: d in ds ==> d in es
  }

  lemma {:induction false} CoveredItems(v: Py, w: Py, unix: UnixTime)
    requires v.PySet? && w.PySet? && Covered(v, w, unix) && ArgItems(w, |w.items|, unix).Some?
    ensures ArgItems(v, |v.items|, unix).Some?
    ensures MembersWithin(ArgItems(v, |v.items|, unix).value, ArgItems(w, |w.items|, unix).value)
  {
    hide ArgData, ArgItems;
    ArgItemsAt(v, |v.items|, unix);
    ArgItemsAt(w, |w.items|, unix);
    forall i | 0 <= i < |v.items|
      ensures ArgData(v.items[i], unix).Some? && ArgData(v.items[i], unix).value in ArgItems(w, |w.items|, unix).value
    {
      assert InSet(v.items[i], w, unix);
      var j :| 0 <= j < |w.items| && SameData(v.items[i], w.items[j], unix);
      assert ArgData(w.items[j], unix) == Some(ArgItems(w, |w.items|, unix).value[j]);
    }
  }

  lemma {:induction false} SetsSame(v: Py, w: Py, unix: UnixTime)
    requires v.PySet? && w.PySet? && Covered(v, w, unix) && Covered(w, v, unix)
    ensures ArgData(v, unix) == ArgData(w, unix)
  {
    hide ArgItems, Elements, Sendable, Covered;
    var ds, es := ArgItems(v, |v.items|, unix), ArgItems(w, |w.items|, unix);
    if es.Some? { CoveredItems(v, w, unix); }
    if ds.Some? { CoveredItems(w, v, unix); }
    if ds.Some? && es.Some? {
      assert (set d | d in ds.value) == (set d | d in es.value);
      AllSendableMembers(ds.value, es.value);
      AllSendableMembers(es.value, ds.value);
    }
  }

  lemma AllSendableMembers(ds: seq<Data>, es: seq<Data>)
    requires MembersWithin(ds, es)
    ensures AllSendable(es) ==> AllSendable(ds)
  {
    hide Sendable;
    if AllSendable(es) {
      forall i | 0 <= i < |ds| ensures Sendable(ds[i]) {
        assert ds[i] in ds;
        assert ds[i] in es;
      }
    }
  }

  // ---------- dicts ----------

  ghost function EntriesIn(v: Py, n: nat, p: Profile): Option<map<Key, Data>>
    requires v.PyDict? && n <= |v.entries|
  {
    if p.Some? then ArgEntries(v, n, p.value) else V.ValueEntries(v, n)
  }

  /** Both profiles read a dict item by item. */
  lemma EntriesStep(v: Py, n: nat, p: Profile)
    requires v.PyDict? && n <= |v.entries|
    ensures n == 0 ==> EntriesIn(v, n, p) == Some(map[])
    ensures n > 0 ==>
              var m, e := EntriesIn(v, n - 1, p), v.entries[n - 1];
              var d := DataIn(e.value, p);
              EntriesIn(v, n, p) ==
              if m.None? || d.None? || e.key.NotStr? then None else Some(m.value[StrKey(e.key.s) := d.value])
  {
    hide ArgData, V.ValueData;
  }

  lemma {:induction false} EntriesDefined(v: Py, n: nat, p: Profile)
    requires v.PyDict? && n <= |v.entries|
    ensures EntriesIn(v, n, p).Some? <==>
            forall i :: 0 <= i < n ==> v.entries[i].key.Name? && DataIn(v.entries[i].value, p).Some?
  {
    hide DataIn, EntriesIn;
    EntriesStep(v, n, p);
    if n > 0 { EntriesDefined(v, n - 1, p); }
  }

  lemma {:induction false} EntriesAt(v: Py, n: nat, p: Profile, i: nat)
    requires v.PyDict? && DistinctKeys(v.entries) && i < n <= |v.entries| && EntriesIn(v, n, p).Some?
    ensures var m := EntriesIn(v, n, p).value; var e := v.entries[i];
            && e.key.Name? && StrKey(e.key.s) in m
            && DataIn(e.value, p) == Some(m[StrKey(e.key.s)])
  {
    hide DataIn, EntriesIn;
    EntriesStep(v, n, p);
    if i < n - 1 { EntriesAt(v, n - 1, p, i); }
  }

  lemma {:induction false} EntriesKeys(v: Py, n: nat, p: Profile, k: Key)
    requires v.PyDict? && n <= |v.entries| && EntriesIn(v, n, p).Some? && k in EntriesIn(v, n, p).value
    ensures k.StrKey? && exists i :: 0 <= i < n && v.entries[i].key == Name(k.s)
  {
    hide DataIn, EntriesIn;
    EntriesStep(v, n, p);
    if n > 0 && v.entries[n - 1].key != (if k.StrKey? then Name(k.s) else NotStr) {
      EntriesKeys(v, n - 1, p, k);
    }
  }

  ghost predicate SameItem(e: Entry, f: Entry, p: Profile) {
    e.key == f.key && DataIn(e.value, p) == DataIn(f.value, p)
  }

  /** `e` stands for what some item of `w` does. */
  ghost predicate InDict(e: Entry, w: Py, p: Profile)
    requires w.PyDict?
  {
    exists j :: 0 <= j < |w.entries| && SameItem(e, w.entries[j], p)
  }

  ghost predicate CoveredEntries(v: Py, w: Py, p: Profile)
    requires v.PyDict? && w.PyDict?
  {
    forall i :: 0 <= i < |v.entries| ==> InDict(v.entries[i], w, p)
  }

  lemma {:induction false} CoveredMap(v: Py, w: Py, p: Profile)
    requires v.PyDict? && w.PyDict? && DistinctKeys(v.entries) && DistinctKeys(w.entries)
    requires CoveredEntries(v, w, p) && EntriesIn(w, |w.entries|, p).Some?
    ensures EntriesIn(v, |v.entries|, p).Some?
    ensures var m, n := EntriesIn(v, |v.entries|, p).value, EntriesIn(w, |w.entries|, p).value;
            forall k :: k in m ==> k in n && m[k] == n[k]
  {
    hide DataIn, EntriesIn;
    EntriesDefined(v, |v.entries|, p);
    EntriesDefined(w, |w.entries|, p);
    assert EntriesIn(v, |v.entries|, p).Some?;
    var m, n := EntriesIn(v, |v.entries|, p).value, EntriesIn(w, |w.entries|, p).value;
    forall k | k in m ensures k in n && m[k] == n[k] {
      EntriesKeys(v, |v.entries|, p, k);
      var i :| 0 <= i < |v.entries| && v.entries[i].key == Name(k.s);
      EntriesAt(v, |v.entries|, p, i);
      assert InDict(v.entries[i], w, p);
      var j :| 0 <= j < |w.entries| && SameItem(v.entries[i], w.entries[j], p);
      EntriesAt(w, |w.entries|, p, j);
    }
  }

  lemma DictData(v: Py, p: Profile)
    requires v.PyDict?
    ensures var m := EntriesIn(v, |v.entries|, p); DataIn(v, p) == if m.None? then None else Some(Map(m.value))
  {
    hide ArgEntries, V.ValueEntries;
  }

  lemma {:induction false} DictsSame(v: Py, w: Py, p: Profile)
    requires v.PyDict? && w.PyDict? && DistinctKeys(v.entries) && DistinctKeys(w.entries)
    requires CoveredEntries(v, w, p) && CoveredEntries(w, v, p)
    ensures DataIn(v, p) == DataIn(w, p)
  {
    hide EntriesIn, CoveredEntries, DataIn;
    DictData(v, p);
    DictData(w, p);
    var m, n := EntriesIn(v, |v.entries|, p), EntriesIn(w, |w.entries|, p);
    if n.Some? { CoveredMap(v, w, p); }
    if m.Some? { CoveredMap(w, v, p); }
    if m.Some? && n.Some? { assert m.value == n.value; }
  }

  // ---------- any depth ----------

  lemma {:induction false} AlikeSame(v: Py, w: Py, p: Profile)
    requires Proper(v) && Proper(w) && Alike(v, w, p.Some?)
    ensures DataIn(v, p) == DataIn(w, p)
    decreases v, 1
  {
    hide DataIn, Proper, IsNumber, Alike, HasElement, IsElement, HasItem, IsItem;
    if v == w {
    } else if p.Some? && exists n :: IsNumber(v, n) && IsNumber(w, n) {
      var n :| IsNumber(v, n) && IsNumber(w, n);
      NumberData(v, n, p);
      NumberData(w, n, p);
    } else {
      AlikeCases(v, w, p.Some?);
      if IsSequence(v) {
        forall i | 0 <= i < |v.items| ensures DataIn(v.items[i], p) == DataIn(w.items[i], p) {
          ProperItem(v, i);
          ProperItem(w, i);
          AlikeSame(v.items[i], w.items[i], p);
        }
        SequencesSame(v, w, p);
      } else if v.PySet? {
        AlikeSets(v, w, p.value);
      } else {
        AlikeDicts(v, w, p);
      }
    }
  }

  lemma AlikeCases(v: Py, w: Py, args: bool)
    requires Alike(v, w, args) && v != w && !(args && exists n :: IsNumber(v, n) && IsNumber(w, n))
    ensures (IsSequence(v) && IsSequence(w)) || (args && v.PySet? && w.PySet?) || (v.PyDict? && w.PyDict?)
    ensures IsSequence(v) ==>
              |v.items| == |w.items| && forall i :: 0 <= i < |v.items| ==> Alike(v.items[i], w.items[i], args)
    ensures v.PySet? ==> forall i :: 0 <= i < |v.items| ==> HasElement(v, i, w, args)
    ensures v.PySet? ==> forall j :: 0 <= j < |w.items| ==> IsElement(v, w, j, args)
    ensures v.PyDict? ==> forall i :: 0 <= i < |v.entries| ==> HasItem(v, i, w, args)
    ensures v.PyDict? ==> forall j :: 0 <= j < |w.entries| ==> IsItem(v, w, j, args)
  {
    hide IsNumber, HasElement, IsElement, HasItem, IsItem;
  }

  lemma {:induction false} AlikeSets(v: Py, w: Py, unix: UnixTime)
    requires Proper(v) && Proper(w) && v.PySet? && w.PySet?
    requires forall i :: 0 <= i < |v.items| ==> HasElement(v, i, w, true)
    requires forall j :: 0 <= j < |w.items| ==> IsElement(v, w, j, true)
    ensures DataIn(v, Some(unix)) == DataIn(w, Some(unix))
    decreases v, 0
  {
    hide ArgData, Proper, Alike;
    forall i | 0 <= i < |v.items| ensures InSet(v.items[i], w, unix) {
      assert HasElement(v, i, w, true);
      var j :| 0 <= j < |w.items| && Alike(v.items[i], w.items[j], true);
      ProperItem(v, i);
      ProperItem(w, j);
      AlikeSame(v.items[i], w.items[j], Some(unix));
      assert SameData(v.items[i], w.items[j], unix);
    }
    forall j | 0 <= j < |w.items| ensures InSet(w.items[j], v, unix) {
      assert IsElement(v, w, j, true);
      var i :| 0 <= i < |v.items| && Alike(v.items[i], w.items[j], true);
      ProperItem(v, i);
      ProperItem(w, j);
      AlikeSame(v.items[i], w.items[j], Some(unix));
      assert SameData(w.items[j], v.items[i], unix);
    }
    SetsSame(v, w, unix);
  }

  lemma {:induction false} AlikeDicts(v: Py, w: Py, p: Profile)
    requires Proper(v) && Proper(w) && v.PyDict? && w.PyDict?
    requires forall i :: 0 <= i < |v.entries| ==> HasItem(v, i, w, p.Some?)
    requires forall j :: 0 <= j < |w.entries| ==> IsItem(v, w, j, p.Some?)
    ensures DataIn(v, p) == DataIn(w, p)
    decreases v, 0
  {
    hide DataIn, Proper, Alike;
    forall i | 0 <= i < |v.entries| ensures InDict(v.entries[i], w, p) {
      assert HasItem(v, i, w, p.Some?);
      var e := v.entries[i];
      var j :| 0 <= j < |w.entries| && e.key == w.entries[j].key && Alike(e.value, w.entries[j].value, p.Some?);
      ProperEntry(v, i);
      ProperEntry(w, j);
      AlikeSame(e.value, w.entries[j].value, p);
      assert SameItem(e, w.entries[j], p);
    }
    forall j | 0 <= j < |w.entries| ensures InDict(w.entries[j], v, p) {
      assert IsItem(v, w, j, p.Some?);
      var f := w.entries[j];
      var i :| 0 <= i < |v.entries| && v.entries[i].key == f.key && Alike(v.entries[i].value, f.value, p.Some?);
      ProperEntry(v, i);
      ProperEntry(w, j);
      AlikeSame(v.entries[i].value, f.value, p);
      assert SameItem(f, v.entries[i], p);
    }
    ProperKeys(v);
    ProperKeys(w);
    DictsSame(v, w, p);
  }

  lemma ProperKeys(v: Py)
    requires Proper(v) && v.PyDict?
    ensures DistinctKeys(v.entries)
  {
  }

  lemma NumberData(v: Py, n: int, p: Profile)
    requires IsNumber(v, n) && p.Some?
    ensures DataIn(v, p) == Some(Int(n))
  {
    hide Value, IsInteger, ToInt, Finite;
    if v.PyFloat? { FloatIsItsInteger(v.bits, n, p.value); }
  }

  /** Two calls whose arguments are alike both have a key, the same one, or both have none. */
  lemma {:induction false} SameKey(ns: Text, op: Text, args: seq<Py>, args': seq<Py>, unix: UnixTime,
                                   hash: seq<Byte> -> seq<Byte>)
    requires Proper(PyList(args)) && Proper(PyList(args')) && Alike(PyList(args), PyList(args'), true)
    ensures var k, k' := GenerateKey(ns, op, args, unix, hash), GenerateKey(ns, op, args', unix, hash);
            (k.Ok? <==> k'.Ok?) && (k.Ok? ==> k == k')
  {
    hide CanonicalArgs, ArgData, Canonical, Sendable, Hex, ValidSegment, Proper, Alike;
    AlikeSame(PyList(args), PyList(args'), Some(unix));
    ArgsAreCanonical(args, unix);
    ArgsAreCanonical(args', unix);
  }

  /** Two values that are alike are stored as the same bytes, or neither can be stored. */
  lemma {:induction false} SameStoredBytes(v: Py, w: Py, iso: Iso)
    requires Proper(v) && Proper(w) && Alike(v, w, false)
    ensures var r, r' := V.EncodeInterop(v, iso), V.EncodeInterop(w, iso);
            (r.Ok? <==> r'.Ok?) && (r.Ok? ==> r == r')
  {
    hide V.EncodeInterop, V.ValueData, Canonical, Sendable, Proper, Alike, Wire;
    AlikeSame(v, w, None);
    V.ValueIsCanonical(v, iso);
    V.ValueIsCanonical(w, iso);
  }
}
