/** The Python objects interop mode handles, and the functions of interop.py on them.

  A dict is its list of items in insertion order, a set the list of its elements in iteration
  order.  Errors are values. */
module PyObjects {
  import opened Wrappers
  import opened Bytes
  import opened Utf8
  import opened DataModel
  import opened Float64
  import Mp = MsgPack

  datatype Py =
    | PyNone
    | PyBool(b: bool)
    | PyInt(n: int)
    | PyFloat(bits: Bits)
    | PyStr(s: Text)
    | PyBytes(bytes: seq<Byte>)
    | PyList(items: seq<Py>)
    | PyTuple(items: seq<Py>)
    | PyDict(entries: seq<Entry>)
    | PySet(items: seq<Py>)
    | PyTemporal(t: Temporal)
    | PyUuid(text: Text)
    | PyEnum(member: Py)
    | PyPath(posix: Text)
    | PyDecimal(text: Text)
    | PreEncoded(elements: seq<seq<Byte>>)
    | PyOther

  datatype Name = Name(s: Text) | NotStr

  datatype Entry = Entry(key: Name, value: Py)

  datatype Error = IntRange | NotFinite | Surrogate | KeyNotStr | BadType | Naive | TooLong | BadSegment

  datatype Result<+T> = Ok(value: T) | Err(error: Error)

  // ---------- dicts ----------

  function Names(entries: seq<Entry>): set<Text> {
    set i | 0 <= i < |entries| && entries[i].key.Name? :: entries[i].key.s
  }

  predicate AllStr(entries: seq<Entry>) {
    forall i :: 0 <= i < |entries| ==> entries[i].key.Name?
  }

  /** The index of the item stored under `k`. */
  function Find(entries: seq<Entry>, k: Text): (i: nat)
    requires k in Names(entries)
    ensures i < |entries| && entries[i].key == Name(k)
  {
    if entries[|entries| - 1].key == Name(k) then |entries| - 1 else Find(entries[..|entries| - 1], k)
  }

  /** What every Python dict guarantees: a key occurs once. */
  ghost predicate DistinctKeys(entries: seq<Entry>) {
    forall i, j :: 0 <= i < j < |entries| && entries[i].key.Name? ==> entries[i].key != entries[j].key
  }

  ghost predicate Proper(v: Py) {
    match v
    case PyList(items) => forall i :: 0 <= i < |items| ==> Proper(items[i])
    case PyTuple(items) => forall i :: 0 <= i < |items| ==> Proper(items[i])
    case PySet(items) => forall i :: 0 <= i < |items| ==> Proper(items[i])
    case PyDict(entries) => DistinctKeys(entries) && forall i :: 0 <= i < |entries| ==> Proper(entries[i].value)
    case PyEnum(member) => Proper(member)
    case PreEncoded(elements) => AllCanonical(elements)
    case _ => true
  }

  ghost predicate Represents(b: seq<Byte>, d: Data) {
    Sendable(d) && Canonical(d) == b
  }

  ghost predicate IsCanonical(b: seq<Byte>) {
    exists d :: Represents(b, d)
  }

  ghost predicate AllCanonical(elements: seq<seq<Byte>>) {
    forall i :: 0 <= i < |elements| ==> IsCanonical(elements[i])
  }

  // ---------- the encoder ----------

  ghost function EncodeHead(h: Mp.Head): Result<seq<Byte>>
  {
    if Mp.WritableHead(h) then Ok(Mp.WriteHead(h)) else Err(if h.IntHead? then IntRange else TooLong)
  }

  ghost function Then(a: Result<seq<Byte>>, b: Result<seq<Byte>>): Result<seq<Byte>> {
    if a.Err? then a else if b.Err? then b else Ok(a.value + b.value)
  }

  ghost function EncodeText(s: Text): Result<seq<Byte>> {
    if !WellFormed(s) then Err(Surrogate) else Then(EncodeHead(Mp.StrHead(|Encode(s)|)), Ok(Encode(s)))
  }

  /** In-range integral floats collapse to integers in the argument profile. */
  predicate Collapses(bits: Bits, collapse: bool) {
    collapse && IsInteger(bits) && -0x8000_0000_0000_0000 <= ToInt(bits) < 0x1_0000_0000_0000_0000
  }

  /** The bytes `_encode` appends for `v`, or the first error it meets. */
  ghost function EncodeValue(v: Py, collapse: bool): Result<seq<Byte>>
    decreases v
  {
    match v
    case PyNone => Ok([0xC0])
    case PyBool(b) => Ok([if b then 0xC3 else 0xC2])
    case PyInt(n) => EncodeHead(Mp.IntHead(n))
    case PyFloat(bits) =>
      if !Finite(bits) then Err(NotFinite)
      else if Collapses(bits, collapse) then EncodeHead(Mp.IntHead(ToInt(bits)))
      else EncodeHead(Mp.DoubleHead(bits))
    case PyStr(s) => EncodeText(s)
    case PyBytes(bytes) => Then(EncodeHead(Mp.BinHead(|bytes|)), Ok(bytes))
    case PreEncoded(elements) => Then(EncodeHead(Mp.ArrayHead(|elements|)), Ok(Concat(elements)))
    case PyList(items) => Then(EncodeHead(Mp.ArrayHead(|items|)), EncodeItems(v, |items|, collapse))
    case PyTuple(items) => Then(EncodeHead(Mp.ArrayHead(|items|)), EncodeItems(v, |items|, collapse))
    case PyDict(entries) =>
      if !AllStr(entries) then Err(KeyNotStr)
      else
        var ks := Sorted(Names(entries));
        Then(EncodeHead(Mp.MapHead(|ks|)), EncodeEntries(v, ks, collapse))
    case _ => Err(BadType)
  }

  ghost function EncodeItems(v: Py, n: nat, collapse: bool): Result<seq<Byte>>
    requires v.PyList? || v.PyTuple?
    requires n <= |v.items|
    decreases v, n
  {
    if n == 0 then Ok([]) else Then(EncodeItems(v, n - 1, collapse), EncodeValue(v.items[n - 1], collapse))
  }

  ghost function EncodeEntries(v: Py, ks: seq<Text>, collapse: bool): Result<seq<Byte>>
    requires v.PyDict? && forall k :: k in ks ==> k in Names(v.entries)
    decreases v, |ks|
  {
    if ks == [] then Ok([])
    else
      var k := ks[|ks| - 1];
      assert k in ks;
      Then(EncodeEntries(v, ks[..|ks| - 1], collapse),
           Then(EncodeText(k), EncodeValue(v.entries[Find(v.entries, k)].value, collapse)))
  }

  // ---------- what the encoded bytes mean ----------

  /** The value an encoder input stands for; None outside the data model. */
  ghost function Meaning(v: Py, collapse: bool): Option<Data>
    decreases v
  {
    match v
    case PyNone => Some(Nil)
    case PyBool(b) => Some(Bool(b))
    case PyInt(n) => Some(Int(n))
    case PyFloat(bits) =>
      if !Finite(bits) then None
      else if Collapses(bits, collapse) then Some(Int(ToInt(bits)))
      else Some(Double(bits))
    case PyStr(s) => Some(Str(s))
    case PyBytes(bytes) => Some(Bin(bytes))
    case PreEncoded(elements) =>
      if AllCanonical(elements) then Some(Array(DecodeElements(elements))) else None
    case PyList(items) => (match MeaningItems(v, |items|, collapse) case None => None case Some(ds) => Some(Array(ds)))
    case PyTuple(items) => (match MeaningItems(v, |items|, collapse) case None => None case Some(ds) => Some(Array(ds)))
    case PyDict(entries) =>
      (match MeaningEntries(v, |entries|, collapse) case None => None case Some(m) => Some(Map(m)))
    case _ => None
  }

  ghost function DataOf(b: seq<Byte>): (d: Data)
    requires IsCanonical(b)
    ensures Represents(b, d)
  {
    var d :| Represents(b, d);
    d
  }

  ghost predicate AllRepresent(elements: seq<seq<Byte>>, ds: seq<Data>) {
    |ds| == |elements| && forall i :: 0 <= i < |ds| ==> Represents(elements[i], ds[i])
  }

  lemma RepresentOneMore(elements: seq<seq<Byte>>, ds: seq<Data>, d: Data)
    requires elements != [] && AllRepresent(elements[..|elements| - 1], ds)
    requires Represents(elements[|elements| - 1], d)
    ensures AllRepresent(elements, ds + [d])
  {
    hide Represents;
  }

  ghost function DecodeElements(elements: seq<seq<Byte>>): (ds: seq<Data>)
    requires AllCanonical(elements)
    ensures AllRepresent(elements, ds)
  {
    hide Represents, IsCanonical;
    if elements == [] then []
    else
      var init, last := elements[..|elements| - 1], elements[|elements| - 1];
      var ds, d := DecodeElements(init), DataOf(last);
      RepresentOneMore(elements, ds, d);
      ds + [d]
  }

  ghost function MeaningItems(v: Py, n: nat, collapse: bool): (r: Option<seq<Data>>)
    requires v.PyList? || v.PyTuple?
    requires n <= |v.items|
    ensures r.Some? ==> |r.value| == n
    decreases v, n
  {
    if n == 0 then Some([])
    else
      var ds := MeaningItems(v, n - 1, collapse);
      var d := Meaning(v.items[n - 1], collapse);
      if ds.None? || d.None? then None else Some(ds.value + [d.value])
  }

  ghost function MeaningEntries(v: Py, n: nat, collapse: bool): Option<map<Key, Data>>
    requires v.PyDict? && n <= |v.entries|
    decreases v, n
  {
    if n == 0 then Some(map[])
    else
      var m := MeaningEntries(v, n - 1, collapse);
      var e := v.entries[n - 1];
      var d := Meaning(e.value, collapse);
      if m.None? || d.None? || e.key.NotStr? then None else Some(m.value[StrKey(e.key.s) := d.value])
  }
}
