/** Interop values: what is stored for a value and what a reader gets back. */
module InteropValues {
  import opened Wrappers
  import opened Bytes
  import opened Utf8
  import opened DataModel
  import opened CanonicalForm
  import opened ShortestForm
  import opened PyObjects
  import opened EncoderMeaning
  import Mp = MsgPack

  // ---------- _normalize_value and encode_interop_value ----------

  function Sentinel(t: Temporal, iso: Iso): Py {
    PyDict([Entry(Name(TagOf(t.kind).s), PyBool(true)), Entry(Name(ValueKey().s), PyStr(iso.format(t)))])
  }

  function NormalizeValue(v: Py, iso: Iso): Result<Py>
    decreases v
  {
    match v
    case PyNone => Ok(v)
    case PyBool(_) => Ok(v)
    case PyInt(_) => Ok(v)
    case PyFloat(_) => Ok(v)
    case PyStr(_) => Ok(v)
    case PyBytes(_) => Ok(v)
    case PyTemporal(t) => Ok(Sentinel(t, iso))
    case PyList(items) => (match NormalizeItems(v, |items|, iso) case Err(e) => Err(e) case Ok(ns) => Ok(PyList(ns)))
    case PyTuple(items) => (match NormalizeItems(v, |items|, iso) case Err(e) => Err(e) case Ok(ns) => Ok(PyList(ns)))
    case PyDict(entries) =>
      (match NormalizeEntries(v, |entries|, iso) case Err(e) => Err(e) case Ok(es) => Ok(PyDict(es)))
    case _ => Err(BadType)
  }

  function NormalizeItems(v: Py, n: nat, iso: Iso): (r: Result<seq<Py>>)
    requires v.PyList? || v.PyTuple?
    requires n <= |v.items|
    ensures r.Ok? ==> |r.value| == n
    decreases v, n
  {
    if n == 0 then Ok([])
    else
      var ns := NormalizeItems(v, n - 1, iso);
      if ns.Err? then ns
      else
        var x := NormalizeValue(v.items[n - 1], iso);
        if x.Err? then Err(x.error) else Ok(ns.value + [x.value])
  }

  function NormalizeEntries(v: Py, n: nat, iso: Iso): (r: Result<seq<Entry>>)
    requires v.PyDict? && n <= |v.entries|
    ensures r.Ok? ==> |r.value| == n
    decreases v, n
  {
    if n == 0 then Ok([])
    else
      var es := NormalizeEntries(v, n - 1, iso);
      if es.Err? then es
      else
        var e := v.entries[n - 1];
        if e.key.NotStr? then Err(KeyNotStr)
        else
          var x := NormalizeValue(e.value, iso);
          if x.Err? then Err(x.error) else Ok(es.value + [Entry(e.key, x.value)])
  }

  /** `encode_interop_value`. */
  ghost function EncodeInterop(v: Py, iso: Iso): Result<seq<Byte>> {
    var n := NormalizeValue(v, iso);
    if n.Err? then Err(n.error) else EncodeValue(n.value, false)
  }

  // ---------- what a value stands for ----------

  /** The value in the data model, temporal objects kept; None when it cannot be sent. */
  ghost function ValueData(v: Py): Option<Data>
    decreases v
  {
    match v
    case PyTemporal(t) => Some(Moment(t))
    case PyList(items) => (match ValueItems(v, |items|) case None => None case Some(ds) => Some(Array(ds)))
    case PyTuple(items) => (match ValueItems(v, |items|) case None => None case Some(ds) => Some(Array(ds)))
    case PyDict(entries) => (match ValueEntries(v, |entries|) case None => None case Some(m) => Some(Map(m)))
    case PreEncoded(_) => None
    case _ => Meaning(v, false)
  }

  ghost function ValueItems(v: Py, n: nat): (r: Option<seq<Data>>)
    requires v.PyList? || v.PyTuple?
    requires n <= |v.items|
    ensures r.Some? ==> |r.value| == n
    decreases v, n
  {
    if n == 0 then Some([])
    else
      var ds := ValueItems(v, n - 1);
      var d := ValueData(v.items[n - 1]);
      if ds.None? || d.None? then None else Some(ds.value + [d.value])
  }

  ghost function ValueEntries(v: Py, n: nat): Option<map<Key, Data>>
    requires v.PyDict? && n <= |v.entries|
    decreases v, n
  {
    if n == 0 then Some(map[])
    else
      var m := ValueEntries(v, n - 1);
      var e := v.entries[n - 1];
      var d := ValueData(e.value);
      if m.None? || d.None? || e.key.NotStr? then None else Some(m.value[StrKey(e.key.s) := d.value])
  }

  // ---------- normalisation sends the wire form ----------

  ghost predicate Sends(normalized: Result<Py>, m: Option<Data>, iso: Iso) {
    && (normalized.Err? ==> m.None?)
    && (normalized.Ok? ==> Proper(normalized.value))
    && (normalized.Ok? ==>
          Meaning(normalized.value, false) == match m case None => None case Some(d) => Some(Wire(d, iso)))
  }

  lemma {:induction false} NormalizeSends(v: Py, iso: Iso)
    requires Proper(v)
    ensures Sends(NormalizeValue(v, iso), ValueData(v), iso)
    decreases v, 2
  {
    if v.PyTemporal? {
      SentinelSends(v.t, iso);
    } else if v.PyList? || v.PyTuple? {
      ItemsSend(v, iso);
    } else if v.PyDict? {
      DictSends(v, iso);
    }
  }

  lemma {:induction false} SentinelSends(t: Temporal, iso: Iso)
    ensures Sends(Ok(Sentinel(t, iso)), Some(Moment(t)), iso)
  {
    hide TagOf, ValueKey;
    TagsDiffer();
    var d := Sentinel(t, iso);
    assert MeaningEntries(d, 0, false) == Some(map[]);
    assert MeaningEntries(d, 1, false) == Some(map[StrKey(TagOf(t.kind).s) := Bool(true)]);
    assert StrKey(TagOf(t.kind).s) == TagOf(t.kind) && StrKey(ValueKey().s) == ValueKey();
    assert MeaningEntries(d, 2, false) == Some(SentinelOf(t, iso));
    assert Proper(d);
  }

  lemma {:induction false} ItemsSent(v: Py, n: nat, iso: Iso)
    requires Proper(v) && (v.PyList? || v.PyTuple?) && n <= |v.items|
    ensures var r := NormalizeItems(v, n, iso);
            && (r.Err? ==> ValueItems(v, n).None?)
            && (r.Ok? ==> forall i :: 0 <= i < n ==> Sends(Ok(r.value[i]), ValueData(v.items[i]), iso))
    decreases v, 0, n
  {
    hide NormalizeValue, ValueData, Meaning, Proper, Wire;
    if n > 0 {
      ItemsSent(v, n - 1, iso);
      ProperMember(v, n - 1);
      NormalizeSends(v.items[n - 1], iso);
    }
  }

  lemma {:induction false} ProperMember(v: Py, i: nat)
    requires Proper(v)
    ensures (v.PyList? || v.PyTuple?) && i < |v.items| ==> Proper(v.items[i])
    ensures v.PyDict? && i < |v.entries| ==> Proper(v.entries[i].value)
  {
  }

  lemma {:induction false} WiredItems(l: Py, v: Py, n: nat, iso: Iso)
    requires l.PyList? && (v.PyList? || v.PyTuple?) && |l.items| == |v.items| && n <= |v.items|
    requires forall i :: 0 <= i < |v.items| ==> Sends(Ok(l.items[i]), ValueData(v.items[i]), iso)
    ensures var ms, ds := MeaningItems(l, n, false), ValueItems(v, n);
            && (ms.Some? <==> ds.Some?)
            && (ms.Some? ==> forall i :: 0 <= i < n ==> ms.value[i] == Wire(ds.value[i], iso))
    decreases n
  {
    hide ValueData, Meaning, Proper, Wire;
    if n > 0 { WiredItems(l, v, n - 1, iso); }
  }

  lemma {:induction false} ItemsSend(v: Py, iso: Iso)
    requires Proper(v) && (v.PyList? || v.PyTuple?)
    ensures Sends(NormalizeValue(v, iso), ValueData(v), iso)
    decreases v, 1
  {
    hide NormalizeItems, ValueItems, MeaningItems, Wire;
    var n := |v.items|;
    ItemsSent(v, n, iso);
    var r := NormalizeItems(v, n, iso);
    if r.Ok? {
      WiredItems(PyList(r.value), v, n, iso);
      var ms, ds := MeaningItems(PyList(r.value), n, false), ValueItems(v, n);
      if ms.Some? {
        WireMany(Array(ds.value), iso);
        assert Wire(Array(ds.value), iso).items == ms.value;
        assert Wire(Array(ds.value), iso) == Array(ms.value);
      }
    }
  }

  lemma {:induction false} EntriesSent(v: Py, n: nat, iso: Iso)
    requires Proper(v) && v.PyDict? && n <= |v.entries|
    ensures var r := NormalizeEntries(v, n, iso);
            && (r.Err? ==> ValueEntries(v, n).None?)
            && (r.Ok? ==> forall i :: 0 <= i < n ==>
                  r.value[i].key == v.entries[i].key && Sends(Ok(r.value[i].value), ValueData(v.entries[i].value), iso))
    decreases v, 0, n
  {
    hide NormalizeValue, ValueData, Meaning, Proper, Wire;
    if n > 0 {
      EntriesSent(v, n - 1, iso);
      ProperMember(v, n - 1);
      NormalizeSends(v.entries[n - 1].value, iso);
    }
  }

  lemma {:induction false} WiredEntries(d: Py, v: Py, n: nat, iso: Iso)
    requires d.PyDict? && v.PyDict? && |d.entries| == |v.entries| && n <= |v.entries|
    requires forall i :: 0 <= i < |v.entries| ==>
      d.entries[i].key == v.entries[i].key && Sends(Ok(d.entries[i].value), ValueData(v.entries[i].value), iso)
    ensures var ms, m := MeaningEntries(d, n, false), ValueEntries(v, n);
            && (ms.Some? <==> m.Some?)
            && (ms.Some? ==> ms.value.Keys == m.value.Keys)
            && (ms.Some? ==> forall k :: k in m.value ==> ms.value[k] == Wire(m.value[k], iso))
    decreases n
  {
    hide ValueData, Meaning, Proper, Wire;
    if n > 0 { WiredEntries(d, v, n - 1, iso); }
  }

  lemma {:induction false} DictSends(v: Py, iso: Iso)
    requires Proper(v) && v.PyDict?
    ensures Sends(NormalizeValue(v, iso), ValueData(v), iso)
    decreases v, 1
  {
    hide NormalizeEntries, ValueEntries, MeaningEntries, Wire;
    var n := |v.entries|;
    EntriesSent(v, n, iso);
    var r := NormalizeEntries(v, n, iso);
    if r.Ok? {
      WiredEntries(PyDict(r.value), v, n, iso);
      var ms, m := MeaningEntries(PyDict(r.value), n, false), ValueEntries(v, n);
      if ms.Some? {
        WireMany(Map(m.value), iso);
        assert Wire(Map(m.value), iso).m == ms.value;
        assert Wire(Map(m.value), iso) == Map(ms.value);
      }
    }
  }

  ghost function WireOf(v: Py, iso: Iso): Option<Data> {
    match ValueData(v) case None => None case Some(d) => Some(Wire(d, iso))
  }

  /** The stored bytes are the canonical bytes of the value's wire form, and exist exactly when
    the value is in the data model. */
  lemma {:induction false} ValueIsCanonical(v: Py, iso: Iso)
    requires Proper(v)
    ensures Agree(EncodeInterop(v, iso), WireOf(v, iso))
  {
    hide NormalizeValue, ValueData, Meaning, Wire, EncodeValue;
    NormalizeSends(v, iso);
    var n := NormalizeValue(v, iso);
    if n.Ok? { EncodesMeaning(n.value, false); }
  }

  // ---------- decode_interop_value ----------

  datatype Decoded = Value(d: Data) | CkFrame | Malformed

  ghost predicate StartsWithMagic(b: seq<Byte>) {
    |b| >= 2 && b[0] == 0x43 && b[1] == 0x4B
  }

  ghost function DecodeInterop(b: seq<Byte>, iso: Iso): Decoded {
    if StartsWithMagic(b) then CkFrame
    else
      match Mp.Parse(b)
      case None => Malformed
      case Some(p) =>
        if p.rest != [] then Malformed
        else
          match Build(p.value, Some(iso))
          case None => Malformed
          case Some(d) => Value(d)
  }

  lemma {:induction false} CanonicalParses(d: Data, x: seq<Byte>)
    requires Sendable(d)
    ensures Mp.Parse(Canonical(d) + x) == Some(Mp.Parsed(DocOf(d), x))
  {
    hide Mp.Parse, Mp.Write, DocOf;
    DocWritable(d);
    Mp.ParseWritten(DocOf(d), x);
  }

  /** A document that starts with the byte 'C' is the integer 67, one byte long. */
  lemma {:induction false} NeverMagic(d: Data)
    requires Sendable(d)
    ensures !StartsWithMagic(Canonical(d))
  {
    hide DocOf, Canonical;
    var b := Canonical(d);
    CanonicalParses(d, []);
    assert b + [] == b;
    if b[0] == 0x43 {
      LetterC(b);
      assert b[1..] == [];
    }
  }

  lemma {:induction false} LetterC(b: seq<Byte>)
    requires b != [] && b[0] == 0x43
    ensures Mp.Parse(b) == Some(Mp.Parsed(Mp.Int(67), b[1..]))
  {
    assert b[1..1] == [];
  }

  lemma {:induction false} DecodeCanonical(d: Data, iso: Iso)
    requires Sendable(d)
    ensures DecodeInterop(Canonical(d), iso) ==
            match Build(DocOf(d), Some(iso)) case None => Malformed case Some(v) => Value(v)
  {
    hide Mp.Parse, Build, DocOf, Canonical;
    NeverMagic(d);
    CanonicalParses(d, []);
    assert Canonical(d) + [] == Canonical(d);
  }

  /** Storing a value and decoding it gives the value back, tuples as lists and temporal objects
    included, exactly when no dict inside it looks like a temporal sentinel. */
  lemma {:induction false} ValueRoundTrip(v: Py, iso: Iso)
    requires Proper(v) && Faithful(iso) && EncodeInterop(v, iso).Ok?
    ensures ValueData(v).Some?
    ensures DecodeInterop(EncodeInterop(v, iso).value, iso) == Value(ValueData(v).value) <==>
            NoSentinel(ValueData(v).value)
  {
    hide EncodeInterop, ValueData, Wire, Canonical, DocOf, Build, NoSentinel, DecodeInterop, Faithful, Sendable;
    ValueIsCanonical(v, iso);
    var d := ValueData(v).value;
    DecodeCanonical(Wire(d, iso), iso);
    BuildWire(d, iso);
  }

  /** The plain values come back as what they are: None, booleans, integers in range, finite floats
    (never turned into integers), text and bytes. */
  lemma {:induction false} PlainValuesComeBack(v: Py, iso: Iso)
    requires EncodeInterop(v, iso).Ok?
    ensures var decoded := DecodeInterop(EncodeInterop(v, iso).value, iso);
            match v
            case PyNone => decoded == Value(Nil)
            case PyBool(b) => decoded == Value(Bool(b))
            case PyInt(n) => decoded == Value(Int(n))
            case PyFloat(bits) => decoded == Value(Double(bits))
            case PyStr(s) => decoded == Value(Str(s))
            case PyBytes(bytes) => decoded == Value(Bin(bytes))
            case _ => true
  {
    hide EncodeInterop, Canonical, DocOf, Build, DecodeInterop, Sendable;
    if v.PyNone? || v.PyBool? || v.PyInt? || v.PyFloat? || v.PyStr? || v.PyBytes? {
      ValueIsCanonical(v, iso);
      var d := WireOf(v, iso).value;
      DecodeCanonical(d, iso);
      BuildAtom(d, Some(iso));
    }
  }

  /** The frame guard never rejects a stored interop value. */
  lemma {:induction false} GuardAcceptsOwnOutput(v: Py, iso: Iso)
    requires Proper(v) && EncodeInterop(v, iso).Ok?
    ensures !StartsWithMagic(EncodeInterop(v, iso).value)
  {
    hide EncodeInterop, ValueData, Wire, Canonical, Sendable, StartsWithMagic;
    ValueIsCanonical(v, iso);
    NeverMagic(WireOf(v, iso).value);
  }

  /** A stored value followed by anything else is rejected. */
  lemma {:induction false} TrailingBytesRejected(v: Py, iso: Iso, x: seq<Byte>)
    requires Proper(v) && EncodeInterop(v, iso).Ok? && x != []
    ensures !DecodeInterop(EncodeInterop(v, iso).value + x, iso).Value?
  {
    hide EncodeInterop, ValueData, Wire, Canonical, DocOf, Sendable, Mp.Parse, Build, StartsWithMagic;
    ValueIsCanonical(v, iso);
    CanonicalParses(WireOf(v, iso).value, x);
  }

  /** No byte string that decodes to a value is shorter than what is stored for it, when every
    temporal part is tight; a value without temporal parts always is (SendableIsTight). */
  lemma {:induction false} StoredFormIsShortest(v: Py, iso: Iso, b: seq<Byte>)
    requires Proper(v) && EncodeInterop(v, iso).Ok? && ValueData(v).Some? && AllTight(ValueData(v).value, iso)
    requires DecodeInterop(b, iso) == Value(ValueData(v).value)
    ensures |EncodeInterop(v, iso).value| <= |b|
  {
    hide EncodeInterop, ValueData, Wire, Canonical, Sendable, Mp.Parse, Build, StartsWithMagic, AllTight;
    ValueIsCanonical(v, iso);
    var p := Mp.Parse(b).value;
    NoDocumentIsShorter(b, p.value, p.rest, Some(iso), ValueData(v).value);
  }

  /** No byte string that a reader without the revival hook reads as the wire form is shorter
    than what is stored: temporal parts included, as the sentinel maps they travel in. */
  lemma {:induction false} StoredDocumentIsShortest(v: Py, iso: Iso, b: seq<Byte>, doc: Mp.Doc, rest: seq<Byte>)
    requires Proper(v) && EncodeInterop(v, iso).Ok?
    requires Mp.Parse(b) == Some(Mp.Parsed(doc, rest)) && Build(doc, None) == WireOf(v, iso)
    ensures |EncodeInterop(v, iso).value| <= |b|
  {
    hide EncodeInterop, WireOf, Canonical, Sendable, Mp.Parse, Build;
    ValueIsCanonical(v, iso);
    NoDocumentIsShorter(b, doc, rest, None, WireOf(v, iso).value);
  }

  // ---------- a dict that does not come back ----------

  lemma {:induction false} EncodedLength(s: Text)
    requires WellFormed(s)
    ensures |Encode(s)| <= 4 * |s|
  {
    if s != [] { EncodedLength(s[1..]); }
  }

  /** The dict {"__date__": True, "value": ""} of a user. */
  function UserSentinel(): Py {
    PyDict([Entry(Name(TagOf(DateKind).s), PyBool(true)), Entry(Name(ValueKey().s), PyStr([]))])
  }

  ghost function UserMap(): map<Key, Data> {
    map[TagOf(DateKind) := Bool(true), ValueKey() := Str([])]
  }

  lemma {:induction false} UserSentinelData()
    ensures Proper(UserSentinel()) && ValueData(UserSentinel()) == Some(Map(UserMap()))
  {
    hide TagOf, ValueKey;
    TagsDiffer();
    var v := UserSentinel();
    assert ValueEntries(v, 0) == Some(map[]);
    assert ValueEntries(v, 1) == Some(map[TagOf(DateKind) := Bool(true)]);
    assert ValueEntries(v, 2) == Some(UserMap());
  }

  lemma {:induction false} UserMapSendable()
    ensures Sendable(Map(UserMap()))
  {
    hide Encode;
    var m := UserMap();
    EncodedLength(TagOf(DateKind).s);
    EncodedLength(ValueKey().s);
    EncodedLength([]);
    assert TextKeys(m) <= {TagOf(DateKind).s, ValueKey().s};
    CardinalityOfSubset(TextKeys(m), {TagOf(DateKind).s, ValueKey().s});
  }

  lemma {:induction false} CardinalityOfSubset(a: set<Text>, b: set<Text>)
    requires a <= b
    ensures |a| <= |b|
  {
    assert b == a + (b - a);
  }

  /** It is stored without complaint and never read back as itself. */
  lemma UserSentinelIsLost(iso: Iso)
    requires Faithful(iso)
    ensures EncodeInterop(UserSentinel(), iso).Ok? && ValueData(UserSentinel()) == Some(Map(UserMap()))
    ensures DecodeInterop(EncodeInterop(UserSentinel(), iso).value, iso) != Value(Map(UserMap()))
  {
    hide EncodeInterop, ValueData, Wire, Sendable, DecodeInterop, Faithful, TagOf, ValueKey, UserSentinel, Canonical;
    UserSentinelData();
    UserMapSendable();
    WireIsIdentity(Map(UserMap()), iso);
    ValueIsCanonical(UserSentinel(), iso);
    ValueRoundTrip(UserSentinel(), iso);
    TagsDiffer();
    assert Tagged(UserMap(), DateKind);
  }
}
