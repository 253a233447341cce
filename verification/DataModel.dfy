/** The interop data model: values independent of dict insertion order and of list-or-tuple,
  their canonical document, and what a reader builds from a document. */
module DataModel {
  import opened Wrappers
  import opened Bytes
  import opened Utf8
  import Mp = MsgPack

  datatype Kind = DateTimeKind | DateKind | TimeKind

  /** A datetime, date or time; `moment` stands for its fields. */
  datatype Temporal = Temporal(kind: Kind, moment: int)

  datatype Key = StrKey(s: Text) | BinKey(bytes: seq<Byte>)

  datatype Data =
    | Nil
    | Bool(b: bool)
    | Int(n: int)
    | Double(bits: nat)
    | Single(bits: nat)
    | Str(s: Text)
    | Bin(bytes: seq<Byte>)
    | Array(items: seq<Data>)
    | Map(m: map<Key, Data>)
    | Ext(code: Byte, bytes: seq<Byte>)
    | Moment(t: Temporal)

  const LIMIT: nat := 0x1_0000_0000

  // ---------- the canonical document ----------

  ghost function TextKeys(m: map<Key, Data>): set<Text> {
    set k | k in m.Keys && k.StrKey? :: k.s
  }

  ghost function SortedKeys(m: map<Key, Data>): seq<Text> {
    Sorted(TextKeys(m))
  }

  ghost predicate SendableText(s: Text) {
    WellFormed(s) && |Encode(s)| < LIMIT
  }

  /** Values with a canonical document: string keys, well-formed text, lengths below 2^32,
    integers in [-2^63, 2^64-1], doubles given by a 64-bit pattern. */
  ghost predicate Sendable(d: Data) {
    match d
    case Nil => true
    case Bool(_) => true
    case Int(n) => -0x8000_0000_0000_0000 <= n < 0x1_0000_0000_0000_0000
    case Double(bits) => bits < 0x1_0000_0000_0000_0000
    case Str(s) => SendableText(s)
    case Bin(bytes) => |bytes| < LIMIT
    case Array(items) => |items| < LIMIT && forall i :: 0 <= i < |items| ==> Sendable(items[i])
    case Map(m) => |TextKeys(m)| < LIMIT && forall k :: k in m ==> k.StrKey? && SendableText(k.s) && Sendable(m[k])
    case _ => false
  }

  ghost function DocOf(d: Data): Mp.Doc
    requires Sendable(d)
    decreases d
  {
    match d
    case Nil => Mp.Nil
    case Bool(b) => Mp.Bool(b)
    case Int(n) => Mp.Int(n)
    case Double(bits) => Mp.Double(bits)
    case Str(s) => Mp.Str(Encode(s))
    case Bin(bytes) => Mp.Bin(bytes)
    case Array(items) => Mp.Array(DocItems(d, |items|))
    case Map(m) => Mp.Map(Flat(d, SortedKeys(m)))
  }

  /** The documents of the first `n` items. */
  ghost function DocItems(d: Data, n: nat): (r: seq<Mp.Doc>)
    requires d.Array? && Sendable(d) && n <= |d.items|
    ensures |r| == n
    decreases d, n
  {
    if n == 0 then [] else DocItems(d, n - 1) + [DocOf(d.items[n - 1])]
  }

  /** The pairs of the map `d` for the keys `ks`, in that order. */
  ghost function Flat(d: Data, ks: seq<Text>): (r: seq<Mp.Doc>)
    requires d.Map? && Sendable(d)
    requires forall k :: k in ks ==> StrKey(k) in d.m
    ensures |r| == 2 * |ks|
    decreases d, |ks|
  {
    if ks == [] then []
    else
      var k := ks[|ks| - 1];
      assert k in ks && StrKey(k) in d.m;
      Flat(d, ks[..|ks| - 1]) + [Mp.Str(Encode(k)), DocOf(d.m[StrKey(k)])]
  }

  lemma {:induction false} FlatWritable(d: Data, ks: seq<Text>)
    requires d.Map? && Sendable(d)
    requires forall k :: k in ks ==> StrKey(k) in d.m
    ensures Mp.AllWritable(Flat(d, ks))
    decreases d, |ks|
  {
    if ks != [] {
      var k := ks[|ks| - 1];
      assert k in ks && StrKey(k) in d.m;
      FlatWritable(d, ks[..|ks| - 1]);
      DocWritable(d.m[StrKey(k)]);
    }
  }

  lemma {:induction false} ItemsWritable(d: Data, n: nat)
    requires d.Array? && Sendable(d) && n <= |d.items|
    ensures Mp.AllWritable(DocItems(d, n))
    decreases d, n
  {
    if n > 0 {
      ItemsWritable(d, n - 1);
      DocWritable(d.items[n - 1]);
    }
  }

  lemma {:induction false} DocWritable(d: Data)
    requires Sendable(d)
    ensures Mp.Writable(DocOf(d))
    decreases d
  {
    hide Encode, Increasing;
    if d.Array? {
      ItemsWritable(d, |d.items|);
      ManyWritable(DocItems(d, |d.items|));
    } else if d.Map? {
      FlatWritable(d, SortedKeys(d.m));
      ManyWritable(Flat(d, SortedKeys(d.m)));
    } else {
      AtomWritable(d);
    }
  }

  lemma {:induction false} AtomWritable(d: Data)
    requires Sendable(d) && !d.Array? && !d.Map?
    ensures Mp.Writable(DocOf(d))
  {
  }

  lemma {:induction false} ManyWritable(ds: seq<Mp.Doc>)
    requires Mp.AllWritable(ds)
    ensures |ds| < LIMIT ==> Mp.Writable(Mp.Array(ds))
    ensures |ds| % 2 == 0 && |ds| / 2 < LIMIT ==> Mp.Writable(Mp.Map(ds))
  {
  }

  /** The canonical bytes of a value. */
  ghost function Canonical(d: Data): (b: seq<Byte>)
    requires Sendable(d)
    ensures b != []
  {
    DocWritable(d);
    Mp.Write(DocOf(d))
  }

  // ---------- what a reader builds ----------

  /** `isoformat` and `fromisoformat` of the three temporal types. */
  datatype Iso = Iso(format: Temporal -> Text, parse: (Kind, Text) -> Option<Temporal>)

  function AsText(s: string): Text {
    seq(|s|, i requires 0 <= i < |s| => s[i] as int)
  }

  function TagOf(k: Kind): (key: Key)
    ensures key.StrKey?
  {
    StrKey(AsText(match k case DateTimeKind => "__datetime__" case DateKind => "__date__" case TimeKind => "__time__"))
  }

  function ValueKey(): (key: Key)
    ensures key.StrKey?
  {
    StrKey(AsText("value"))
  }

  /** A trailing Z or z becomes +00:00. */
  function IsoUtc(s: Text): Text {
    if s != [] && (s[|s| - 1] == 'Z' as int || s[|s| - 1] == 'z' as int) then s[..|s| - 1] + AsText("+00:00") else s
  }

  ghost predicate Tagged(m: map<Key, Data>, k: Kind) {
    TagOf(k) in m && m[TagOf(k)] == Bool(true) && ValueKey() in m && m[ValueKey()].Str?
  }

  ghost predicate SentinelShaped(m: map<Key, Data>) {
    Tagged(m, DateTimeKind) || Tagged(m, DateKind) || Tagged(m, TimeKind)
  }

  /** What `fromisoformat` makes of the text of a sentinel; datetimes and times may end in Z. */
  function HookParse(iso: Iso, k: Kind, s: Text): Option<Temporal> {
    iso.parse(k, if k.DateKind? then s else IsoUtc(s))
  }

  ghost function ParseTemporal(iso: Iso, k: Kind, s: Text): Option<Data> {
    match HookParse(iso, k, s)
    case None => None
    case Some(t) => Some(Moment(t))
  }

  /** The object hook: a sentinel map becomes its temporal value, or the decode fails. */
  ghost function Revive(m: map<Key, Data>, iso: Iso): Option<Data> {
    if Tagged(m, DateTimeKind) then ParseTemporal(iso, DateTimeKind, m[ValueKey()].s)
    else if Tagged(m, DateKind) then ParseTemporal(iso, DateKind, m[ValueKey()].s)
    else if Tagged(m, TimeKind) then ParseTemporal(iso, TimeKind, m[ValueKey()].s)
    else Some(Map(m))
  }

  /** The value of a document; with `hook` set, every map goes through the object hook once
    its members are built.  None is an exception of the reader. */
  ghost function Build(doc: Mp.Doc, hook: Option<Iso>): Option<Data>
    decreases doc
  {
    match doc
    case Nil => Some(Nil)
    case Bool(b) => Some(Bool(b))
    case Int(n) => Some(Int(n))
    case Double(bits) => Some(Double(bits))
    case Single(bits) => Some(Single(bits))
    case Str(utf8) => (match Decode(utf8) case None => None case Some(s) => Some(Str(s)))
    case Bin(bytes) => Some(Bin(bytes))
    case Ext(code, bytes) => Some(Ext(code, bytes))
    case Array(items) => (match BuildItems(doc, |items|, hook) case None => None case Some(ds) => Some(Array(ds)))
    case Map(flat) =>
      var m := BuildPairs(doc, |flat| / 2, hook);
      if m.None? then None
      else if hook.None? then Some(Map(m.value))
      else Revive(m.value, hook.value)
  }

  ghost function BuildItems(doc: Mp.Doc, n: nat, hook: Option<Iso>): (r: Option<seq<Data>>)
    requires doc.Array? && n <= |doc.items|
    ensures r.Some? ==> |r.value| == n
    decreases doc, n
  {
    if n == 0 then Some([])
    else
      var ds := BuildItems(doc, n - 1, hook);
      var v := Build(doc.items[n - 1], hook);
      if ds.None? || v.None? then None else Some(ds.value + [v.value])
  }

  ghost function BuildKey(doc: Mp.Doc): Option<Key> {
    match doc
    case Str(utf8) => (match Decode(utf8) case None => None case Some(s) => Some(StrKey(s)))
    case Bin(bytes) => Some(BinKey(bytes))
    case _ => None
  }

  /** The dict built from the first `n` pairs of a map document; a repeated key keeps its last
    value, and only str and bytes keys are accepted. */
  ghost function BuildPairs(doc: Mp.Doc, n: nat, hook: Option<Iso>): Option<map<Key, Data>>
    requires doc.Map? && 2 * n <= |doc.flat|
    decreases doc, n
  {
    if n == 0 then Some(map[])
    else
      var m := BuildPairs(doc, n - 1, hook);
      var k := BuildKey(doc.flat[2 * n - 2]);
      var v := Build(doc.flat[2 * n - 1], hook);
      if m.None? || k.None? || v.None? then None else Some(m.value[k.value := v.value])
  }

  lemma {:induction false} DocOfMany(d: Data)
    requires Sendable(d)
    ensures d.Array? ==> DocOf(d) == Mp.Array(DocItems(d, |d.items|))
    ensures d.Map? ==> DocOf(d) == Mp.Map(Flat(d, SortedKeys(d.m)))
  {
    hide DocItems, Flat, SortedKeys;
  }

  lemma {:induction false} BuildMany(doc: Mp.Doc, hook: Option<Iso>)
    ensures doc.Array? ==>
      Build(doc, hook) == match BuildItems(doc, |doc.items|, hook) case None => None case Some(ds) => Some(Array(ds))
    ensures doc.Map? ==>
      var m := BuildPairs(doc, |doc.flat| / 2, hook);
      Build(doc, hook) ==
        if m.None? then None else if hook.None? then Some(Map(m.value)) else Revive(m.value, hook.value)
  {
    hide BuildItems, BuildPairs, Revive;
  }

  lemma {:induction false} BuildItemsStep(doc: Mp.Doc, n: nat, hook: Option<Iso>)
    requires doc.Array? && n <= |doc.items|
    ensures n == 0 ==> BuildItems(doc, n, hook) == Some([])
    ensures n > 0 ==>
      var ds := BuildItems(doc, n - 1, hook);
      var v := Build(doc.items[n - 1], hook);
      BuildItems(doc, n, hook) == if ds.None? || v.None? then None else Some(ds.value + [v.value])
  {
    hide Build;
  }

  lemma {:induction false} BuildPairsStep(doc: Mp.Doc, n: nat, hook: Option<Iso>)
    requires doc.Map? && 2 * n <= |doc.flat|
    ensures n == 0 ==> BuildPairs(doc, n, hook) == Some(map[])
    ensures n > 0 ==>
      var m := BuildPairs(doc, n - 1, hook);
      var k := BuildKey(doc.flat[2 * n - 2]);
      var v := Build(doc.flat[2 * n - 1], hook);
      BuildPairs(doc, n, hook) ==
        if m.None? || k.None? || v.None? then None else Some(m.value[k.value := v.value])
  {
    hide Build, BuildKey;
  }

  lemma BuildTextKey(k: Text)
    requires WellFormed(k)
    ensures BuildKey(Mp.Str(Encode(k))) == Some(StrKey(k))
  {
    RoundTrip(k);
  }
}
