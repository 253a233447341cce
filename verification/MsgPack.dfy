/** The MessagePack format: documents, the reader of the format's own "Formats" section, and
  the shortest-form writer of the interop encoder.

  A map is kept as the flat list key, value, key, value, ... of its wire form. */
module MsgPack {
  import opened Wrappers
  import opened Bytes

  datatype Doc =
    | Nil
    | Bool(b: bool)
    | Int(n: int)
    | Double(bits: nat)
    | Single(bits: nat)
    | Str(utf8: seq<Byte>)
    | Bin(bytes: seq<Byte>)
    | Array(items: seq<Doc>)
    | Map(flat: seq<Doc>)
    | Ext(code: Byte, bytes: seq<Byte>)

  /** What a tag and the fixed-width field after it announce. */
  datatype Head =
    | NilHead
    | BoolHead(b: bool)
    | IntHead(n: int)
    | DoubleHead(bits: nat)
    | SingleHead(bits: nat)
    | StrHead(len: nat)
    | BinHead(len: nat)
    | ArrayHead(len: nat)
    | MapHead(len: nat)
    | ExtHead(code: Byte, len: nat)

  // ---------- reading, as the format defines it ----------

  predicate KnownTag(t: Byte) {
    t != 0xC1
  }

  /** Bytes of the field that follows tag `t`; for an extension the field ends with its type. */
  function FieldWidth(t: Byte): (w: nat) {
    if t == 0xC4 || t == 0xCC || t == 0xD0 || t == 0xD9 || 0xD4 <= t <= 0xD8 then 1
    else if t == 0xC5 || t == 0xCD || t == 0xD1 || t == 0xDA || t == 0xDC || t == 0xDE || t == 0xC7 then 2
    else if t == 0xC8 then 3
    else if t == 0xC6 || t == 0xCA || t == 0xCE || t == 0xD2 || t == 0xDB || t == 0xDD || t == 0xDF then 4
    else if t == 0xC9 then 5
    else if t == 0xCB || t == 0xCF || t == 0xD3 then 8
    else 0
  }

  /** Two's complement: the signed reading of `n` in a field of 256^w values. */
  function Signed(n: nat, modulus: nat): int {
    if 2 * n < modulus then n else n - modulus
  }

  function HeadOf(t: Byte, n: nat): Head
    requires KnownTag(t)
  {
    if t < 0x80 then IntHead(t)
    else if t < 0x90 then MapHead(t - 0x80)
    else if t < 0xA0 then ArrayHead(t - 0x90)
    else if t < 0xC0 then StrHead(t - 0xA0)
    else if t >= 0xE0 then IntHead((t as int) - 0x100)
    else
      match t
      case 0xC0 => NilHead
      case 0xC2 => BoolHead(false)
      case 0xC3 => BoolHead(true)
      case 0xC4 => BinHead(n)
      case 0xC5 => BinHead(n)
      case 0xC6 => BinHead(n)
      case 0xC7 => ExtHead(n % 256, n / 256)
      case 0xC8 => ExtHead(n % 256, n / 256)
      case 0xC9 => ExtHead(n % 256, n / 256)
      case 0xCA => SingleHead(n)
      case 0xCB => DoubleHead(n)
      case 0xCC => IntHead(n)
      case 0xCD => IntHead(n)
      case 0xCE => IntHead(n)
      case 0xCF => IntHead(n)
      case 0xD0 => IntHead(Signed(n, 0x100))
      case 0xD1 => IntHead(Signed(n, 0x1_0000))
      case 0xD2 => IntHead(Signed(n, 0x1_0000_0000))
      case 0xD3 => IntHead(Signed(n, 0x1_0000_0000_0000_0000))
      case 0xD4 => ExtHead(n % 256, 1)
      case 0xD5 => ExtHead(n % 256, 2)
      case 0xD6 => ExtHead(n % 256, 4)
      case 0xD7 => ExtHead(n % 256, 8)
      case 0xD8 => ExtHead(n % 256, 16)
      case 0xD9 => StrHead(n)
      case 0xDA => StrHead(n)
      case 0xDB => StrHead(n)
      case 0xDC => ArrayHead(n)
      case 0xDD => ArrayHead(n)
      case 0xDE => MapHead(n)
      case _ => MapHead(n)
  }

  /** The number of payload bytes a head announces. */
  function PayloadBytes(h: Head): nat {
    match h
    case StrHead(len) => len
    case BinHead(len) => len
    case ExtHead(_, len) => len
    case _ => 0
  }

  function Atom(h: Head, payload: seq<Byte>): Doc
    requires !h.ArrayHead? && !h.MapHead?
  {
    match h
    case NilHead => Nil
    case BoolHead(b) => Bool(b)
    case IntHead(n) => Int(n)
    case DoubleHead(bits) => Double(bits)
    case SingleHead(bits) => Single(bits)
    case StrHead(_) => Str(payload)
    case BinHead(_) => Bin(payload)
    case ExtHead(code, _) => Ext(code, payload)
  }

  datatype Parsed<+T> = Parsed(value: T, rest: seq<Byte>)

  function Parse(b: seq<Byte>): (r: Option<Parsed<Doc>>)
    ensures r.Some? ==> |r.value.rest| < |b|
    decreases |b|, 1
  {
    if b == [] || !KnownTag(b[0]) || |b| < 1 + FieldWidth(b[0]) then None
    else
      var w := 1 + FieldWidth(b[0]);
      ParseBody(b, w, HeadOf(b[0], FromBigEndian(b[1..w])))
  }

  /** The document whose head `h` took the first `w` bytes of `b`. */
  function ParseBody(b: seq<Byte>, w: nat, h: Head): (r: Option<Parsed<Doc>>)
    requires 0 < w <= |b|
    ensures r.Some? ==> |r.value.rest| < |b|
    decreases |b|, 0
  {
    match h
    case ArrayHead(len) =>
      var items := ParseMany(b[w..], len);
      if items.None? then None else Some(Parsed(Array(items.value.value), items.value.rest))
    case MapHead(len) =>
      var flat := ParseMany(b[w..], 2 * len);
      if flat.None? then None else Some(Parsed(Map(flat.value.value), flat.value.rest))
    case _ =>
      var end := w + PayloadBytes(h);
      if |b| < end then None else Some(Parsed(Atom(h, b[w..end]), b[end..]))
  }

  function ParseMany(b: seq<Byte>, n: nat): (r: Option<Parsed<seq<Doc>>>)
    ensures r.Some? ==> |r.value.rest| <= |b| && |r.value.value| == n
    decreases |b|, 2
  {
    if n == 0 then Some(Parsed([], b))
    else
      var first := Parse(b);
      if first.None? then None
      else
        var others := ParseMany(first.value.rest, n - 1);
        if others.None? then None
        else Some(Parsed([first.value.value] + others.value.value, others.value.rest))
  }

  // ---------- writing, shortest form ----------

  datatype Form = Form(tag: Byte, field: nat)

  ghost predicate WritableHead(h: Head) {
    match h
    case IntHead(n) => -0x8000_0000_0000_0000 <= n < 0x1_0000_0000_0000_0000
    case DoubleHead(bits) => bits < 0x1_0000_0000_0000_0000
    case SingleHead(bits) => bits < 0x1_0000_0000
    case StrHead(len) => len < 0x1_0000_0000
    case BinHead(len) => len < 0x1_0000_0000
    case ArrayHead(len) => len < 0x1_0000_0000
    case MapHead(len) => len < 0x1_0000_0000
    case ExtHead(_, len) => len < 0x1_0000_0000
    case _ => true
  }

  /** Tag and field value the writer chooses for a head. */
  ghost function Shortest(h: Head): Form
    requires WritableHead(h)
  {
    match h
    case NilHead => Form(0xC0, 0)
    case BoolHead(b) => Form(if b then 0xC3 else 0xC2, 0)
    case IntHead(n) =>
      if 0 <= n < 0x80 then Form(n, 0)
      else if -0x20 <= n < 0 then Form(n + 0x100, 0)
      else if 0 <= n < 0x100 then Form(0xCC, n)
      else if 0 <= n < 0x1_0000 then Form(0xCD, n)
      else if 0 <= n < 0x1_0000_0000 then Form(0xCE, n)
      else if 0 <= n then Form(0xCF, n)
      else if n >= -0x80 then Form(0xD0, n + 0x100)
      else if n >= -0x8000 then Form(0xD1, n + 0x1_0000)
      else if n >= -0x8000_0000 then Form(0xD2, n + 0x1_0000_0000)
      else Form(0xD3, n + 0x1_0000_0000_0000_0000)
    case DoubleHead(bits) => Form(0xCB, bits)
    case SingleHead(bits) => Form(0xCA, bits)
    case StrHead(len) =>
      if len < 0x20 then Form(0xA0 + len, 0)
      else if len < 0x100 then Form(0xD9, len)
      else if len < 0x1_0000 then Form(0xDA, len)
      else Form(0xDB, len)
    case BinHead(len) =>
      if len < 0x100 then Form(0xC4, len)
      else if len < 0x1_0000 then Form(0xC5, len)
      else Form(0xC6, len)
    case ArrayHead(len) =>
      if len < 0x10 then Form(0x90 + len, 0)
      else if len < 0x1_0000 then Form(0xDC, len)
      else Form(0xDD, len)
    case MapHead(len) =>
      if len < 0x10 then Form(0x80 + len, 0)
      else if len < 0x1_0000 then Form(0xDE, len)
      else Form(0xDF, len)
    case ExtHead(code, len) =>
      if len == 1 then Form(0xD4, code)
      else if len == 2 then Form(0xD5, code)
      else if len == 4 then Form(0xD6, code)
      else if len == 8 then Form(0xD7, code)
      else if len == 16 then Form(0xD8, code)
      else if len < 0x100 then Form(0xC7, len * 256 + code)
      else if len < 0x1_0000 then Form(0xC8, len * 256 + code)
      else Form(0xC9, len * 256 + code)
  }

  ghost function WriteHead(h: Head): seq<Byte>
    requires WritableHead(h)
  {
    var f := Shortest(h);
    [f.tag] + BigEndian(f.field, FieldWidth(f.tag))
  }

  ghost function HeadOfDoc(d: Doc): Head {
    match d
    case Nil => NilHead
    case Bool(b) => BoolHead(b)
    case Int(n) => IntHead(n)
    case Double(bits) => DoubleHead(bits)
    case Single(bits) => SingleHead(bits)
    case Str(utf8) => StrHead(|utf8|)
    case Bin(bytes) => BinHead(|bytes|)
    case Array(items) => ArrayHead(|items|)
    case Map(flat) => MapHead(|flat| / 2)
    case Ext(code, bytes) => ExtHead(code, |bytes|)
  }

  /** The documents the format can express: numbers and lengths in range, maps in pairs. */
  ghost predicate Writable(d: Doc) {
    && WritableHead(HeadOfDoc(d))
    && (d.Array? ==> AllWritable(d.items))
    && (d.Map? ==> |d.flat| % 2 == 0 && AllWritable(d.flat))
  }

  ghost predicate AllWritable(ds: seq<Doc>) {
    forall i :: 0 <= i < |ds| ==> Writable(ds[i])
  }

  ghost function Write(d: Doc): (b: seq<Byte>)
    requires Writable(d)
    ensures |b| > 0
    decreases d, 1
  {
    WriteHead(HeadOfDoc(d)) + Payload(d)
  }

  ghost function Payload(d: Doc): seq<Byte>
    requires Writable(d)
    decreases d, 0
  {
    match d
    case Str(utf8) => utf8
    case Bin(bytes) => bytes
    case Ext(_, bytes) => bytes
    case Array(items) => WriteAll(items)
    case Map(flat) => WriteAll(flat)
    case _ => []
  }

  ghost function WriteAll(ds: seq<Doc>): seq<Byte>
    requires AllWritable(ds)
    decreases ds, 0
  {
    if ds == [] then [] else Write(ds[0]) + WriteAll(ds[1..])
  }

  lemma {:induction false} WrittenMany(ds: seq<Doc>)
    ensures Writable(Array(ds)) ==> Write(Array(ds)) == WriteHead(ArrayHead(|ds|)) + WriteAll(ds)
    ensures Writable(Map(ds)) ==> Write(Map(ds)) == WriteHead(MapHead(|ds| / 2)) + WriteAll(ds)
  {
    hide Shortest;
  }

  // ---------- heads: round trip and minimality ----------

  ghost predicate ReadsBack(h: Head)
    requires WritableHead(h)
  {
    var f := Shortest(h);
    KnownTag(f.tag) && f.field < Pow256(FieldWidth(f.tag)) && HeadOf(f.tag, f.field) == h
  }

  lemma IntegerReads(n: int)
    requires WritableHead(IntHead(n))
    ensures ReadsBack(IntHead(n))
  {
    Pow256Values();
  }

  lemma LengthReads(h: Head)
    requires WritableHead(h) && (h.StrHead? || h.BinHead? || h.ArrayHead? || h.MapHead?)
    ensures ReadsBack(h)
  {
    Pow256Values();
  }

  lemma ExtReads(h: Head)
    requires WritableHead(h) && h.ExtHead?
    ensures ReadsBack(h)
  {
    Pow256Values();
  }

  lemma OtherReads(h: Head)
    requires WritableHead(h) && (h.NilHead? || h.BoolHead? || h.DoubleHead? || h.SingleHead?)
    ensures ReadsBack(h)
  {
    Pow256Values();
  }

  lemma ShortestReads(h: Head)
    requires WritableHead(h)
    ensures var f := Shortest(h); KnownTag(f.tag) && f.field < Pow256(FieldWidth(f.tag)) && HeadOf(f.tag, f.field) == h
  {
    hide Shortest, HeadOf, FieldWidth, Pow256;
    match h
    case IntHead(n) => IntegerReads(n);
    case StrHead(_) => LengthReads(h);
    case BinHead(_) => LengthReads(h);
    case ArrayHead(_) => LengthReads(h);
    case MapHead(_) => LengthReads(h);
    case ExtHead(_, _) => ExtReads(h);
    case _ => OtherReads(h);
  }

  ghost predicate NoNarrower(t: Byte, n: nat)
    requires KnownTag(t)
  {
    WritableHead(HeadOf(t, n)) && FieldWidth(Shortest(HeadOf(t, n)).tag) <= FieldWidth(t)
  }

  lemma IntegerMinimal(t: Byte, n: nat)
    requires KnownTag(t) && n < Pow256(FieldWidth(t)) && HeadOf(t, n).IntHead?
    ensures NoNarrower(t, n)
  {
    Pow256Values();
  }

  lemma LengthMinimal(t: Byte, n: nat)
    requires KnownTag(t) && n < Pow256(FieldWidth(t)) && !HeadOf(t, n).IntHead? && !HeadOf(t, n).ExtHead?
    ensures NoNarrower(t, n)
  {
    Pow256Values();
  }

  lemma ExtMinimal(t: Byte, n: nat)
    requires KnownTag(t) && n < Pow256(FieldWidth(t)) && HeadOf(t, n).ExtHead?
    ensures NoNarrower(t, n)
  {
    Pow256Values();
  }

  /** No tag whose field reads as the same head has a narrower field. */
  lemma ShortestIsMinimal(t: Byte, n: nat)
    requires KnownTag(t) && n < Pow256(FieldWidth(t))
    ensures WritableHead(HeadOf(t, n))
    ensures FieldWidth(Shortest(HeadOf(t, n)).tag) <= FieldWidth(t)
  {
    hide Shortest, HeadOf, FieldWidth, Pow256, WritableHead;
    if HeadOf(t, n).IntHead? {
      IntegerMinimal(t, n);
    } else if HeadOf(t, n).ExtHead? {
      ExtMinimal(t, n);
    } else {
      LengthMinimal(t, n);
    }
  }

  lemma ParseHead(h: Head, x: seq<Byte>)
    requires WritableHead(h)
    ensures var head := WriteHead(h); Parse(head + x) == ParseBody(head + x, |head|, h)
  {
    var f := Shortest(h);
    ShortestReads(h);
    BigEndianRoundTrip(f.field, FieldWidth(f.tag));
    var b := WriteHead(h) + x;
    assert b[1..|WriteHead(h)|] == BigEndian(f.field, FieldWidth(f.tag));
  }

  // ---------- documents: round trip, prefix-freedom, shortest form ----------

  /** Reading back a written document returns it and leaves exactly what followed it. */
  lemma {:induction false} ParseWritten(d: Doc, x: seq<Byte>)
    requires Writable(d)
    ensures Parse(Write(d) + x) == Some(Parsed(d, x))
    decreases d
  {
    hide HeadOf, Shortest;
    var h := HeadOfDoc(d);
    var head := WriteHead(h);
    assert Write(d) + x == head + (Payload(d) + x);
    ParseHead(h, Payload(d) + x);
    if d.Array? {
      assert forall i :: 0 <= i < |d.items| ==> d.items[i] < d;
      ParseAllWritten(d, d.items, x);
    } else if d.Map? {
      assert forall i :: 0 <= i < |d.flat| ==> d.flat[i] < d;
      ParseAllWritten(d, d.flat, x);
    }
    ParseWrittenBody(d, head, h, x);
  }

  lemma ParseWrittenBody(d: Doc, head: seq<Byte>, h: Head, x: seq<Byte>)
    requires Writable(d) && h == HeadOfDoc(d) && head != []
    requires d.Array? ==> ParseMany(Payload(d) + x, |d.items|) == Some(Parsed(d.items, x))
    requires d.Map? ==> ParseMany(Payload(d) + x, |d.flat|) == Some(Parsed(d.flat, x))
    ensures ParseBody(head + (Payload(d) + x), |head|, h) == Some(Parsed(d, x))
  {
    hide HeadOf, Shortest;
    var b := head + (Payload(d) + x);
    assert b[|head|..] == Payload(d) + x;
    if !d.Array? && !d.Map? {
      var end := |head| + PayloadBytes(h);
      assert b[|head|..end] == Payload(d) && b[end..] == x;
    }
  }

  lemma {:induction false} ParseManyStep(b: seq<Byte>, n: nat, first: Parsed<Doc>, others: Parsed<seq<Doc>>)
    requires n > 0 && Parse(b) == Some(first) && ParseMany(first.rest, n - 1) == Some(others)
    ensures ParseMany(b, n) == Some(Parsed([first.value] + others.value, others.rest))
  {
    hide Parse;
  }

  lemma {:induction false} ParseAllWritten(d: Doc, ds: seq<Doc>, x: seq<Byte>)
    requires AllWritable(ds)
    requires forall i :: 0 <= i < |ds| ==> ds[i] < d
    ensures ParseMany(WriteAll(ds) + x, |ds|) == Some(Parsed(ds, x))
    decreases d, |ds|
  {
    hide Parse, Write, Writable;
    if ds == [] {
      assert WriteAll(ds) + x == x;
    } else {
      var b := WriteAll(ds) + x;
      var rest := WriteAll(ds[1..]) + x;
      assert b == Write(ds[0]) + rest;
      ParseWritten(ds[0], rest);
      ParseAllWritten(d, ds[1..], x);
      ParseManyStep(b, |ds|, Parsed(ds[0], rest), Parsed(ds[1..], x));
      assert ds == [ds[0]] + ds[1..];
    }
  }

  /** Written documents are prefix-free: a byte string starts with at most one of them. */
  lemma PrefixFree(d: Doc, e: Doc, x: seq<Byte>, y: seq<Byte>)
    requires Writable(d) && Writable(e)
    requires Write(d) + x == Write(e) + y
    ensures d == e && x == y
  {
    ParseWritten(d, x);
    ParseWritten(e, y);
  }

  predicate Suffix(r: seq<Byte>, b: seq<Byte>) {
    |r| <= |b| && r == b[|b| - |r|..]
  }

  lemma SuffixTransitive(r: seq<Byte>, m: seq<Byte>, b: seq<Byte>)
    requires Suffix(r, m) && Suffix(m, b)
    ensures Suffix(r, b)
  {
  }

  lemma AtomHead(h: Head, payload: seq<Byte>)
    requires !h.ArrayHead? && !h.MapHead? && |payload| == PayloadBytes(h)
    ensures HeadOfDoc(Atom(h, payload)) == h
    ensures WritableHead(h) ==> Writable(Atom(h, payload)) && Payload(Atom(h, payload)) == payload
  {
  }

  lemma HeadIsNoShorter(b: seq<Byte>)
    requires b != [] && KnownTag(b[0]) && |b| >= 1 + FieldWidth(b[0])
    ensures var w := 1 + FieldWidth(b[0]); var h := HeadOf(b[0], FromBigEndian(b[1..w]));
            WritableHead(h) && |WriteHead(h)| <= w
  {
    ShortestIsMinimal(b[0], FromBigEndian(b[1..1 + FieldWidth(b[0])]));
  }

  /** Whatever form a reader accepted, writing the document back is no longer than what it
    consumed, and what it left over is a suffix of its input. */
  lemma {:induction false} ParsedIsNoShorter(b: seq<Byte>)
    requires Parse(b).Some?
    ensures var r := Parse(b).value;
            Suffix(r.rest, b) && Writable(r.value) && |Write(r.value)| <= |b| - |r.rest|
    decreases |b|, 1
  {
    hide HeadOf, Shortest;
    var w := 1 + FieldWidth(b[0]);
    var h := HeadOf(b[0], FromBigEndian(b[1..w]));
    HeadIsNoShorter(b);
    var r := Parse(b).value;
    AfterHead(b, w, h, r);
  }

  lemma {:induction false} AfterHead(b: seq<Byte>, w: nat, h: Head, r: Parsed<Doc>)
    requires 0 < w <= |b| && ParseBody(b, w, h) == Some(r) && WritableHead(h)
    ensures Suffix(r.rest, b) && HeadOfDoc(r.value) == h && Writable(r.value)
    ensures |Payload(r.value)| <= |b| - |r.rest| - w
    decreases |b|, 0
  {
    hide HeadOf, Shortest;
    if h.ArrayHead? || h.MapHead? {
      var n := if h.ArrayHead? then h.len else 2 * h.len;
      ParsedManyIsNoShorter(b[w..], n);
      var many := ParseMany(b[w..], n).value;
      assert r.rest == many.rest;
      SuffixTransitive(many.rest, b[w..], b);
      ManyHead(h, many.value);
    } else {
      AtomAfterHead(b, w, h, r);
    }
  }

  lemma ManyHead(h: Head, ds: seq<Doc>)
    requires WritableHead(h) && AllWritable(ds)
    ensures h.ArrayHead? && |ds| == h.len ==>
              HeadOfDoc(Array(ds)) == h && Writable(Array(ds)) && Payload(Array(ds)) == WriteAll(ds)
    ensures h.MapHead? && |ds| == 2 * h.len ==>
              HeadOfDoc(Map(ds)) == h && Writable(Map(ds)) && Payload(Map(ds)) == WriteAll(ds)
  {
  }

  lemma AtomAfterHead(b: seq<Byte>, w: nat, h: Head, r: Parsed<Doc>)
    requires 0 < w <= |b| && ParseBody(b, w, h) == Some(r) && WritableHead(h)
    requires !h.ArrayHead? && !h.MapHead?
    ensures Suffix(r.rest, b) && HeadOfDoc(r.value) == h && Writable(r.value)
    ensures |Payload(r.value)| == |b| - |r.rest| - w
  {
    var end := w + PayloadBytes(h);
    assert r == Parsed(Atom(h, b[w..end]), b[end..]);
    AtomHead(h, b[w..end]);
  }

  lemma {:induction false} ParsedManyIsNoShorter(b: seq<Byte>, n: nat)
    requires ParseMany(b, n).Some?
    ensures var r := ParseMany(b, n).value;
            Suffix(r.rest, b) && AllWritable(r.value) && |WriteAll(r.value)| <= |b| - |r.rest|
    decreases |b|, 2
  {
    hide HeadOf, Shortest;
    if n > 0 {
      var first := Parse(b).value;
      ParsedIsNoShorter(b);
      ParsedManyIsNoShorter(first.rest, n - 1);
      var others := ParseMany(first.rest, n - 1).value;
      SuffixTransitive(others.rest, first.rest, b);
      AppendWritten(first.value, others.value);
    }
  }

  lemma AppendWritten(d: Doc, ds: seq<Doc>)
    requires Writable(d) && AllWritable(ds)
    ensures AllWritable([d] + ds) && WriteAll([d] + ds) == Write(d) + WriteAll(ds)
  {
    assert ([d] + ds)[1..] == ds;
  }
}
