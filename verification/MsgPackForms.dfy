/** Every form the "Formats" section of the MessagePack specification permits, and the reader
  against it: it accepts exactly the documents spelled in permitted forms, canonical or not. */
module MsgPackForms {
  import opened Wrappers
  import opened Bytes
  import opened MsgPack

  // ---------- heads ----------

  predicate UnsignedTag(t: Byte, w: nat) {
    (t == 0xCC && w == 1) || (t == 0xCD && w == 2) || (t == 0xCE && w == 4) || (t == 0xCF && w == 8)
  }

  predicate SignedTag(t: Byte, w: nat) {
    (t == 0xD0 && w == 1) || (t == 0xD1 && w == 2) || (t == 0xD2 && w == 4) || (t == 0xD3 && w == 8)
  }

  /** The three tags of a length field, narrowest first, where the format has them. */
  predicate LengthTag(h: Head, t: Byte, w: nat) {
    match h
    case StrHead(_) => (t == 0xD9 && w == 1) || (t == 0xDA && w == 2) || (t == 0xDB && w == 4)
    case BinHead(_) => (t == 0xC4 && w == 1) || (t == 0xC5 && w == 2) || (t == 0xC6 && w == 4)
    case ArrayHead(_) => (t == 0xDC && w == 2) || (t == 0xDD && w == 4)
    case MapHead(_) => (t == 0xDE && w == 2) || (t == 0xDF && w == 4)
    case _ => false
  }

  /** The tags of the five fixed extension lengths. */
  predicate FixedExt(t: Byte, len: nat) {
    (t == 0xD4 && len == 1) || (t == 0xD5 && len == 2) || (t == 0xD6 && len == 4) ||
    (t == 0xD7 && len == 8) || (t == 0xD8 && len == 16)
  }

  /** Tag `t` and the value `n` of the `w`-byte field after it are a permitted form of `h`.  A signed
    integer is its two's complement; the field of an extension is its length, then its type. */
  ghost predicate Permits(h: Head, t: Byte, w: nat, n: nat) {
    n < Pow256(w) &&
    match h
    case NilHead => t == 0xC0 && w == 0
    case BoolHead(b) => t == (if b then 0xC3 else 0xC2) && w == 0
    case IntHead(v) =>
      || (w == 0 && (0 <= v < 0x80 || -0x20 <= v < 0) && t == v % 0x100)
      || (UnsignedTag(t, w) && n == v)
      || (SignedTag(t, w) && 0 <= 2 * v + Pow256(w) && 2 * v < Pow256(w) && n == v % Pow256(w))
    case DoubleHead(bits) => t == 0xCB && w == 8 && n == bits
    case SingleHead(bits) => t == 0xCA && w == 4 && n == bits
    case StrHead(len) => (w == 0 && len < 0x20 && t == 0xA0 + len) || (LengthTag(h, t, w) && n == len)
    case BinHead(len) => LengthTag(h, t, w) && n == len
    case ArrayHead(len) => (w == 0 && len < 0x10 && t == 0x90 + len) || (LengthTag(h, t, w) && n == len)
    case MapHead(len) => (w == 0 && len < 0x10 && t == 0x80 + len) || (LengthTag(h, t, w) && n == len)
    case ExtHead(code, len) =>
      || (w == 1 && FixedExt(t, len) && n == code)
      || (((t == 0xC7 && w == 2) || (t == 0xC8 && w == 3) || (t == 0xC9 && w == 5)) && n == 0x100 * len + code)
  }

  lemma FormOfInteger(v: int, t: Byte, w: nat, n: nat)
    requires Permits(IntHead(v), t, w, n)
    ensures KnownTag(t) && w == FieldWidth(t) && HeadOf(t, n) == IntHead(v)
  {
    Pow256Values();
    if SignedTag(t, w) { ComplementReads(v, n, Pow256(w)); }
  }

  /** Two's complement undone. */
  lemma ComplementReads(v: int, n: nat, modulus: nat)
    requires modulus > 0 && 0 <= 2 * v + modulus && 2 * v < modulus && n == v % modulus
    ensures Signed(n, modulus) == v
  {
    ResidueIs(v, modulus);
  }

  lemma ResidueIs(v: int, m: int)
    requires m > 0 && -m <= v < m
    ensures v % m == if v < 0 then v + m else v
  {
    var q := v / m;
    assert v == q * m + v % m;
    assert q >= 1 ==> q * m >= m;
    assert q <= -2 ==> q * m <= -2 * m;
  }

  lemma FormOfOther(h: Head, t: Byte, w: nat, n: nat)
    requires Permits(h, t, w, n) && !h.IntHead?
    ensures KnownTag(t) && w == FieldWidth(t) && HeadOf(t, n) == h
  {
  }

  lemma PermittedInteger(t: Byte, n: nat)
    requires KnownTag(t) && n < Pow256(FieldWidth(t)) && HeadOf(t, n).IntHead?
    ensures Permits(HeadOf(t, n), t, FieldWidth(t), n)
  {
    Pow256Values();
    if SignedTag(t, FieldWidth(t)) { ResidueIs(HeadOf(t, n).n, Pow256(FieldWidth(t))); }
  }

  lemma PermittedOther(t: Byte, n: nat)
    requires KnownTag(t) && n < Pow256(FieldWidth(t)) && !HeadOf(t, n).IntHead?
    ensures Permits(HeadOf(t, n), t, FieldWidth(t), n)
  {
    Pow256Values();
  }

  /** The reader takes a tag and a field of that width for a head exactly when that is a
    permitted form of it. */
  lemma FormIff(h: Head, t: Byte, w: nat, n: nat)
    ensures Permits(h, t, w, n) <==> KnownTag(t) && w == FieldWidth(t) && n < Pow256(w) && HeadOf(t, n) == h
  {
    if Permits(h, t, w, n) {
      hide Permits, HeadOf, FieldWidth;
      FieldFits(h, t, w, n);
      if h.IntHead? { FormOfInteger(h.n, t, w, n); } else { FormOfOther(h, t, w, n); }
    } else if KnownTag(t) && w == FieldWidth(t) && n < Pow256(w) {
      hide Permits, HeadOf, FieldWidth;
      if HeadOf(t, n).IntHead? { PermittedInteger(t, n); } else { PermittedOther(t, n); }
    }
  }

  lemma FieldFits(h: Head, t: Byte, w: nat, n: nat)
    requires Permits(h, t, w, n)
    ensures n < Pow256(w)
  {
  }

  // ---------- documents ----------

  /** A document and how it is written: the form of its head, its payload, its members. */
  datatype Spelled = Spelled(head: Head, tag: Byte, width: nat, field: nat, payload: seq<Byte>, parts: seq<Spelled>)

  /** How many documents follow a head as its members. */
  function Members(h: Head): nat {
    match h
    case ArrayHead(len) => len
    case MapHead(len) => 2 * len
    case _ => 0
  }

  ghost predicate WellSpelled(s: Spelled) {
    && Permits(s.head, s.tag, s.width, s.field)
    && |s.payload| == PayloadBytes(s.head) && |s.parts| == Members(s.head)
    && forall i :: 0 <= i < |s.parts| ==> WellSpelled(s.parts[i])
  }

  ghost function Spell(s: Spelled): seq<Byte>
    decreases s, 1
  {
    [s.tag] + BigEndian(s.field, s.width) + s.payload + SpellAll(s.parts)
  }

  ghost function SpellAll(parts: seq<Spelled>): seq<Byte>
    decreases parts, 0
  {
    if parts == [] then [] else Spell(parts[0]) + SpellAll(parts[1..])
  }

  /** The document that was spelled. */
  ghost function DocOf(s: Spelled): Doc
    decreases s, 1
  {
    match s.head
    case ArrayHead(_) => Array(DocsOf(s.parts))
    case MapHead(_) => Map(DocsOf(s.parts))
    case h => Atom(h, s.payload)
  }

  ghost function DocsOf(parts: seq<Spelled>): (ds: seq<Doc>)
    ensures |ds| == |parts|
    decreases parts, 0
  {
    if parts == [] then [] else [DocOf(parts[0])] + DocsOf(parts[1..])
  }

  // ---------- every spelling is read ----------

  lemma ParseForm(h: Head, t: Byte, w: nat, n: nat, x: seq<Byte>)
    requires Permits(h, t, w, n)
    ensures var head := [t] + BigEndian(n, w); Parse(head + x) == ParseBody(head + x, |head|, h)
  {
    hide Permits, HeadOf;
    FormIff(h, t, w, n);
    BigEndianRoundTrip(n, w);
    var head := [t] + BigEndian(n, w);
    assert (head + x)[1..1 + w] == BigEndian(n, w);
  }

  /** Reading a document written in any permitted forms gives it back, and what followed it. */
  lemma {:induction false} ParseSpelled(s: Spelled, x: seq<Byte>)
    requires WellSpelled(s)
    ensures Parse(Spell(s) + x) == Some(Parsed(DocOf(s), x))
    decreases s, 1
  {
    hide Permits, Parse, Spell;
    var head := [s.tag] + BigEndian(s.field, s.width);
    var after := s.payload + SpellAll(s.parts) + x;
    ParseForm(s.head, s.tag, s.width, s.field, after);
    ParseAllSpelled(s.parts, x);
    SpellParts(s);
    assert Spell(s) + x == head + after;
    assert (head + after)[|head|..] == after;
    if s.head.ArrayHead? || s.head.MapHead? {
      assert after == SpellAll(s.parts) + x;
    } else {
      var end := |head| + PayloadBytes(s.head);
      assert s.parts == [] && (head + after)[|head|..end] == s.payload && (head + after)[end..] == x;
    }
  }

  lemma SpellParts(s: Spelled)
    ensures Spell(s) == [s.tag] + BigEndian(s.field, s.width) + s.payload + SpellAll(s.parts)
    ensures s.parts == [] ==> SpellAll(s.parts) == []
  {
  }

  lemma {:induction false} ParseAllSpelled(parts: seq<Spelled>, x: seq<Byte>)
    requires forall i :: 0 <= i < |parts| ==> WellSpelled(parts[i])
    ensures ParseMany(SpellAll(parts) + x, |parts|) == Some(Parsed(DocsOf(parts), x))
    decreases parts, 0
  {
    hide WellSpelled, Parse, Spell;
    if parts == [] {
      assert SpellAll(parts) + x == x;
    } else {
      var rest := SpellAll(parts[1..]) + x;
      assert SpellAll(parts) + x == Spell(parts[0]) + rest;
      ParseSpelled(parts[0], rest);
      ParseAllSpelled(parts[1..], x);
      ParseManyStep(SpellAll(parts) + x, |parts|, Parsed(DocOf(parts[0]), rest), Parsed(DocsOf(parts[1..]), x));
    }
  }

  // ---------- and nothing else is ----------

  /** The head of what the reader accepts is in a permitted form. */
  lemma HeadOfParsed(b: seq<Byte>) returns (w: nat, n: nat, h: Head)
    requires Parse(b).Some?
    ensures b != [] && 1 + w <= |b| && Permits(h, b[0], w, n) && Parse(b) == ParseBody(b, 1 + w, h)
    ensures b == [b[0]] + BigEndian(n, w) + b[1 + w..]
  {
    hide Permits, HeadOf, FieldWidth, ParseBody;
    w := FieldWidth(b[0]);
    n := FromBigEndian(b[1..1 + w]);
    h := HeadOf(b[0], n);
    FormIff(h, b[0], w, n);
    FieldBytes(b[1..1 + w]);
  }

  /** Whatever the reader accepts is a document written in permitted forms. */
  lemma {:induction false} ParsedIsSpelled(b: seq<Byte>) returns (s: Spelled)
    requires Parse(b).Some?
    ensures WellSpelled(s) && b == Spell(s) + Parse(b).value.rest && DocOf(s) == Parse(b).value.value
    decreases |b|, 1
  {
    hide Permits, Parse, ParseBody, ParseMany, Spell, SpellAll, DocOf, DocsOf, WellSpelled;
    var w, n, h := HeadOfParsed(b);
    var head, after := [b[0]] + BigEndian(n, w), b[1 + w..];
    if h.ArrayHead? || h.MapHead? {
      ParsedMany(b, 1 + w, h);
      var parts := ManyAreSpelled(after, Members(h));
      s := Spelled(h, b[0], w, n, [], parts);
      SpelledParts(s, head, parts);
      Regrouped(head, SpellAll(parts), ParseMany(after, Members(h)).value.rest);
    } else {
      var end := ParsedAtom(b, 1 + w, h);
      s := Spelled(h, b[0], w, n, b[1 + w..end], []);
      SpelledAtom(s, head);
      Regrouped(head, b[1 + w..end], b[end..]);
    }
  }

  lemma Regrouped(x: seq<Byte>, y: seq<Byte>, z: seq<Byte>)
    ensures x + (y + z) == x + y + z
  {
  }

  lemma ParsedMany(b: seq<Byte>, w: nat, h: Head)
    requires (h.ArrayHead? || h.MapHead?) && 0 < w <= |b| && ParseBody(b, w, h).Some?
    ensures ParseMany(b[w..], Members(h)).Some?
    ensures var many := ParseMany(b[w..], Members(h)).value;
            ParseBody(b, w, h) ==
            Some(Parsed(if h.ArrayHead? then Array(many.value) else Map(many.value), many.rest))
  {
    hide Parse, ParseMany;
  }

  lemma ParsedAtom(b: seq<Byte>, w: nat, h: Head) returns (end: nat)
    requires !h.ArrayHead? && !h.MapHead? && 0 < w <= |b| && ParseBody(b, w, h).Some?
    ensures end == w + PayloadBytes(h) <= |b| && b[w..] == b[w..end] + b[end..]
    ensures ParseBody(b, w, h) == Some(Parsed(Atom(h, b[w..end]), b[end..]))
  {
    end := w + PayloadBytes(h);
  }

  lemma SpelledParts(s: Spelled, head: seq<Byte>, parts: seq<Spelled>)
    requires s.head.ArrayHead? || s.head.MapHead?
    requires Permits(s.head, s.tag, s.width, s.field) && s.payload == [] && s.parts == parts
    requires |parts| == Members(s.head) && forall i :: 0 <= i < |parts| ==> WellSpelled(parts[i])
    requires head == [s.tag] + BigEndian(s.field, s.width)
    ensures WellSpelled(s) && Spell(s) == head + SpellAll(parts)
    ensures DocOf(s) == if s.head.ArrayHead? then Array(DocsOf(parts)) else Map(DocsOf(parts))
  {
    hide Permits, SpellAll, DocsOf;
  }

  lemma SpelledAtom(s: Spelled, head: seq<Byte>)
    requires !s.head.ArrayHead? && !s.head.MapHead?
    requires Permits(s.head, s.tag, s.width, s.field) && |s.payload| == PayloadBytes(s.head) && s.parts == []
    requires head == [s.tag] + BigEndian(s.field, s.width)
    ensures WellSpelled(s) && Spell(s) == head + s.payload && DocOf(s) == Atom(s.head, s.payload)
  {
    hide Permits;
  }

  lemma {:induction false} FieldBytes(b: seq<Byte>)
    ensures BigEndian(FromBigEndian(b), |b|) == b
  {
    if b != [] {
      FieldBytes(b[..|b| - 1]);
      LastDigit(FromBigEndian(b[..|b| - 1]), b[|b| - 1]);
      assert b == b[..|b| - 1] + [b[|b| - 1]];
    }
  }

  lemma LastDigit(q: nat, d: Byte)
    ensures (q * 256 + d) / 256 == q && (q * 256 + d) % 256 == d
  {
  }

  lemma {:induction false} ManyAreSpelled(b: seq<Byte>, n: nat) returns (parts: seq<Spelled>)
    requires ParseMany(b, n).Some?
    ensures |parts| == n && (forall i :: 0 <= i < n ==> WellSpelled(parts[i]))
    ensures b == SpellAll(parts) + ParseMany(b, n).value.rest && DocsOf(parts) == ParseMany(b, n).value.value
    decreases |b|, 2
  {
    hide Parse, WellSpelled, Spell, DocOf;
    if n == 0 {
      parts := [];
    } else {
      var first := Parse(b).value;
      var s := ParsedIsSpelled(b);
      var others := ManyAreSpelled(first.rest, n - 1);
      parts := [s] + others;
      assert parts[1..] == others;
      assert b == Spell(s) + (SpellAll(others) + ParseMany(first.rest, n - 1).value.rest);
    }
  }

  /** The reader reads `b` as `doc`, up to `rest`, exactly when `b` starts with a spelling of it. */
  lemma ParseIff(b: seq<Byte>, doc: Doc, rest: seq<Byte>)
    ensures Parse(b) == Some(Parsed(doc, rest)) <==>
            exists s :: WellSpelled(s) && DocOf(s) == doc && b == Spell(s) + rest
  {
    hide Parse, WellSpelled, Spell, DocOf;
    if Parse(b) == Some(Parsed(doc, rest)) {
      var s := ParsedIsSpelled(b);
    }
    if s :| WellSpelled(s) && DocOf(s) == doc && b == Spell(s) + rest {
      ParseSpelled(s, rest);
    }
  }
}
