/** UTF-8 as RFC 3629 section 3 defines it: the codec behind Python's strict
  `str.encode("utf-8")` and behind msgpack's `raw=False` string decoding. */
module Utf8 {
  import opened Wrappers
  import opened Bytes

  /** A Python string: its code points.  Lone surrogates are possible. */
  type Text = Word

  predicate Scalar(c: int) {
    0 <= c < 0xD800 || 0xE000 <= c < 0x11_0000
  }

  /** No lone surrogate: the strings `str.encode` accepts. */
  predicate WellFormed(s: Text) {
    forall i :: 0 <= i < |s| ==> Scalar(s[i])
  }

  function EncodeChar(c: int): (b: seq<Byte>)
    requires Scalar(c)
    ensures b != []
  {
    if c < 0x80 then [c]
    else if c < 0x800 then [0xC0 + c / 64, 0x80 + c % 64]
    else if c < 0x1_0000 then [0xE0 + c / 4096, 0x80 + c / 64 % 64, 0x80 + c % 64]
    else [0xF0 + c / 262144, 0x80 + c / 4096 % 64, 0x80 + c / 64 % 64, 0x80 + c % 64]
  }

  function Encode(s: Text): seq<Byte>
    requires WellFormed(s)
  {
    if s == [] then [] else EncodeChar(s[0]) + Encode(s[1..])
  }

  // ---------- the strict decoder ----------

  predicate Tail(b: Byte) {
    0x80 <= b < 0xC0
  }

  /** Append the six payload bits of a continuation byte. */
  function Join(high: int, b: Byte): int {
    high * 64 + (b as int - 0x80)
  }

  datatype Char = Char(code: int, width: nat)

  /** The first character of `b`; overlong forms, surrogates and values past 0x10FFFF are
    rejected. */
  function DecodeChar(b: seq<Byte>): Option<Char> {
    if b == [] then None
    else if b[0] < 0x80 then Some(Char(b[0], 1))
    else if b[0] < 0xC2 then None
    else if b[0] < 0xE0 then
      if |b| < 2 || !Tail(b[1]) then None
      else Some(Char(Join(b[0] - 0xC0, b[1]), 2))
    else if b[0] < 0xF0 then
      if |b| < 3 || !Tail(b[1]) || !Tail(b[2]) then None
      else
        var c := Join(Join(b[0] - 0xE0, b[1]), b[2]);
        if c < 0x800 || !Scalar(c) then None else Some(Char(c, 3))
    else if b[0] < 0xF5 then
      if |b| < 4 || !Tail(b[1]) || !Tail(b[2]) || !Tail(b[3]) then None
      else
        var c := Join(Join(Join(b[0] - 0xF0, b[1]), b[2]), b[3]);
        if c < 0x1_0000 || !Scalar(c) then None else Some(Char(c, 4))
    else None
  }

  function Decode(b: seq<Byte>): Option<Text> {
    if b == [] then Some([])
    else
      var first := DecodeChar(b);
      if first.None? || first.value.width == 0 || first.value.width > |b| then None
      else
        var rest := Decode(b[first.value.width..]);
        if rest.None? then None else Some([first.value.code] + rest.value)
  }

  lemma DecodeEncodedChar(c: int, x: seq<Byte>)
    requires Scalar(c)
    ensures DecodeChar(EncodeChar(c) + x) == Some(Char(c, |EncodeChar(c)|))
  {
    DecodeAlone(c);
    DecodePrefix(EncodeChar(c), x);
  }

  lemma DecodeAlone(c: int)
    requires Scalar(c)
    ensures DecodeChar(EncodeChar(c)) == Some(Char(c, |EncodeChar(c)|))
  {
    assert c == c / 64 * 64 + c % 64;
    assert c / 64 == c / 4096 * 64 + c / 64 % 64;
    assert c / 4096 == c / 262144 * 64 + c / 4096 % 64;
  }

  /** The decoder looks no further than the character it finds. */
  lemma DecodePrefix(e: seq<Byte>, x: seq<Byte>)
    requires DecodeChar(e).Some?
    ensures DecodeChar(e + x) == DecodeChar(e)
  {
    hide Scalar, Tail, Join;
    assert forall i :: 0 <= i < |e| ==> (e + x)[i] == e[i];
  }

  lemma JoinSplits(high: nat, b: Byte)
    requires Tail(b)
    ensures Join(high, b) / 64 == high && 0x80 + Join(high, b) % 64 == b
  {
  }

  lemma DivDiv(c: nat)
    ensures c / 4096 == c / 64 / 64 && c / 262144 == c / 64 / 64 / 64
  {
  }

  lemma DecodedCharIsEncoded(b: seq<Byte>)
    requires DecodeChar(b).Some?
    ensures var r := DecodeChar(b).value; Scalar(r.code) && 0 < r.width <= |b| && b[..r.width] == EncodeChar(r.code)
  {
    var r := DecodeChar(b).value;
    if r.width == 1 {
      assert b[..1] == [b[0]];
    } else if r.width == 2 {
      JoinSplits(b[0] - 0xC0, b[1]);
    } else if r.width == 3 {
      var j := Join(b[0] - 0xE0, b[1]);
      JoinSplits(b[0] - 0xE0, b[1]);
      JoinSplits(j, b[2]);
      DivDiv(r.code);
      assert EncodeChar(r.code) == [b[0], b[1], b[2]];
    } else {
      var j, k := Join(b[0] - 0xF0, b[1]), Join(Join(b[0] - 0xF0, b[1]), b[2]);
      JoinSplits(b[0] - 0xF0, b[1]);
      JoinSplits(j, b[2]);
      JoinSplits(k, b[3]);
      DivDiv(r.code);
      assert EncodeChar(r.code) == [b[0], b[1], b[2], b[3]];
    }
  }

  lemma {:induction false} RoundTrip(s: Text)
    requires WellFormed(s)
    ensures Decode(Encode(s)) == Some(s)
  {
    hide DecodeChar, EncodeChar;
    if s != [] {
      DecodeEncodedChar(s[0], Encode(s[1..]));
      RoundTrip(s[1..]);
      assert Encode(s)[|EncodeChar(s[0])|..] == Encode(s[1..]);
      assert s == [s[0]] + s[1..];
    }
  }

  /** The strict decoder accepts nothing but encodings: UTF-8 has one form per string. */
  lemma {:induction false} DecodeSound(b: seq<Byte>, s: Text)
    requires Decode(b) == Some(s)
    ensures WellFormed(s) && Encode(s) == b
  {
    hide DecodeChar, EncodeChar;
    if b != [] {
      var first := DecodeChar(b).value;
      DecodedCharIsEncoded(b);
      DecodeSound(b[first.width..], s[1..]);
      assert b == b[..first.width] + b[first.width..];
    }
  }

  // ---------- UTF-8 preserves the code point order ----------

  lemma {:induction false} LexAt(u: Word, v: Word, i: nat)
    requires i < |u| && i < |v| && u[..i] == v[..i] && u[i] < v[i]
    ensures LexLess(u, v)
  {
    if i > 0 {
      assert u[0] == u[..i][0] == v[..i][0];
      assert u[1..][..i - 1] == u[..i][1..] && v[1..][..i - 1] == v[..i][1..];
      LexAt(u[1..], v[1..], i - 1);
    }
  }

  lemma {:induction false} LexCommonPrefix(p: Word, x: Word, y: Word)
    requires LexLess(x, y)
    ensures LexLess(p + x, p + y)
  {
    if p == [] {
      assert p + x == x && p + y == y;
    } else {
      LexCommonPrefix(p[1..], x, y);
      assert (p + x)[1..] == p[1..] + x && (p + y)[1..] == p[1..] + y;
    }
  }

  lemma Digits(c: int, d: int)
    requires 0 <= c < d
    ensures c / 64 <= d / 64 && (c / 64 == d / 64 ==> c % 64 < d % 64)
  {
  }

  ghost function CharOrder3(c: int, d: int): (i: nat)
    requires 0x800 <= c < d < 0x1_0000 && Scalar(c) && Scalar(d)
    ensures var u, v := EncodeChar(c), EncodeChar(d); i < 3 && u[..i] == v[..i] && u[i] < v[i]
  {
    DivDiv(c); DivDiv(d); Digits(c, d);
    if c / 64 == d / 64 then 2
    else
      Digits(c / 64, d / 64);
      if c / 4096 == d / 4096 then 1 else 0
  }

  ghost function CharOrder4(c: int, d: int): (i: nat)
    requires 0x1_0000 <= c < d && Scalar(c) && Scalar(d)
    ensures var u, v := EncodeChar(c), EncodeChar(d); i < 4 && u[..i] == v[..i] && u[i] < v[i]
  {
    DivDiv(c); DivDiv(d); Digits(c, d);
    if c / 64 == d / 64 then 3
    else
      Digits(c / 64, d / 64);
      if c / 4096 == d / 4096 then 2
      else
        Digits(c / 4096, d / 4096);
        if c / 262144 == d / 262144 then 1 else 0
  }

  /** The encodings of two characters differ first at a byte that compares as they do. */
  lemma CharOrder(c: int, d: int) returns (i: nat)
    requires Scalar(c) && Scalar(d) && c < d
    ensures var u, v := EncodeChar(c), EncodeChar(d); i < |u| && i < |v| && u[..i] == v[..i] && u[i] < v[i]
  {
    if c < 0x80 {
      i := 0;
    } else if c < 0x800 {
      Digits(c, d);
      i := if d >= 0x800 || c / 64 < d / 64 then 0 else 1;
    } else if c < 0x1_0000 {
      i := if d >= 0x1_0000 then 0 else CharOrder3(c, d);
    } else {
      i := CharOrder4(c, d);
    }
  }

  lemma {:induction false} PreservesLess(a: Text, b: Text)
    requires WellFormed(a) && WellFormed(b) && LexLess(a, b)
    ensures LexLess(Encode(a), Encode(b))
  {
    hide EncodeChar;
    if a == [] {
    } else if a[0] == b[0] {
      PreservesLess(a[1..], b[1..]);
      LexCommonPrefix(EncodeChar(a[0]), Encode(a[1..]), Encode(b[1..]));
    } else {
      var i := CharOrder(a[0], b[0]);
      var u, v := Encode(a), Encode(b);
      assert u[..i] == EncodeChar(a[0])[..i] && v[..i] == EncodeChar(b[0])[..i];
      LexAt(u, v, i);
    }
  }

  /** Comparing strings by code point and comparing their UTF-8 bytes is the same. */
  lemma PreservesOrder(a: Text, b: Text)
    requires WellFormed(a) && WellFormed(b)
    ensures LexLess(a, b) <==> LexLess(Encode(a), Encode(b))
  {
    if LexLess(a, b) {
      PreservesLess(a, b);
    } else if LexLess(Encode(a), Encode(b)) {
      LexTotal(a, b);
      LexIrreflexive(Encode(a));
      if LexLess(b, a) {
        PreservesLess(b, a);
        LexTransitive(Encode(a), Encode(b), Encode(a));
      }
    }
  }
}
