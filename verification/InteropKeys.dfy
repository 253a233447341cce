/** Cache keys of interop mode: what they depend on, and when two of them are equal. */
module InteropKeys {
  import opened Wrappers
  import opened Bytes
  import opened Utf8
  import opened DataModel
  import opened CanonicalForm
  import opened Float64
  import opened PyObjects
  import opened InteropArgs

  // ---------- what the value of an argument does not depend on ----------

  /** An integer passed as a float whose value it is, -0.0 included, is the same argument and
    is always encodable. */
  lemma {:induction false} FloatIsItsInteger(bits: Bits, n: int, unix: UnixTime)
    requires Finite(bits) && Value(bits) == n as real
    requires -0x8000_0000_0000_0000 <= n < 0x1_0000_0000_0000_0000
    ensures ArgData(PyFloat(bits), unix) == ArgData(PyInt(n), unix) == Some(Int(n))
    ensures Sendable(Int(n))
    ensures ArgData(PyFloat(NEGATIVE_ZERO), unix) == ArgData(PyInt(0), unix)
  {
    hide Value, IsInteger, ToInt, Finite;
    IntegerTest(bits, n);
    NegativeZeroIsZero();
  }

  /** A float argument is the integer it equals, where that is in range, and itself otherwise, out of
    range or fractional; NaN and the infinities have no value. */
  lemma {:induction false} FloatArgument(bits: Bits, unix: UnixTime)
    ensures !Finite(bits) ==> ArgData(PyFloat(bits), unix).None?
    ensures Finite(bits) && (exists n: int :: EqualsInRange(bits, n)) ==>
              exists n: int :: EqualsInRange(bits, n) && ArgData(PyFloat(bits), unix) == Some(Int(n))
    ensures Finite(bits) && !(exists n: int :: EqualsInRange(bits, n)) ==>
              ArgData(PyFloat(bits), unix) == Some(Double(bits))
  {
    hide Value, IsInteger, ToInt, Finite;
    if Finite(bits) {
      forall n: int | EqualsInRange(bits, n) ensures IsInteger(bits) && ToInt(bits) == n { IntegerTest(bits, n); }
      if IsInteger(bits) && -0x8000_0000_0000_0000 <= ToInt(bits) < 0x1_0000_0000_0000_0000 {
        IntegerTest(bits, ToInt(bits));
        assert EqualsInRange(bits, ToInt(bits));
      }
    }
  }

  ghost predicate EqualsInRange(bits: Bits, n: int) {
    Finite(bits) && Value(bits) == n as real && -0x8000_0000_0000_0000 <= n < 0x1_0000_0000_0000_0000
  }

  // ---------- the key ----------

  predicate SegmentStart(c: int) {
    'a' as int <= c <= 'z' as int || '0' as int <= c <= '9' as int
  }

  predicate SegmentChar(c: int) {
    SegmentStart(c) || c == '.' as int || c == '_' as int || c == '-' as int
  }

  /** A full match of ^[a-z0-9][a-z0-9._-]{0,63}$. */
  predicate ValidSegment(s: Text) {
    1 <= |s| <= 64 && SegmentStart(s[0]) && forall i :: 0 <= i < |s| ==> SegmentChar(s[i])
  }

  const LOWER_OR_DIGIT := AsText("abcdefghijklmnopqrstuvwxyz0123456789")
  const PUNCTUATION := AsText("._-")

  lemma CharClasses(c: int)
    ensures SegmentStart(c) <==> c in LOWER_OR_DIGIT
    ensures SegmentChar(c) <==> c in LOWER_OR_DIGIT + PUNCTUATION
  {
    var letters := "abcdefghijklmnopqrstuvwxyz0123456789";
    assert forall i :: 0 <= i < 26 ==> letters[i] as int == 97 + i;
    assert forall i :: 26 <= i < 36 ==> letters[i] as int == 22 + i;
    if 97 <= c <= 122 { assert LOWER_OR_DIGIT[c - 97] == c; }
    if 48 <= c <= 57 { assert LOWER_OR_DIGIT[c - 22] == c; }
    assert PUNCTUATION == ['.' as int, '_' as int, '-' as int];
  }

  /** A valid segment is one lower-case letter or digit and at most 63 of those, dots, underscores and
    hyphens after it. */
  lemma SegmentIff(s: Text)
    ensures ValidSegment(s) <==>
            exists c, rest :: s == [c] + rest && c in LOWER_OR_DIGIT && |rest| <= 63 &&
                              forall x :: x in rest ==> x in LOWER_OR_DIGIT + PUNCTUATION
  {
    hide SegmentStart, SegmentChar, AsText;
    forall c
      ensures SegmentStart(c) <==> c in LOWER_OR_DIGIT
      ensures SegmentChar(c) <==> c in LOWER_OR_DIGIT + PUNCTUATION
    {
      CharClasses(c);
    }
    if ValidSegment(s) {
      assert s == [s[0]] + s[1..];
    }
    if c, rest :| s == [c] + rest && c in LOWER_OR_DIGIT && |rest| <= 63 &&
                  forall x :: x in rest ==> x in LOWER_OR_DIGIT + PUNCTUATION {
      assert forall i :: 0 < i < |s| ==> s[i] in rest;
    }
  }

  function HexDigit(n: int): int
    requires 0 <= n < 16
  {
    if n < 10 then '0' as int + n else 'a' as int + (n - 10)
  }

  function Hex(b: seq<Byte>): (t: Text)
    ensures |t| == 2 * |b|
  {
    if b == [] then [] else [HexDigit(b[0] / 16), HexDigit(b[0] % 16)] + Hex(b[1..])
  }

  lemma {:induction false} HexInjective(a: seq<Byte>, b: seq<Byte>)
    requires Hex(a) == Hex(b)
    ensures a == b
  {
    assert |Hex(a)| == |Hex(b)|;
    if a != [] {
      assert Hex(a)[0] == HexDigit(a[0] / 16) && Hex(b)[0] == HexDigit(b[0] / 16);
      assert Hex(a)[1] == HexDigit(a[0] % 16) && Hex(b)[1] == HexDigit(b[0] % 16);
      assert Hex(a)[2..] == Hex(a[1..]) && Hex(b)[2..] == Hex(b[1..]);
      HexInjective(a[1..], b[1..]);
      assert a == [a[0]] + a[1..] && b == [b[0]] + b[1..];
    }
  }

  const COLON: Text := [':' as int]

  /** `generate_interop_key`; `hash` is Blake2b-256. */
  ghost function GenerateKey(ns: Text, op: Text, args: seq<Py>, unix: UnixTime, hash: seq<Byte> -> seq<Byte>)
    : Result<Text>
  {
    if !ValidSegment(ns) || !ValidSegment(op) then Err(BadSegment)
    else
      match CanonicalArgs(args, unix)
      case Err(e) => Err(e)
      case Ok(b) => Ok(ns + COLON + op + COLON + Hex(hash(b)))
  }

  /** At most 64 + 1 + 64 + 1 + 64 characters. */
  lemma KeyLength(ns: Text, op: Text, args: seq<Py>, unix: UnixTime, hash: seq<Byte> -> seq<Byte>)
    requires forall b: seq<Byte> :: |hash(b)| == 32
    ensures GenerateKey(ns, op, args, unix, hash).Ok? ==> |GenerateKey(ns, op, args, unix, hash).value| <= 194
  {
    hide CanonicalArgs;
    if GenerateKey(ns, op, args, unix, hash).Ok? {
      assert |Hex(hash(CanonicalArgs(args, unix).value))| == 64;
    }
  }

  lemma {:induction false} SplitUnique(a: Text, x: Text, b: Text, y: Text)
    requires a + COLON + x == b + COLON + y
    requires ':' as int !in a && ':' as int !in b
    ensures a == b && x == y
  {
    var s := a + COLON + x;
    assert s[|a|] == ':' as int && s[|b|] == ':' as int;
    assert forall i :: 0 <= i < |a| ==> s[i] == a[i] && a[i] in a;
    assert forall i :: 0 <= i < |b| ==> s[i] == b[i] && b[i] in b;
    assert |a| == |b|;
    assert a == s[..|a|] == b;
    assert x == s[|a| + 1..] == y;
  }

  lemma NoColon(s: Text)
    requires ValidSegment(s)
    ensures ':' as int !in s
  {
  }

  /** Two keys are equal exactly when namespace, operation and the values of the argument lists
    are, unless Blake2b collides on the two argument encodings. */
  lemma {:induction false} KeysEqual(ns: Text, op: Text, args: seq<Py>, ns': Text, op': Text, args': seq<Py>,
                                     unix: UnixTime, hash: seq<Byte> -> seq<Byte>)
    requires Proper(PyList(args)) && Proper(PyList(args'))
    requires GenerateKey(ns, op, args, unix, hash).Ok? && GenerateKey(ns', op', args', unix, hash).Ok?
    requires hash(CanonicalArgs(args, unix).value) == hash(CanonicalArgs(args', unix).value) ==>
               CanonicalArgs(args, unix).value == CanonicalArgs(args', unix).value
    ensures GenerateKey(ns, op, args, unix, hash) == GenerateKey(ns', op', args', unix, hash) <==>
            ns == ns' && op == op' && ArgData(PyList(args), unix) == ArgData(PyList(args'), unix)
  {
    hide CanonicalArgs, ArgData, Canonical, Sendable, Hex, ValidSegment;
    ArgsAreCanonical(args, unix);
    ArgsAreCanonical(args', unix);
    var b, b' := CanonicalArgs(args, unix).value, CanonicalArgs(args', unix).value;
    var k, k' := GenerateKey(ns, op, args, unix, hash).value, GenerateKey(ns', op', args', unix, hash).value;
    if k == k' {
      NoColon(ns);
      NoColon(ns');
      NoColon(op);
      NoColon(op');
      assert k == ns + COLON + (op + COLON + Hex(hash(b))) && k' == ns' + COLON + (op' + COLON + Hex(hash(b')));
      SplitUnique(ns, op + COLON + Hex(hash(b)), ns', op' + COLON + Hex(hash(b')));
      SplitUnique(op, Hex(hash(b)), op', Hex(hash(b')));
      HexInjective(hash(b), hash(b'));
      CanonicalInjective(ArgData(PyList(args), unix).value, ArgData(PyList(args'), unix).value);
    }
  }

  /** A key exists exactly for valid segments and arguments in the data model. */
  lemma KeyExists(ns: Text, op: Text, args: seq<Py>, unix: UnixTime, hash: seq<Byte> -> seq<Byte>)
    requires Proper(PyList(args))
    ensures GenerateKey(ns, op, args, unix, hash).Ok? <==>
            ValidSegment(ns) && ValidSegment(op) &&
            ArgData(PyList(args), unix).Some? && Sendable(ArgData(PyList(args), unix).value)
  {
    hide CanonicalArgs, ArgData, Canonical, Sendable, Hex, ValidSegment;
    ArgsAreCanonical(args, unix);
  }

  // ---------- reading a key ----------

  function FirstColon(t: Text): (i: nat)
    ensures i <= |t|
  {
    if t == [] || t[0] == ':' as int then 0 else FirstColon(t[1..]) + 1
  }

  function DigitValue(c: int): (n: int)
    ensures 0 <= n < 16
  {
    if '0' as int <= c <= '9' as int then c - '0' as int
    else if 'a' as int <= c <= 'f' as int then c - 'a' as int + 10
    else 0
  }

  function UnHex(t: Text): seq<Byte> {
    if |t| < 2 then [] else [DigitValue(t[0]) * 16 + DigitValue(t[1])] + UnHex(t[2..])
  }

  datatype KeyParts = KeyParts(ns: Text, op: Text, digest: seq<Byte>)

  /** A key as an operator reads it: namespace, operation, digest. */
  function ReadKey(k: Text): KeyParts {
    var i := FirstColon(k);
    var rest := if i < |k| then k[i + 1..] else [];
    var j := FirstColon(rest);
    KeyParts(k[..i], rest[..j], UnHex(if j < |rest| then rest[j + 1..] else []))
  }

  lemma {:induction false} ColonAfter(s: Text, x: Text)
    requires ':' as int !in s
    ensures FirstColon(s + COLON + x) == |s|
  {
    if s != [] {
      ColonAfter(s[1..], x);
      assert (s + COLON + x)[1..] == s[1..] + COLON + x;
    }
  }

  lemma {:induction false} UnHexHex(b: seq<Byte>)
    ensures UnHex(Hex(b)) == b
  {
    if b != [] {
      UnHexHex(b[1..]);
      assert Hex(b)[2..] == Hex(b[1..]);
    }
  }

  /** A key reads back as its namespace, its operation and the digest of the argument bytes. */
  lemma {:induction false} KeyReadsBack(ns: Text, op: Text, args: seq<Py>, unix: UnixTime, hash: seq<Byte> -> seq<Byte>)
    requires GenerateKey(ns, op, args, unix, hash).Ok?
    ensures ReadKey(GenerateKey(ns, op, args, unix, hash).value) ==
            KeyParts(ns, op, hash(CanonicalArgs(args, unix).value))
  {
    hide CanonicalArgs, ValidSegment, Hex, UnHex, FirstColon;
    var digest := Hex(hash(CanonicalArgs(args, unix).value));
    NoColon(ns);
    NoColon(op);
    var k, rest := GenerateKey(ns, op, args, unix, hash).value, op + COLON + digest;
    assert k == ns + COLON + rest;
    ColonAfter(ns, rest);
    ColonAfter(op, digest);
    assert k[|ns| + 1..] == rest && k[..|ns|] == ns && rest[..|op|] == op && rest[|op| + 1..] == digest;
    UnHexHex(hash(CanonicalArgs(args, unix).value));
  }
}
