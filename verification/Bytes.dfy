/** Byte strings, big-endian integers and the lexicographic order on words.

  A word is a sequence of integers: a Python `str` is the word of its code points, a `bytes`
  object the word of its bytes.  `sorted` on either is the lexicographic order below. */
module Bytes {
  type Byte = x: int | 0 <= x < 256 witness 0

  type Word = seq<int>

  function Pow256(k: nat): (r: nat)
    ensures r > 0
  {
    if k == 0 then 1 else 256 * Pow256(k - 1)
  }

  lemma Pow256Values()
    ensures Pow256(0) == 1 && Pow256(1) == 0x100 && Pow256(2) == 0x1_0000 && Pow256(3) == 0x100_0000
    ensures Pow256(4) == 0x1_0000_0000 && Pow256(5) == 0x100_0000_0000
    ensures Pow256(8) == 0x1_0000_0000_0000_0000
  {
    assert Pow256(2) == 256 * Pow256(1);
    assert Pow256(4) == 256 * Pow256(3);
    assert Pow256(6) == 256 * Pow256(5);
    assert Pow256(7) == 256 * Pow256(6);
    assert Pow256(8) == 256 * Pow256(7);
  }

  /** `n.to_bytes(k, "big")` for n below 256^k. */
  function BigEndian(n: nat, k: nat): (r: seq<Byte>)
    ensures |r| == k
  {
    if k == 0 then [] else BigEndian(n / 256, k - 1) + [n % 256]
  }

  function FromBigEndian(b: seq<Byte>): (n: nat)
    ensures n < Pow256(|b|)
  {
    if b == [] then 0 else FromBigEndian(b[..|b| - 1]) * 256 + b[|b| - 1]
  }

  lemma {:induction false} BigEndianRoundTrip(n: nat, k: nat)
    requires n < Pow256(k)
    ensures FromBigEndian(BigEndian(n, k)) == n
  {
    if k > 0 {
      BigEndianRoundTrip(n / 256, k - 1);
      var b := BigEndian(n, k);
      assert b[..|b| - 1] == BigEndian(n / 256, k - 1);
    }
  }

  /** Byte i of the k is the digit of 256^(k - 1 - i): the most significant comes first. */
  lemma {:induction false} BigEndianAt(n: nat, k: nat, i: nat)
    requires i < k
    ensures BigEndian(n, k)[i] == n / Pow256(k - 1 - i) % 256
  {
    if i < k - 1 {
      BigEndianAt(n / 256, k - 1, i);
      DivideTwice(n, 256, Pow256(k - 2 - i));
    }
  }

  lemma DivideTwice(n: nat, a: nat, b: nat)
    requires a > 0 && b > 0
    ensures a * b > 0 && n / a / b == n / (a * b)
  {
    Positive(a, b);
    var d, s := Divided(n, a);
    var q, r := Divided(d, b);
    var q', r' := Divided(n, a * b);
    Regroup(a, b, q, r, s);
    QuotientUnique(a * b, q, r * a + s, q', r');
  }

  lemma Positive(a: nat, b: nat)
    requires a > 0 && b > 0
    ensures a * b > 0
  {
  }

  lemma Divided(n: nat, m: nat) returns (q: nat, r: nat)
    requires m > 0
    ensures q == n / m && n == q * m + r && r < m
  {
    q, r := n / m, n % m;
  }

  lemma Regroup(a: nat, b: nat, q: nat, r: nat, s: nat)
    requires r < b && s < a
    ensures (q * b + r) * a + s == q * (a * b) + (r * a + s)
    ensures r * a + s < a * b
  {
    assert (q * b + r) * a == q * (a * b) + r * a;
    assert (b - 1 - r) * a >= 0;
    assert (b - 1 - r) * a == a * b - a - r * a;
  }

  lemma QuotientUnique(m: nat, q: nat, r: nat, d: nat, s: nat)
    requires q * m + r == d * m + s && r < m && s < m
    ensures q == d
  {
    assert (q - d) * m == s - r;
    Multiples(q - d, m);
  }

  lemma Multiples(x: int, m: int)
    requires m >= 0
    ensures x >= 1 ==> x * m >= m
    ensures x <= -1 ==> x * m <= -m
  {
    if x >= 1 {
      assert (x - 1) * m >= 0;
    } else {
      assert -x * m >= 0 && (x <= -1 ==> (-x - 1) * m >= 0);
    }
  }

  /** Byte strings one after another. */
  function Concat(parts: seq<seq<Byte>>): seq<Byte> {
    if parts == [] then [] else Concat(parts[..|parts| - 1]) + parts[|parts| - 1]
  }

  // ---------- lexicographic order ----------

  predicate LexLess(a: Word, b: Word)
  {
    b != [] && (a == [] || a[0] < b[0] || (a[0] == b[0] && LexLess(a[1..], b[1..])))
  }

  /** The word `a` ends before `b` does, or is smaller where they first differ. */
  ghost predicate DiffersAt(a: Word, b: Word, i: nat) {
    i <= |a| && i < |b| && a[..i] == b[..i] && (i == |a| || a[i] < b[i])
  }

  lemma {:induction false} LexIff(a: Word, b: Word)
    ensures LexLess(a, b) <==> exists i: nat :: DiffersAt(a, b, i)
  {
    forall i: nat | i > 0 && DiffersAt(a, b, i) ensures a != [] && b != [] && a[0] == b[0] {
      assert a[0] == a[..i][0] && b[0] == b[..i][0];
    }
    if a == [] || b == [] || a[0] != b[0] {
      if LexLess(a, b) { assert DiffersAt(a, b, 0); }
    } else {
      LexIff(a[1..], b[1..]);
      forall i: nat ensures DiffersAt(a[1..], b[1..], i) <==> DiffersAt(a, b, i + 1) {
        if i < |a| && i < |b| {
          assert a[..i + 1] == [a[0]] + a[1..][..i] && b[..i + 1] == [b[0]] + b[1..][..i];
          assert a[1..][..i] == a[..i + 1][1..] && b[1..][..i] == b[..i + 1][1..];
        }
      }
      assert !DiffersAt(a, b, 0);
      forall i: nat | DiffersAt(a, b, i) ensures DiffersAt(a[1..], b[1..], i - 1) {}
    }
  }

  predicate LexLeq(a: Word, b: Word) {
    a == b || LexLess(a, b)
  }

  lemma LexIrreflexive(a: Word)
    ensures !LexLess(a, a)
  {
  }

  lemma {:induction false} LexTransitive(a: Word, b: Word, c: Word)
    requires LexLess(a, b) && LexLess(b, c)
    ensures LexLess(a, c)
  {
    if a != [] && a[0] == b[0] && b[0] == c[0] {
      LexTransitive(a[1..], b[1..], c[1..]);
    }
  }

  lemma {:induction false} LexTotal(a: Word, b: Word)
    ensures LexLess(a, b) || LexLess(b, a) || a == b
  {
    if a != [] && b != [] && a[0] == b[0] {
      LexTotal(a[1..], b[1..]);
      assert a == [a[0]] + a[1..] && b == [b[0]] + b[1..];
    }
  }

  ghost predicate Increasing(s: seq<Word>) {
    forall i, j :: 0 <= i < j < |s| ==> LexLess(s[i], s[j])
  }

  predicate IsMinimum(m: Word, s: set<Word>) {
    m in s && forall x :: x in s ==> LexLeq(m, x)
  }

  lemma {:induction false} MinimumExists(s: set<Word>) returns (m: Word)
    requires s != {}
    ensures IsMinimum(m, s)
    decreases |s|
  {
    m :| m in s;
    var rest := s - {m};
    if rest != {} {
      var m' := MinimumExists(rest);
      LexTotal(m, m');
      if LexLess(m', m) {
        forall x | x in s ensures LexLeq(m', x) {
          if x != m { assert x in rest; }
        }
        m := m';
      } else {
        forall x | x in s ensures LexLeq(m, x) {
          if x != m {
            assert x in rest;
            if m' != x && m != m' { LexTransitive(m, m', x); }
          }
        }
      }
    } else {
      assert s == {m};
    }
  }

  lemma ConsMinimum(m: Word, s: set<Word>, rest: seq<Word>)
    requires IsMinimum(m, s) && Increasing(rest) && |rest| == |s| - 1
    requires forall x :: x in rest <==> x in s - {m}
    ensures Increasing([m] + rest) && forall x :: x in [m] + rest <==> x in s
  {
    var r := [m] + rest;
    forall i, j | 0 <= i < j < |r| ensures LexLess(r[i], r[j]) {
      if i == 0 { assert rest[j - 1] in rest; }
    }
  }

  ghost predicate SortedOf(r: seq<Word>, s: set<Word>) {
    |r| == |s| && Increasing(r) && forall x :: x in r <==> x in s
  }

  lemma {:induction false} SortedExists(s: set<Word>) returns (r: seq<Word>)
    ensures SortedOf(r, s)
    decreases |s|
  {
    if s == {} {
      r := [];
    } else {
      var m := MinimumExists(s);
      var rest := SortedExists(s - {m});
      ConsMinimum(m, s, rest);
      r := [m] + rest;
    }
  }

  /** What Python's `sorted` returns for a set of strings (or of byte strings). */
  ghost function Sorted(s: set<Word>): (r: seq<Word>)
    ensures SortedOf(r, s)
  {
    assert exists r :: SortedOf(r, s) by { var r := SortedExists(s); }
    var r :| SortedOf(r, s);
    r
  }

  /** Strictly increasing sequences over the same elements are equal: the sorted form of a
    set does not depend on the order its elements are met in. */
  lemma {:induction false} IncreasingUnique(a: seq<Word>, b: seq<Word>)
    requires Increasing(a) && Increasing(b)
    requires forall x :: x in a <==> x in b
    ensures a == b
  {
    if a == [] {
      assert forall i :: 0 <= i < |b| ==> b[i] in b;
    } else {
      assert a[0] in b;
      var j :| 0 <= j < |b| && b[j] == a[0];
      assert b[0] in a;
      var i :| 0 <= i < |a| && a[i] == b[0];
      if i > 0 && j > 0 {
        LexTransitive(a[0], a[i], b[j]);
        LexIrreflexive(a[0]);
        assert false;
      }
      assert a[0] == b[0];
      forall x | x in a[1..] ensures x in b[1..] {
        var k :| 1 <= k < |a| && a[k] == x;
        LexIrreflexive(a[0]);
        assert x in b;
      }
      forall x | x in b[1..] ensures x in a[1..] {
        var k :| 1 <= k < |b| && b[k] == x;
        LexIrreflexive(b[0]);
        assert x in a;
      }
      IncreasingUnique(a[1..], b[1..]);
      assert a == [a[0]] + a[1..] && b == [b[0]] + b[1..];
    }
  }
}
