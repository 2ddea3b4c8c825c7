/**
  PHP strings are byte strings.  This module fixes the byte type, the
  handful of byte constants the PO scanner looks at, the byte-wise
  lexicographic order that `ksort` is modelled with, and the sorting of a
  set of keys (byte strings or plural indices) into ascending order.
*/
module ByteString {

  newtype byte = b: int | 0 <= b < 256
  type Bytes = seq<byte>

  /** The bytes of an ASCII literal. */
  function Ascii(s: string): (r: Bytes)
    ensures |r| == |s|
  {
    seq(|s|, i requires 0 <= i < |s| => (s[i] as int % 256) as byte)
  }

  const NUL: byte := 0
  const TAB: byte := 9
  const LF: byte := 10
  const VT: byte := 11
  const FF: byte := 12
  const CR: byte := 13
  const SPACE: byte := 32
  const QUOTE: byte := '"' as byte
  const HASH: byte := '#' as byte
  const BACKSLASH: byte := '\\' as byte

  predicate IsDigit(b: byte) { '0' as byte <= b <= '9' as byte }

  // ---------------------------------------------------------------------------
  // Byte-wise lexicographic order

  /** `a` sorts strictly before `b`, comparing byte by byte; a proper prefix sorts first. */
  predicate Less(a: Bytes, b: Bytes)
  {
    if a == [] then b != []
    else if b == [] then false
    else a[0] < b[0] || (a[0] == b[0] && Less(a[1..], b[1..]))
  }

  lemma {:induction false} LessIrreflexive(a: Bytes)
    ensures !Less(a, a)
  {
    if a != [] { LessIrreflexive(a[1..]); }
  }

  lemma {:induction false} LessAsymmetric(a: Bytes, b: Bytes)
    requires Less(a, b)
    ensures !Less(b, a)
  {
    if a != [] && b != [] && a[0] == b[0] { LessAsymmetric(a[1..], b[1..]); }
  }

  lemma {:induction false} LessTransitive(a: Bytes, b: Bytes, c: Bytes)
    requires Less(a, b) && Less(b, c)
    ensures Less(a, c)
  {
    if a != [] && b != [] && c != [] && a[0] == b[0] && b[0] == c[0] {
      LessTransitive(a[1..], b[1..], c[1..]);
    }
  }

  lemma {:induction false} LessTotal(a: Bytes, b: Bytes)
    ensures a == b || Less(a, b) || Less(b, a)
  {
    if a != [] && b != [] && a[0] == b[0] {
      LessTotal(a[1..], b[1..]);
      if a[1..] == b[1..] {
        assert a == [a[0]] + a[1..] && b == [b[0]] + b[1..];
      }
    }
  }

  lemma LessAsymmetricAll()
    ensures forall a: Bytes, b: Bytes :: Less(a, b) ==> !Less(b, a)
  {
    forall a: Bytes, b: Bytes | Less(a, b) ensures !Less(b, a) { LessAsymmetric(a, b); }
  }

  /** The empty string sorts before every other string. */
  lemma EmptyIsLeast(a: Bytes)
    requires a != []
    ensures Less([], a)
  {
  }

  predicate StrictlySorted(s: seq<Bytes>)
  {
    forall i, j | 0 <= i < j < |s| :: Less(s[i], s[j])
  }

  predicate IsLeast(m: Bytes, s: set<Bytes>)
  {
    forall x | x in s && x != m :: Less(m, x)
  }

  lemma {:induction false} LeastExists(s: set<Bytes>)
    requires s != {}
    ensures exists m :: m in s && IsLeast(m, s)
    decreases |s|
  {
    var x :| x in s;
    if s == {x} {
      assert IsLeast(x, s);
    } else {
      var rest := s - {x};
      LeastExists(rest);
      var m :| m in rest && IsLeast(m, rest);
      LessTotal(x, m);
      if Less(x, m) {
        forall y | y in s && y != x ensures Less(x, y) {
          if y != m { LessTransitive(x, m, y); }
        }
        assert IsLeast(x, s);
      } else {
        assert IsLeast(m, s);
      }
    }
  }

  lemma LeastUnique(s: set<Bytes>)
    ensures forall m1, m2 | m1 in s && IsLeast(m1, s) && m2 in s && IsLeast(m2, s) :: m1 == m2
  {
    forall m1, m2 | m1 in s && IsLeast(m1, s) && m2 in s && IsLeast(m2, s) ensures m1 == m2 {
      if m1 != m2 { LessAsymmetric(m1, m2); }
    }
  }

  /** The keys of a PHP array after `ksort`, modelled byte-wise: ascending, each once. */
  function SortedKeys(s: set<Bytes>): (r: seq<Bytes>)
    ensures |r| == |s|
    ensures forall x :: x in r <==> x in s
    ensures StrictlySorted(r)
    decreases |s|
  {
    if s == {} then []
    else
      LeastExists(s);
      LeastUnique(s);
      var m :| m in s && IsLeast(m, s);
      var rest := SortedKeys(s - {m});
      PrependLeast(m, s, rest);
      [m] + rest
  }

  lemma PrependLeast(m: Bytes, s: set<Bytes>, rest: seq<Bytes>)
    requires m in s && IsLeast(m, s)
    requires forall x :: x in rest <==> x in s - {m}
    requires StrictlySorted(rest)
    ensures forall x :: x in [m] + rest <==> x in s
    ensures StrictlySorted([m] + rest)
  {
    forall i, j | 0 <= i < j < |[m] + rest| ensures Less(([m] + rest)[i], ([m] + rest)[j]) {
      if i == 0 { assert ([m] + rest)[j] == rest[j - 1] && rest[j - 1] in s - {m}; }
      else { assert ([m] + rest)[i] == rest[i - 1] && ([m] + rest)[j] == rest[j - 1]; }
    }
  }

  // ---------------------------------------------------------------------------
  // Plural indices in ascending order

  predicate Increasing(s: seq<nat>)
  {
    forall i, j | 0 <= i < j < |s| :: s[i] < s[j]
  }

  predicate IsSmallest(m: nat, s: set<nat>)
  {
    forall x | x in s :: m <= x
  }

  lemma {:induction false} SmallestExists(s: set<nat>)
    requires s != {}
    ensures exists m :: m in s && IsSmallest(m, s)
    decreases |s|
  {
    var x :| x in s;
    if s == {x} {
      assert IsSmallest(x, s);
    } else {
      var rest := s - {x};
      SmallestExists(rest);
      var m :| m in rest && IsSmallest(m, rest);
      var least := if x < m then x else m;
      forall y | y in s ensures least <= y {
        if y != x { assert y in rest; }
      }
      assert least in s && IsSmallest(least, s);
    }
  }

  /** The integer keys of a PHP array after `ksort`: ascending, each once. */
  function SortedIndices(s: set<nat>): (r: seq<nat>)
    ensures |r| == |s|
    ensures forall x :: x in r <==> x in s
    ensures Increasing(r)
    decreases |s|
  {
    if s == {} then []
    else
      SmallestExists(s);
      var m :| m in s && IsSmallest(m, s);
      var rest := SortedIndices(s - {m});
      PrependSmallest(m, s, rest);
      [m] + rest
  }

  lemma PrependSmallest(m: nat, s: set<nat>, rest: seq<nat>)
    requires m in s && IsSmallest(m, s)
    requires forall x :: x in rest <==> x in s - {m}
    requires Increasing(rest)
    ensures forall x :: x in [m] + rest <==> x in s
    ensures Increasing([m] + rest)
  {
    forall i, j | 0 <= i < j < |[m] + rest| ensures ([m] + rest)[i] < ([m] + rest)[j] {
      if i == 0 { assert ([m] + rest)[j] == rest[j - 1] && rest[j - 1] in s - {m}; }
      else { assert ([m] + rest)[i] == rest[i - 1] && ([m] + rest)[j] == rest[j - 1]; }
    }
  }

  lemma {:induction false} IncreasingAbove(r: seq<nat>, k: nat)
    requires Increasing(r) && k < |r|
    ensures r[k] >= k
    decreases k
  {
    if k > 0 { IncreasingAbove(r, k - 1); }
  }

  lemma {:induction false} IncreasingBelow(r: seq<nat>, bound: nat, k: nat)
    requires Increasing(r) && k < |r|
    requires forall j | 0 <= j < |r| :: r[j] < bound
    ensures r[k] + (|r| - k) <= bound
    decreases |r| - k
  {
    if k + 1 < |r| { IncreasingBelow(r, bound, k + 1); }
  }

  /** The indices 0 .. n-1. */
  function Range(n: nat): (r: set<nat>)
    ensures forall i: nat :: i in r <==> i < n
    ensures |r| == n
  {
    if n == 0 then {} else Range(n - 1) + {n - 1}
  }

  /** The indices 0 .. n-1 sort to 0, 1, ..., n-1. */
  lemma SortedIndicesRange(n: nat)
    ensures SortedIndices(Range(n)) == seq(n, i requires 0 <= i < n => i)
  {
    var r := SortedIndices(Range(n));
    forall k | 0 <= k < n ensures r[k] == k {
      assert forall j | 0 <= j < |r| :: r[j] < n by {
        forall j | 0 <= j < |r| ensures r[j] < n { assert r[j] in r; }
      }
      IncreasingAbove(r, k);
      IncreasingBelow(r, n, k);
    }
  }

  // ---------------------------------------------------------------------------
  // `implode("\0", parts)` and its inverse

  /** The parts joined with one NUL byte between neighbours (`implode("\0", ...)`). */
  function JoinNul(parts: seq<Bytes>): Bytes
  {
    if |parts| == 0 then []
    else if |parts| == 1 then parts[0]
    else parts[0] + [NUL] + JoinNul(parts[1..])
  }

  /** Splits a byte string at every NUL byte, the way an MO reader recovers plural forms. */
  function SplitNul(s: Bytes): (parts: seq<Bytes>)
    ensures |parts| >= 1
    decreases |s|
  {
    if s == [] then [[]]
    else if s[0] == NUL then [[]] + SplitNul(s[1..])
    else
      var rest := SplitNul(s[1..]);
      [[s[0]] + rest[0]] + rest[1..]
  }

  lemma {:induction false} SplitNulFree(a: Bytes)
    requires NUL !in a
    ensures SplitNul(a) == [a]
    decreases |a|
  {
    if a != [] {
      SplitNulFree(a[1..]);
      assert [a[0]] + a[1..] == a;
    }
  }

  lemma {:induction false} SplitNulAppend(a: Bytes, b: Bytes)
    requires NUL !in a
    ensures SplitNul(a + [NUL] + b) == [a] + SplitNul(b)
    decreases |a|
  {
    if a == [] {
      assert a + [NUL] + b == [NUL] + b;
      assert ([NUL] + b)[1..] == b;
    } else {
      assert (a + [NUL] + b)[1..] == a[1..] + [NUL] + b;
      SplitNulAppend(a[1..], b);
      assert [a[0]] + a[1..] == a;
    }
  }

  /** Joining NUL-free parts and splitting again gives the parts back. */
  lemma {:induction false} SplitJoinNul(parts: seq<Bytes>)
    requires |parts| >= 1
    requires forall i | 0 <= i < |parts| :: NUL !in parts[i]
    ensures SplitNul(JoinNul(parts)) == parts
    decreases |parts|
  {
    if |parts| == 1 {
      SplitNulFree(parts[0]);
    } else {
      SplitJoinNul(parts[1..]);
      SplitNulAppend(parts[0], JoinNul(parts[1..]));
      assert [parts[0]] + parts[1..] == parts;
    }
  }
}
