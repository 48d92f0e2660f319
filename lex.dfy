/**
 * The byte-lexicographic order of Rust's `Ord for [u8]`: the first differing byte
 * decides, and a proper prefix comes first. Keys of the MemTable and names of log
 * files are both ordered by it.
 */
module Lex {
  import opened Bytes

  predicate Less(a: seq<byte>, b: seq<byte>)
  {
    if a == [] then b != []
    else if b == [] then false
    else if a[0] != b[0] then a[0] < b[0]
    else Less(a[1..], b[1..])
  }

  predicate LessEq(a: seq<byte>, b: seq<byte>)
  {
    a == b || Less(a, b)
  }

  lemma {:induction false} LessIrreflexive(a: seq<byte>)
    ensures !Less(a, a)
  {
    if a != [] {
      LessIrreflexive(a[1..]);
    }
  }

  lemma {:induction false} LessAsymmetric(a: seq<byte>, b: seq<byte>)
    ensures Less(a, b) ==> !Less(b, a)
  {
    if a != [] && b != [] && a[0] == b[0] {
      LessAsymmetric(a[1..], b[1..]);
    }
  }

  lemma {:induction false} LessTransitive(a: seq<byte>, b: seq<byte>, c: seq<byte>)
    requires Less(a, b) && Less(b, c)
    ensures Less(a, c)
  {
    if a != [] && a[0] == b[0] && b[0] == c[0] {
      LessTransitive(a[1..], b[1..], c[1..]);
    }
  }

  /** Any two byte strings are equal or ordered one way round. */
  lemma {:induction false} LessTotal(a: seq<byte>, b: seq<byte>)
    ensures a == b || Less(a, b) || Less(b, a)
  {
    if a != [] && b != [] && a[0] == b[0] {
      LessTotal(a[1..], b[1..]);
      if a[1..] == b[1..] {
        assert a == [a[0]] + a[1..] && b == [b[0]] + b[1..];
      }
    }
  }

  lemma LessImpliesDistinct(a: seq<byte>, b: seq<byte>)
    requires Less(a, b)
    ensures a != b
  {
    LessIrreflexive(a);
  }

  /** Every later name is at least as large as every earlier one. */
  predicate Ascending(s: seq<seq<byte>>)
  {
    forall i, j :: 0 <= i < j < |s| ==> LessEq(s[i], s[j])
  }

  /** An element not above the head of an ascending sequence can go in front of it. */
  lemma PrependAscending(x: seq<byte>, s: seq<seq<byte>>)
    requires Ascending(s) && s != [] && LessEq(x, s[0])
    ensures Ascending([x] + s)
  {
    forall i, j | 0 <= i < j < |[x] + s| ensures LessEq(([x] + s)[i], ([x] + s)[j]) {
      if i == 0 && x != s[0] && s[0] != s[j - 1] { LessTransitive(x, s[0], s[j - 1]); }
      if i > 0 { assert ([x] + s)[i] == s[i - 1] && ([x] + s)[j] == s[j - 1]; }
    }
  }

  /** After inserting `x > s[0]` into `s[1..]`, every element is still at least `s[0]`. */
  lemma HeadBelowRest(x: seq<byte>, s: seq<seq<byte>>, rest: seq<seq<byte>>)
    requires Ascending(s) && s != [] && LessEq(s[0], x)
    requires multiset(rest) == multiset(s[1..]) + multiset{x}
    ensures forall y :: y in rest ==> LessEq(s[0], y)
  {
    forall y | y in rest ensures LessEq(s[0], y) {
      assert y in multiset(rest);
      if y != x {
        assert y in multiset(s[1..]);
        var k :| 0 <= k < |s[1..]| && s[1..][k] == y;
        assert s[k + 1] == y;
      }
    }
  }

  /** A head not above any element of an ascending sequence keeps it ascending. */
  lemma ConsAscending(h: seq<byte>, rest: seq<seq<byte>>)
    requires Ascending(rest) && forall y :: y in rest ==> LessEq(h, y)
    ensures Ascending([h] + rest)
  {
    forall i, j | 0 <= i < j < |[h] + rest| ensures LessEq(([h] + rest)[i], ([h] + rest)[j]) {
      if i == 0 { assert rest[j - 1] in rest; }
    }
  }

  /** Inserts `x` into an ascending sequence, before the first element not below it. */
  function Insert(x: seq<byte>, s: seq<seq<byte>>): (r: seq<seq<byte>>)
    requires Ascending(s)
    ensures Ascending(r) && multiset(r) == multiset(s) + multiset{x}
  {
    if s == [] then [x]
    else if LessEq(x, s[0]) then
      PrependAscending(x, s);
      [x] + s
    else
      var rest := Insert(x, s[1..]);
      assert s == [s[0]] + s[1..];
      LessTotal(x, s[0]);
      HeadBelowRest(x, s, rest);
      ConsAscending(s[0], rest);
      [s[0]] + rest
  }

  /**
   * `Vec::sort` on the listed file names: the same names, in ascending order.
   */
  function SortNames(s: seq<seq<byte>>): (r: seq<seq<byte>>)
    ensures Ascending(r) && multiset(r) == multiset(s)
  {
    if s == [] then []
    else
      assert s == [s[0]] + s[1..];
      Insert(s[0], SortNames(s[1..]))
  }

}
