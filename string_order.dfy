/**
 * Python's ordering of `str` values and `sorted(set(...))` over strings.
 *
 * Python compares strings lexicographically by code point, and a proper prefix
 * sorts before any of its extensions. `sorted` of a set of distinct strings is
 * therefore the unique strictly ascending sequence holding exactly that set.
 */
module StringOrder {
  import opened Wrappers

  /** `a < b` on Python `str`. */
  predicate Less(a: string, b: string)
  {
    if |a| == 0 then |b| > 0
    else if |b| == 0 then false
    else if a[0] != b[0] then a[0] < b[0]
    else Less(a[1..], b[1..])
  }

  lemma {:induction false} LessIrreflexive(a: string)
    ensures !Less(a, a)
  {
    if |a| > 0 {
      LessIrreflexive(a[1..]);
    }
  }

  lemma {:induction false} LessAsymmetric(a: string, b: string)
    requires Less(a, b)
    ensures !Less(b, a)
  {
    if |a| > 0 && |b| > 0 && a[0] == b[0] {
      LessAsymmetric(a[1..], b[1..]);
    }
  }

  lemma {:induction false} LessTransitive(a: string, b: string, c: string)
    requires Less(a, b) && Less(b, c)
    ensures Less(a, c)
  {
    if |a| > 0 && a[0] == b[0] && b[0] == c[0] {
      LessTransitive(a[1..], b[1..], c[1..]);
    }
  }

  lemma {:induction false} LessTotal(a: string, b: string)
    requires a != b
    ensures Less(a, b) || Less(b, a)
  {
    if |a| > 0 && |b| > 0 && a[0] == b[0] {
      assert a == [a[0]] + a[1..] && b == [b[0]] + b[1..];
      LessTotal(a[1..], b[1..]);
    }
  }

  /** Sorted with no duplicates. */
  predicate StrictlyAscending(s: seq<string>)
  {
    forall i, j :: 0 <= i < j < |s| ==> Less(s[i], s[j])
  }

  /** `m` is the least element of `S`. */
  predicate IsMin(m: string, S: set<string>)
  {
    m in S && forall y :: y in S && y != m ==> Less(m, y)
  }

  lemma {:induction false} MinExists(S: set<string>)
    requires S != {}
    ensures exists m :: IsMin(m, S)
    decreases |S|
  {
    var x :| x in S;
    if S - {x} == {} {
      assert S == {x};
      assert IsMin(x, S);
    } else {
      MinExists(S - {x});
      var m :| IsMin(m, S - {x});
      if Less(x, m) {
        forall y | y in S && y != x
          ensures Less(x, y)
        {
          if y != m {
            LessTransitive(x, m, y);
          }
        }
        assert IsMin(x, S);
      } else {
        LessTotal(x, m);
        assert IsMin(m, S);
      }
    }
  }

  lemma MinUnique(S: set<string>)
    ensures forall m, m' :: IsMin(m, S) && IsMin(m', S) ==> m == m'
  {
    forall m, m' | IsMin(m, S) && IsMin(m', S)
      ensures m == m'
    {
      if m != m' {
        LessAsymmetric(m, m');
      }
    }
  }

  /**
   * `sorted(S)` for a set of strings: the least element first, then the rest.
   * It is strictly ascending and holds exactly the elements of `S`.
   */
  function SortedOfSet(S: set<string>): (r: seq<string>)
    ensures StrictlyAscending(r)
    ensures Elems(r) == S
    ensures |r| == |S|
    decreases |S|
  {
    if S == {} then []
    else
      MinExists(S);
      MinUnique(S);
      var m :| IsMin(m, S);
      var rest := SortedOfSet(S - {m});
      assert forall k :: 0 <= k < |rest| ==> rest[k] in S - {m};
      assert Elems(rest) == S - {m};
      assert forall x :: x in Elems([m] + rest) <==> x == m || x in Elems(rest);
      assert Elems([m] + rest) == S;
      [m] + rest
  }

  /** Every element is less than the next one. */
  predicate NeighboursInOrder(s: seq<string>)
  {
    |s| < 2 || (Less(s[0], s[1]) && NeighboursInOrder(s[1..]))
  }

  /** A sequence whose neighbours are in order is strictly ascending. */
  lemma {:induction false} AdjacentAscending(s: seq<string>)
    requires NeighboursInOrder(s)
    ensures StrictlyAscending(s)
  {
    if |s| > 1 {
      AdjacentAscending(s[1..]);
      forall j | 1 < j < |s|
        ensures Less(s[0], s[j])
      {
        assert s[1..][0] == s[1] && s[1..][j - 1] == s[j];
        LessTransitive(s[0], s[1], s[j]);
      }
    }
  }

  /**
   * Two strictly ascending sequences with the same elements are equal, so
   * `SortedOfSet` is the result of any correct `sorted`, whatever algorithm.
   */
  lemma {:induction false} AscendingUnique(a: seq<string>, b: seq<string>)
    requires StrictlyAscending(a) && StrictlyAscending(b)
    requires Elems(a) == Elems(b)
    ensures a == b
    decreases |a|
  {
    if a != [] {
      assert a[0] in Elems(a);
    }
    if b != [] {
      assert b[0] in Elems(b);
    }
    if a != [] && b != [] {
      assert a[0] in Elems(b) && b[0] in Elems(a);
      if a[0] != b[0] {
        var i :| 0 <= i < |b| && b[i] == a[0];
        var j :| 0 <= j < |a| && a[j] == b[0];
        assert Less(b[0], a[0]) && Less(a[0], b[0]);
        LessAsymmetric(a[0], b[0]);
      }
      forall x | x in Elems(a[1..])
        ensures x in Elems(b[1..])
      {
        var k :| 1 <= k < |a| && a[k] == x;
        LessIrreflexive(a[0]);
        assert x in Elems(b) && x != b[0];
        var k' :| 0 <= k' < |b| && b[k'] == x;
        assert b[1..][k' - 1] == x;
      }
      forall x | x in Elems(b[1..])
        ensures x in Elems(a[1..])
      {
        var k :| 1 <= k < |b| && b[k] == x;
        LessIrreflexive(b[0]);
        assert x in Elems(a) && x != a[0];
        var k' :| 0 <= k' < |a| && a[k'] == x;
        assert a[1..][k' - 1] == x;
      }
      AscendingUnique(a[1..], b[1..]);
      assert a == [a[0]] + a[1..] && b == [b[0]] + b[1..];
    }
  }
}
