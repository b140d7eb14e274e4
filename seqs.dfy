/** Facts about sequences of distinct values and about the positions 0..n-1. */
module Seqs {

  /** No element occurs twice in `s`. */
  predicate NoDup<T(==)>(s: seq<T>) {
    forall i, j | 0 <= i < j < |s| :: s[i] != s[j]
  }

  /** The positions `0, 1, ..., n-1` in ascending order (Python's `list(range(n))`). */
  function Positions(n: nat): (r: seq<int>)
    ensures |r| == n
    ensures forall i | 0 <= i < n :: r[i] == i
  {
    seq(n, i => i)
  }

  /** The set of values of `s`. */
  ghost function Elems<T>(s: seq<T>): set<T> {
    set x | x in s
  }

  lemma {:induction false} ElemsOfDistinct<T>(s: seq<T>)
    requires NoDup(s)
    ensures |Elems(s)| == |s|
  {
    if s != [] {
      var rest := s[1..];
      assert NoDup(rest) by {
        forall i, j | 0 <= i < j < |rest| ensures rest[i] != rest[j] {
          assert rest[i] == s[i + 1] && rest[j] == s[j + 1];
        }
      }
      ElemsOfDistinct(rest);
      assert Elems(s) == {s[0]} + Elems(rest);
      assert s[0] !in Elems(rest);
    }
  }

  lemma InPositions(n: nat)
    ensures forall v :: v in Positions(n) <==> 0 <= v < n
  {
    forall v | 0 <= v < n ensures v in Positions(n) {
      assert Positions(n)[v] == v;
    }
  }

  /** Appending `n` to the positions below `n` gives the positions below `n + 1`. */
  lemma PositionsSnoc(n: nat)
    ensures Positions(n) + [n] == Positions(n + 1)
  {
  }

  lemma PositionsDistinct(n: nat)
    ensures NoDup(Positions(n))
    ensures |Elems(Positions(n))| == n
  {
    ElemsOfDistinct(Positions(n));
  }

  lemma SubsetSize<T>(a: set<T>, b: set<T>)
    requires a <= b
    ensures |a| <= |b|
  {
    assert b == a + (b - a);
  }

  /** A sequence of distinct positions below `n` has at most `n` elements. */
  lemma BoundedDistinct(s: seq<int>, n: nat)
    requires NoDup(s)
    requires forall i | 0 <= i < |s| :: 0 <= s[i] < n
    ensures |s| <= n
  {
    ElemsOfDistinct(s);
    PositionsDistinct(n);
    assert Elems(s) <= Elems(Positions(n)) by {
      forall x | x in Elems(s) ensures x in Elems(Positions(n)) {
        var k :| 0 <= k < |s| && s[k] == x;
        assert Positions(n)[x] == x;
      }
    }
    SubsetSize(Elems(s), Elems(Positions(n)));
  }

  /** Pigeonhole: if every position below `n` occurs in `s` and `s` has no repeats, `s` has at least `n` elements. */
  lemma AllPresentNeedsRoom(s: seq<int>, n: nat)
    requires NoDup(s)
    requires forall v | 0 <= v < n :: v in s
    ensures n <= |s|
  {
    ElemsOfDistinct(s);
    PositionsDistinct(n);
    SubsetSize(Elems(Positions(n)), Elems(s));
  }

  /**
   * A set without members is the empty set.  This is a verifier aid: a
   * loop that picks `var x :| x in s` from a non-empty set calls it on the
   * branch where no member exists, so that the verifier sees that such an
   * `x` exists.
   */
  lemma NoElementMeansEmpty<T>(s: set<T>)
    requires forall y :: y !in s
    ensures s == {}
  {
  }
}
