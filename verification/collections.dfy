/** Facts about lists and sets shared by the services: distinct elements and counting. */
module Collections {

  function Elems<T>(xs: seq<T>): set<T> {
    set x | x in xs
  }

  /** No element occurs twice. */
  predicate Distinct<T(==)>(xs: seq<T>) {
    forall i, j :: 0 <= i < j < |xs| ==> xs[i] != xs[j]
  }

  /** A subset is no larger than its superset. */
  lemma SubsetCard<T>(a: set<T>, b: set<T>)
    requires a <= b
    ensures |a| <= |b|
  {
    assert b == a + (b - a) && a * (b - a) == {};
  }

  /** Two disjoint subsets of `b` together are no larger than `b`. */
  lemma DisjointSubsetsCard<T>(a: set<T>, c: set<T>, b: set<T>)
    requires a <= b && c <= b && a * c == {}
    ensures |a| + |c| <= |b|
  {
    SubsetCard(a + c, b);
  }

  /** A non-empty list has no repeats exactly when its head does not recur and its tail
      has no repeats. */
  lemma DistinctCons<T>(xs: seq<T>)
    requires |xs| > 0
    ensures Distinct(xs) <==> xs[0] !in xs[1..] && Distinct(xs[1..])
  {
    var rest := xs[1..];
    if xs[0] in rest {
      var j :| 0 <= j < |rest| && rest[j] == xs[0];
      assert xs[0] == xs[j + 1];
    }
    if Distinct(rest) && xs[0] !in rest {
      forall i, j | 0 <= i < j < |xs| ensures xs[i] != xs[j] {
        assert xs[j] == rest[j - 1];
        if i > 0 { assert xs[i] == rest[i - 1]; }
      }
    }
    if Distinct(xs) {
      forall i, j | 0 <= i < j < |rest| ensures rest[i] != rest[j] {
        assert rest[i] == xs[i + 1] && rest[j] == xs[j + 1];
      }
    }
  }

  /** A list has at most as many distinct elements as entries, and exactly as many when
      it has no repeats. */
  lemma {:induction false} ElemsCard<T>(xs: seq<T>)
    ensures |Elems(xs)| <= |xs|
    ensures |Elems(xs)| == |xs| <==> Distinct(xs)
    decreases |xs|
  {
    if |xs| > 0 {
      var rest := xs[1..];
      ElemsCard(rest);
      DistinctCons(xs);
      assert Elems(xs) == Elems(rest) + {xs[0]};
      assert xs[0] in rest <==> xs[0] in Elems(rest);
    }
  }
}
