/** Small facts about finite sets used by the proofs of the graph modules. */
module Ensembles {
  /** Some element of a non-empty set. */
  lemma Element<T>(s: set<T>) returns (x: T)
    requires s != {}
    ensures x in s
  {
    var vide: set<T> := {};
    assert s != vide;
    assert exists y :: y in s && y !in vide;
    x :| x in s;
  }

  /** A subset is no larger, and a subset of the same size is the whole set. */
  lemma CardSousEnsemble<T>(a: set<T>, b: set<T>)
    requires a <= b
    ensures |a| <= |b|
    ensures |a| == |b| ==> a == b
  {
    assert b == a + (b - a);
    assert |b| == |a| + |b - a|;
    if |a| == |b| {
      assert |b - a| == 0;
      forall x | x in b ensures x in a {
        assert x !in a ==> x in b - a;
      }
    }
  }

  /** Some element of b outside its proper subset a. */
  lemma ElementHors<T>(a: set<T>, b: set<T>) returns (x: T)
    requires a <= b && a != b
    ensures x in b && x !in a
  {
    CardSousEnsemble(a, b);
    assert b == a + (b - a);
    assert |b - a| > 0;
    x := Element(b - a);
  }

  /** Adding members of a set changes nothing. */
  lemma AjoutMembres<T>(K: set<T>, x: T, y: T)
    requires x in K && y in K
    ensures K + {x, y} == K
  {
  }

  /** Maps with the same keys and the same value under each key are equal. */
  lemma MapsEgales<K, V>(a: map<K, V>, b: map<K, V>)
    requires a.Keys == b.Keys
    requires forall k :: k in a ==> a[k] == b[k]
    ensures a == b
  {
  }

  /** Moving one member v of R <= A from R to the part of A already done. */
  lemma Transfert<T>(A: set<T>, R: set<T>, v: T)
    requires v in R && R <= A
    ensures (A - R) + {v} == A - (R - {v})
    ensures |R - {v}| == |R| - 1
  {
  }
}
