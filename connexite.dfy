/**
 * Paths, reachability and connected classes of the incidence lists, used as
 * the reference against which the depth-first searches of `Graphe` are
 * proved.
 */
module Connexite {
  import opened Aretes
  import opened Ensembles
  import opened Incidence

  /** w is a neighbour of u, u being a vertex. */
  ghost predicate Adjacents(g: Incidences, u: int, w: int)
  {
    u in g && w in Voisins(g, u)
  }

  /** A non-empty walk of vertices, each a neighbour of the previous one. */
  ghost predicate Chemin(g: Incidences, p: seq<int>)
  {
    |p| > 0
    && (forall k :: 0 <= k < |p| ==> p[k] in g)
    && (forall k :: 0 <= k < |p| - 1 ==> Adjacents(g, p[k], p[k + 1]))
  }

  /** Some walk leads from u to w. */
  ghost predicate Accessible(g: Incidences, u: int, w: int)
  {
    exists p :: Chemin(g, p) && p[0] == u && p[|p| - 1] == w
  }

  /** The connected class of v: the vertices reachable from v. */
  ghost function Classe(g: Incidences, v: int): set<int>
  {
    set w | w in g && Accessible(g, v, w)
  }

  /** All connected classes. */
  ghost function Classes(g: Incidences): set<set<int>>
  {
    set v | v in g :: Classe(g, v)
  }

  /** Every vertex can reach every vertex. */
  ghost predicate Connexe(g: Incidences)
  {
    forall u, w :: u in g && w in g ==> Accessible(g, u, w)
  }

  /** S is a set of vertices that holds the neighbours of each of its members. */
  ghost predicate Ferme(g: Incidences, S: set<int>)
  {
    S <= g.Keys && forall x :: x in S ==> Voisins(g, x) <= S
  }

  lemma AccessibleRefl(g: Incidences, u: int)
    requires u in g
    ensures Accessible(g, u, u)
  {
    assert Chemin(g, [u]);
  }

  /** Reachability only relates vertices. */
  lemma AccessibleSommets(g: Incidences, u: int, w: int)
    requires Accessible(g, u, w)
    ensures u in g && w in g
  {
    var p :| Chemin(g, p) && p[0] == u && p[|p| - 1] == w;
    assert p[0] in g && p[|p| - 1] in g;
  }

  /** A walk to x followed by a step to a neighbour y of x. */
  lemma AccessibleEtape(g: Incidences, u: int, x: int, y: int)
    requires IncidenceSymetrique(g)
    requires Accessible(g, u, x) && Adjacents(g, x, y)
    ensures Accessible(g, u, y)
  {
    var p :| Chemin(g, p) && p[0] == u && p[|p| - 1] == x;
    VoisinsSymetriques(g, x, y);
    var q := p + [y];
    assert forall k :: 0 <= k < |p| ==> q[k] == p[k];
    assert Chemin(g, q);
  }

  lemma AccessibleTrans(g: Incidences, u: int, v: int, w: int)
    requires Accessible(g, u, v) && Accessible(g, v, w)
    ensures Accessible(g, u, w)
  {
    var p :| Chemin(g, p) && p[0] == u && p[|p| - 1] == v;
    var q :| Chemin(g, q) && q[0] == v && q[|q| - 1] == w;
    var r := p + q[1..];
    forall k | 0 <= k < |r| - 1 ensures Adjacents(g, r[k], r[k + 1]) {
      if k < |p| - 1 {
        assert r[k] == p[k] && r[k + 1] == p[k + 1];
      } else {
        assert r[k] == q[k - |p| + 1] && r[k + 1] == q[k - |p| + 2];
      }
    }
    assert forall k :: 0 <= k < |r| ==> r[k] in g;
    assert Chemin(g, r);
  }

  /** Walks can be read backwards, since neighbourhood is symmetric. */
  lemma AccessibleSym(g: Incidences, u: int, w: int)
    requires IncidenceSymetrique(g) && Accessible(g, u, w)
    ensures Accessible(g, w, u)
  {
    var p :| Chemin(g, p) && p[0] == u && p[|p| - 1] == w;
    var n := |p|;
    var q := seq(n, k requires 0 <= k < n => p[n - 1 - k]);
    forall k | 0 <= k < n - 1 ensures Adjacents(g, q[k], q[k + 1]) {
      assert Adjacents(g, p[n - 2 - k], p[n - 1 - k]);
      VoisinsSymetriques(g, p[n - 2 - k], p[n - 1 - k]);
    }
    assert Chemin(g, q);
  }

  /** Whatever a neighbour i of c reaches, c reaches too. */
  lemma AccessiblesParVoisin(g: Incidences, c: int, i: int, S: set<int>)
    requires IncidenceSymetrique(g) && Adjacents(g, c, i)
    requires forall x :: x in S ==> Accessible(g, i, x)
    ensures forall x :: x in S ==> Accessible(g, c, x)
  {
    AccessibleRefl(g, c);
    AccessibleEtape(g, c, c, i);
    forall x | x in S ensures Accessible(g, c, x) {
      AccessibleTrans(g, c, i, x);
    }
  }

  /** A walk that starts inside a closed set never leaves it. */
  lemma FermeContient(g: Incidences, S: set<int>, u: int, w: int)
    requires Ferme(g, S) && u in S && Accessible(g, u, w)
    ensures w in S
  {
    var p :| Chemin(g, p) && p[0] == u && p[|p| - 1] == w;
    var k := 0;
    while k < |p| - 1
      invariant 0 <= k < |p| && p[k] in S
    {
      assert Adjacents(g, p[k], p[k + 1]);
      k := k + 1;
    }
  }

  /** The class of a vertex holds it and is closed. */
  lemma ClasseFermee(g: Incidences, v: int)
    requires IncidenceSymetrique(g) && v in g
    ensures v in Classe(g, v)
    ensures Ferme(g, Classe(g, v))
  {
    AccessibleRefl(g, v);
    forall x, y | x in Classe(g, v) && y in Voisins(g, x) ensures y in Classe(g, v) {
      VoisinsSymetriques(g, x, y);
      AccessibleEtape(g, v, x, y);
    }
  }

  /**
   * A closed set that holds v and whose members are all reachable from v is
   * the class of v: this is what a complete depth-first search returns.
   */
  lemma ClasseExacte(g: Incidences, v: int, S: set<int>)
    requires v in S && Ferme(g, S)
    requires forall w :: w in S ==> Accessible(g, v, w)
    ensures S == Classe(g, v)
  {
    forall w | w in Classe(g, v) ensures w in S {
      FermeContient(g, S, v, w);
    }
  }

  /** Two vertices of one class have the same class. */
  lemma ClasseEquiv(g: Incidences, v: int, w: int)
    requires IncidenceSymetrique(g) && w in Classe(g, v)
    ensures Classe(g, w) == Classe(g, v)
  {
    AccessibleSym(g, v, w);
    forall x | x in Classe(g, w) ensures x in Classe(g, v) {
      AccessibleTrans(g, v, w, x);
    }
    forall x | x in Classe(g, v) ensures x in Classe(g, w) {
      AccessibleTrans(g, w, v, x);
    }
  }

  /** Each class is a non-empty set of vertices. */
  lemma ClassesIncluses(g: Incidences)
    requires IncidenceSymetrique(g)
    ensures forall C :: C in Classes(g) ==> C != {} && C <= g.Keys
  {
    forall v | v in g ensures v in Classe(g, v) {
      ClasseFermee(g, v);
    }
  }

  /**
   * The classes partition the vertex set: each is a non-empty set of
   * vertices, every vertex lies in one, and two different classes are
   * disjoint.
   */
  lemma ClassesPartition(g: Incidences)
    requires IncidenceSymetrique(g)
    ensures forall C :: C in Classes(g) ==> C != {} && C <= g.Keys
    ensures forall v :: v in g ==> exists C :: C in Classes(g) && v in C
    ensures forall C1, C2 :: C1 in Classes(g) && C2 in Classes(g) && C1 != C2 ==> C1 !! C2
  {
    forall v | v in g ensures v in Classe(g, v) && Classe(g, v) in Classes(g) {
      ClasseFermee(g, v);
    }
    forall C1, C2 | C1 in Classes(g) && C2 in Classes(g) && C1 != C2 ensures C1 !! C2 {
      var v1 :| v1 in g && C1 == Classe(g, v1);
      var v2 :| v2 in g && C2 == Classe(g, v2);
      if x :| x in C1 && x in C2 {
        ClasseEquiv(g, v1, x);
        ClasseEquiv(g, v2, x);
      }
    }
  }

  /** A graph in which one vertex reaches every vertex is connected. */
  lemma ConnexeDepuis(g: Incidences, s: int)
    requires IncidenceSymetrique(g) && s in g
    requires forall w :: w in g ==> Accessible(g, s, w)
    ensures Connexe(g)
  {
    forall u, w | u in g && w in g ensures Accessible(g, u, w) {
      AccessibleSym(g, s, u);
      AccessibleTrans(g, u, s, w);
    }
  }

  /** A closed set holding s but not every vertex shows the graph is not connected. */
  lemma NonConnexeSiFerme(g: Incidences, S: set<int>, s: int)
    requires Ferme(g, S) && s in S && S != g.Keys
    ensures !Connexe(g)
  {
    var w := ElementHors(S, g.Keys);
    if Accessible(g, s, w) {
      FermeContient(g, S, s, w);
    }
  }

  /** Graphs with fewer than two vertices are connected. */
  lemma PetitConnexe(g: Incidences)
    requires |g| < 2
    ensures Connexe(g)
  {
    forall u, w | u in g && w in g ensures Accessible(g, u, w) {
      if u != w {
        CardSousEnsemble({u, w}, g.Keys);
      }
      AccessibleRefl(g, u);
    }
  }

  /** A non-empty connected graph has a single class: its vertex set. */
  lemma ConnexeUneClasse(g: Incidences)
    requires Connexe(g) && |g| > 0
    ensures Classes(g) == {g.Keys}
  {
    forall v | v in g ensures Classe(g, v) == g.Keys {
      ClasseToutes(g, v);
    }
    UneSeuleClasse(g, g.Keys);
  }

  /** When every vertex has the same class K, K is the only class. */
  lemma UneSeuleClasse(g: Incidences, K: set<int>)
    requires |g| > 0 && forall v :: v in g ==> Classe(g, v) == K
    ensures Classes(g) == {K}
  {
    var v := Element(g.Keys);
    assert Classe(g, v) in Classes(g);
  }

  /** In a connected graph the class of any vertex is the whole vertex set. */
  lemma ClasseToutes(g: Incidences, v: int)
    requires Connexe(g) && v in g
    ensures Classe(g, v) == g.Keys
  {
    forall w | w in g ensures w in Classe(g, v) {
      assert Accessible(g, v, w);
    }
  }

  /** The classes of the vertices of K. */
  ghost function ClassesDe(g: Incidences, K: set<int>): set<set<int>>
  {
    set v | v in K :: Classe(g, v)
  }

  /**
   * Removing the class of a remaining vertex s from the remaining vertices
   * adds exactly that class to the classes of the vertices already handled,
   * and leaves fewer vertices.
   */
  lemma ClassesDeEtape(g: Incidences, reste: set<int>, s: int)
    requires IncidenceSymetrique(g) && reste <= g.Keys && s in reste
    ensures ClassesDe(g, g.Keys - (reste - Classe(g, s))) == ClassesDe(g, g.Keys - reste) + {Classe(g, s)}
    ensures |reste - Classe(g, s)| < |reste|
  {
    var C := Classe(g, s);
    ClasseFermee(g, s);
    forall v | v in g.Keys - (reste - C) && v !in g.Keys - reste ensures Classe(g, v) == C {
      ClasseEquiv(g, s, v);
    }
    assert s in g.Keys - (reste - C);
    CardSousEnsemble(reste - C, reste - {s});
  }

  /** A step of g between two vertices of X is a step of the subgraph induced by X. */
  lemma PasInduit(g: Incidences, X: set<int>, u: int, w: int)
    requires IncidenceSymetrique(g) && Adjacents(g, u, w) && u in X && w in X
    ensures Adjacents(SousGrapheInduit(g, X), u, w) && w in SousGrapheInduit(g, X)
  {
    var h := SousGrapheInduit(g, X);
    var e := AreteDeVoisin(g, u, w);
    assert e in AretesInternes(g, X);
    SousGrapheInduitEffet(g, X);
    VoisinParArete(h, e, u, w);
    VoisinParArete(h, e, w, u);
  }

  /**
   * A walk of g that stays inside X and starts at a vertex of the subgraph
   * induced by X is a walk of that subgraph.
   */
  lemma CheminInduit(g: Incidences, X: set<int>, p: seq<int>)
    requires IncidenceSymetrique(g) && Chemin(g, p)
    requires forall k :: 0 <= k < |p| ==> p[k] in X
    requires p[0] in SousGrapheInduit(g, X)
    ensures Chemin(SousGrapheInduit(g, X), p)
  {
    var h := SousGrapheInduit(g, X);
    forall k | 0 <= k < |p| - 1 ensures Adjacents(h, p[k], p[k + 1]) {
      PasInduit(g, X, p[k], p[k + 1]);
    }
    forall k | 0 <= k < |p| ensures p[k] in h {
      if k > 0 {
        PasInduit(g, X, p[k - 1], p[k]);
      }
    }
  }

  /** A walk that starts inside a closed set stays inside it. */
  lemma CheminFerme(g: Incidences, S: set<int>, p: seq<int>)
    requires Ferme(g, S) && Chemin(g, p) && p[0] in S
    ensures forall k :: 0 <= k < |p| ==> p[k] in S
  {
    var k := 0;
    while k < |p| - 1
      invariant 0 <= k < |p| && forall m :: 0 <= m <= k ==> p[m] in S
    {
      assert Adjacents(g, p[k], p[k + 1]);
      k := k + 1;
    }
  }

  /**
   * Two vertices of the subgraph induced by the class of v reach each other
   * in it: a walk of g between them never leaves the class.
   */
  lemma AccessibleInduit(g: Incidences, v: int, u: int, w: int)
    requires IncidenceSymetrique(g) && v in g
    requires u in SousGrapheInduit(g, Classe(g, v)) && w in SousGrapheInduit(g, Classe(g, v))
    ensures Accessible(SousGrapheInduit(g, Classe(g, v)), u, w)
  {
    var C := Classe(g, v);
    SousGrapheInduitEffet(g, C);
    assert u in C && w in C;
    ClasseFermee(g, v);
    AccessibleSym(g, v, u);
    AccessibleTrans(g, u, v, w);
    var p :| Chemin(g, p) && p[0] == u && p[|p| - 1] == w;
    CheminFerme(g, C, p);
    CheminInduit(g, C, p);
  }

  /** The subgraph induced by a class is connected. */
  lemma InduitClasseConnexe(g: Incidences, v: int)
    requires IncidenceSymetrique(g) && v in g
    ensures Connexe(SousGrapheInduit(g, Classe(g, v)))
  {
    var h := SousGrapheInduit(g, Classe(g, v));
    forall u, w | u in h && w in h ensures Accessible(h, u, w) {
      AccessibleInduit(g, v, u, w);
    }
  }

  /** Every class of a valid graph induces a connected subgraph. */
  lemma ClassesInduitesConnexes(g: Incidences)
    requires IncidenceSymetrique(g)
    ensures forall C :: C in Classes(g) ==> Connexe(SousGrapheInduit(g, C))
  {
    forall v | v in g ensures Connexe(SousGrapheInduit(g, Classe(g, v))) {
      InduitClasseConnexe(g, v);
    }
  }

  /**
   * A class of at most two vertices induces a connected subgraph of at most
   * two vertices.
   */
  lemma PetiteClasseInduite(g: Incidences, C: set<int>)
    requires IncidenceSymetrique(g) && C in Classes(g) && |C| <= 2
    ensures Connexe(SousGrapheInduit(g, C)) && |SousGrapheInduit(g, C)| <= 2
  {
    var v :| v in g && C == Classe(g, v);
    InduitClasseConnexe(g, v);
    SousGrapheInduitEffet(g, C);
    CardSousEnsemble(SousGrapheInduit(g, C).Keys, C);
  }
}
