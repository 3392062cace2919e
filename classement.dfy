/**
 * What the classifiers of `Graphe` decide, stated on the incidence lists:
 * completeness (through route-less edges only), chains and cycles (through
 * degrees and connectivity only), with the small graphs that pin these
 * definitions down.
 */
module Classement {
  import opened Wrappers
  import opened Aretes
  import opened Ensembles
  import opened Incidence
  import opened Connexite

  /** Every two different vertices are joined by a route-less edge. */
  ghost predicate Complet(g: Incidences)
  {
    forall u, w :: u in g && w in g && u != w ==> Existe(g, Arete(u, w, None))
  }

  /**
   * The chain test: no degree above 2, exactly two vertices of degree 1 as
   * soon as there are two vertices, and connected.
   */
  ghost predicate Chaine(g: Incidences)
  {
    (forall v :: v in g ==> |g[v]| <= 2)
    && (|g| >= 2 ==> |SommetsDeDegre(g, 1)| == 2)
    && Connexe(g)
  }

  /** The cycle test: as many vertices of degree 2 as vertices, and connected. */
  ghost predicate Cycle(g: Incidences)
  {
    |SommetsDeDegre(g, 2)| == |g| && Connexe(g)
  }

  /** Counting the vertices of degree 2 is asking every vertex to have degree 2. */
  lemma CycleDegres(g: Incidences)
    ensures Cycle(g) <==> (forall v :: v in g ==> |g[v]| == 2) && Connexe(g)
  {
    CardSousEnsemble(SommetsDeDegre(g, 2), g.Keys);
    if forall v :: v in g ==> |g[v]| == 2 {
      assert SommetsDeDegre(g, 2) == g.Keys;
    }
  }

  /** The graph made of the single edge a, which must be in normal form. */
  function UneArete(a: Arete): (g: Incidences)
    requires a.i < a.j
    ensures g.Keys == {a.i, a.j} && IncidenceSymetrique(g)
    ensures EnsembleAretes(g) == {a}
  {
    map[a.i := {a}, a.j := {a}]
  }

  /** Both endpoints of a single edge reach each other: the graph is connected. */
  lemma UneAreteConnexe(a: Arete)
    requires a.i < a.j
    ensures Connexe(UneArete(a))
  {
    var g := UneArete(a);
    assert Voisins(g, a.i) == {a.j};
    assert Chemin(g, [a.i, a.j]);
    assert Accessible(g, a.i, a.j);
    AccessibleRefl(g, a.i);
    ConnexeDepuis(g, a.i);
  }

  /**
   * The empty graph is a chain and a cycle; one isolated vertex is a chain
   * but not a cycle; two isolated vertices are not a chain.
   */
  lemma PetitsGraphes()
    ensures Cycle(map[]) && Chaine(map[])
    ensures Chaine(map[0 := {}]) && !Cycle(map[0 := {}])
    ensures !Chaine(map[0 := {}, 1 := {}])
  {
    var g0: Incidences := map[];
    var g1: Incidences := map[0 := {}];
    var g2: Incidences := map[0 := {}, 1 := {}];
    PetitConnexe(g0);
    PetitConnexe(g1);
    assert SommetsDeDegre(g0, 2) == {};
    assert SommetsDeDegre(g1, 2) == {};
    assert g2.Keys == {0, 1};
    assert SommetsDeDegre(g2, 1) == {};
  }

  /** A single route-less edge is a chain, and it is complete. */
  lemma UneAreteChaine(i: int, j: int)
    requires i < j
    ensures Chaine(UneArete(Arete(i, j, None)))
    ensures Complet(UneArete(Arete(i, j, None)))
  {
    var a := Arete(i, j, None);
    var g := UneArete(a);
    UneAreteConnexe(a);
    assert SommetsDeDegre(g, 1) == {i, j};
  }

  /**
   * A single edge that carries a route does not make a complete graph: only
   * route-less edges are looked for.
   */
  lemma RouteNonComplete(i: int, j: int, r: Route)
    requires i < j
    ensures IncidenceSymetrique(UneArete(Arete(i, j, Some(r))))
    ensures !Complet(UneArete(Arete(i, j, Some(r))))
  {
    var g := UneArete(Arete(i, j, Some(r)));
    assert !Existe(g, Arete(i, j, None));
  }

  /**
   * Two parallel edges between two vertices pass the cycle test, since it
   * only counts degrees.
   */
  lemma ParallelesCycle(r: Route)
    ensures IncidenceSymetrique(map[0 := {Arete(0, 1, None), Arete(0, 1, Some(r))}, 1 := {Arete(0, 1, None), Arete(0, 1, Some(r))}])
    ensures Cycle(map[0 := {Arete(0, 1, None), Arete(0, 1, Some(r))}, 1 := {Arete(0, 1, None), Arete(0, 1, Some(r))}])
  {
    var e := Arete(0, 1, None);
    var f := Arete(0, 1, Some(r));
    var g: Incidences := map[0 := {e, f}, 1 := {e, f}];
    assert e != f;
    assert |{e, f}| == 2;
    assert g.Keys == {0, 1};
    assert SommetsDeDegre(g, 2) == {0, 1};
    assert Voisins(g, 0) == {1};
    assert Chemin(g, [0, 1]);
    assert Accessible(g, 0, 1);
    AccessibleRefl(g, 0);
    ConnexeDepuis(g, 0);
  }
}
