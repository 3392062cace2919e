/**
 * The incidence lists of the multigraph as a value: each vertex id is mapped
 * to the set of edges incident to it. This module holds the invariant that
 * the class keeps, the derived edge set, degrees and neighbourhoods, and one
 * function per mutator giving the state it leaves, with the lemmas about
 * them that the class methods rely on.
 *
 * Stored edges are kept in normal form (`Canon`), so that membership of a
 * Dafny set coincides with Java's `HashSet.contains`, which uses
 * `Arete.equals`.
 */
module Incidence {
  import opened Wrappers
  import opened Aretes
  import opened Ensembles

  type Incidences = map<int, set<Arete>>

  /**
   * The symmetric-incidence invariant: an edge stored under u is incident to
   * u, has two distinct endpoints, is in normal form and is stored under both
   * of its endpoints.
   */
  ghost predicate IncidenceSymetrique(g: Incidences)
  {
    forall u, e :: u in g && e in g[u] ==>
      e.i < e.j && IncidenteA(e, u) && e.i in g && e.j in g && e in g[e.i] && e in g[e.j]
  }

  /** The edges of the graph, each counted once. */
  ghost function EnsembleAretes(g: Incidences): set<Arete>
  {
    set u, e | u in g && e in g[u] :: e
  }

  /** The neighbours of v, as `getVoisins` builds them. */
  ghost function Voisins(g: Incidences, v: int): set<int>
    requires v in g
  {
    set e | e in g[v] :: AutreSommet(e, v)
  }

  /** `existeArete`: a.i is a vertex and its set holds an edge equal to a. */
  predicate Existe(g: Incidences, a: Arete)
  {
    a.i in g && Canon(a) in g[a.i]
  }

  /** The vertices of degree n. */
  ghost function SommetsDeDegre(g: Incidences, n: int): set<int>
  {
    set v | v in g && |g[v]| == n
  }

  lemma MembreAretes(g: Incidences, e: Arete)
    requires IncidenceSymetrique(g)
    ensures e in EnsembleAretes(g) <==> e.i in g && e in g[e.i]
    ensures e in EnsembleAretes(g) ==> e.i < e.j && e.j in g && e in g[e.j]
  {
  }

  /** The set stored under v is exactly the set of edges incident to v. */
  lemma IncidentesA(g: Incidences, v: int)
    requires IncidenceSymetrique(g) && v in g
    ensures g[v] == set e | e in EnsembleAretes(g) && IncidenteA(e, v)
  {
    forall e | e in EnsembleAretes(g) && IncidenteA(e, v)
      ensures e in g[v]
    {
      MembreAretes(g, e);
    }
  }

  /** `existeArete(a)` holds iff the normal form of a is an edge of the graph. */
  lemma ExisteSiArete(g: Incidences, a: Arete)
    requires IncidenceSymetrique(g)
    ensures Existe(g, a) <==> Canon(a) in EnsembleAretes(g)
  {
    MembreAretes(g, Canon(a));
  }

  /** `existeArete` is Java's `contains`: some stored edge is `equals` to a. */
  lemma ExisteSiEquals(g: Incidences, a: Arete)
    requires IncidenceSymetrique(g)
    ensures Existe(g, a) <==> a.i in g && exists e :: e in g[a.i] && Equals(e, a)
  {
    if a.i in g && exists e :: e in g[a.i] && Equals(e, a) {
      var e :| e in g[a.i] && Equals(e, a);
      EqualsSiCanon(e, a);
      assert Canon(e) == e;
    }
  }

  /** w is a neighbour of v iff w differs from v and some edge joins them. */
  lemma VoisinsCaracterises(g: Incidences, v: int, w: int)
    requires IncidenceSymetrique(g) && v in g
    ensures w in Voisins(g, v) <==>
      w != v && exists e :: e in EnsembleAretes(g) && IncidenteA(e, v) && IncidenteA(e, w)
  {
    IncidentesA(g, v);
    if w != v && exists e :: e in EnsembleAretes(g) && IncidenteA(e, v) && IncidenteA(e, w) {
      var e :| e in EnsembleAretes(g) && IncidenteA(e, v) && IncidenteA(e, w);
      assert e in g[v] && AutreSommet(e, v) == w;
    }
  }

  /** Neighbourhood is symmetric, and neighbours are vertices. */
  lemma VoisinsSymetriques(g: Incidences, v: int, w: int)
    requires IncidenceSymetrique(g) && v in g
    ensures w in Voisins(g, v) ==> w in g && v in Voisins(g, w)
  {
    if w in Voisins(g, v) {
      var e :| e in g[v] && AutreSommet(e, v) == w;
      assert e in g[w] && AutreSommet(e, w) == v;
    }
  }

  // ---------------------------------------------------------------------
  // Degrees and the handshake lemma

  /**
   * The (vertex, incident edge) pairs of the vertices of K: its size is the
   * sum of the degrees of the vertices of K, as `nbAretes` accumulates it.
   */
  ghost function Paires(g: Incidences, K: set<int>): set<(int, Arete)>
    requires K <= g.Keys
  {
    set u, e | u in K && e in g[u] :: (u, e)
  }

  /** Tagging each edge of S with a vertex gives as many pairs as S has edges. */
  lemma {:induction false} CardPaires(S: set<Arete>, f: Arete -> int)
    ensures |set e | e in S :: (f(e), e)| == |S|
    decreases S
  {
    if S != {} {
      var x := Element(S);
      CardPaires(S - {x}, f);
      assert (set e | e in S :: (f(e), e)) == (set e | e in S - {x} :: (f(e), e)) + {(f(x), x)};
    } else {
      assert (set e | e in S :: (f(e), e)) == {};
    }
  }

  /** One more vertex adds its degree to the running sum. */
  lemma PairesAjout(g: Incidences, K: set<int>, u: int)
    requires K <= g.Keys && u in g && u !in K
    ensures |Paires(g, K + {u})| == |Paires(g, K)| + |g[u]|
  {
    var f := (x: Arete) => u;
    var ligne := set e | e in g[u] :: (f(e), e);
    CardPaires(g[u], f);
    assert Paires(g, K + {u}) == Paires(g, K) + ligne;
    assert Paires(g, K) !! ligne;
  }

  /**
   * Handshake lemma: under the invariant the degrees add up to twice the
   * number of edges, so `nbAretes` (half the sum) counts every edge once.
   */
  lemma PoigneesDeMains(g: Incidences)
    requires IncidenceSymetrique(g)
    ensures |Paires(g, g.Keys)| == 2 * |EnsembleAretes(g)|
  {
    var E := EnsembleAretes(g);
    var fi := (x: Arete) => x.i;
    var fj := (x: Arete) => x.j;
    PairesParExtremite(g);
    assert (set e | e in E :: (e.i, e)) == (set e | e in E :: (fi(e), e));
    assert (set e | e in E :: (e.j, e)) == (set e | e in E :: (fj(e), e));
    CardPaires(E, fi);
    CardPaires(E, fj);
  }

  /**
   * Each edge gives two pairs, one at each endpoint; the two endpoints are
   * different, so the two families do not meet.
   */
  lemma PairesParExtremite(g: Incidences)
    requires IncidenceSymetrique(g)
    ensures Paires(g, g.Keys) == (set e | e in EnsembleAretes(g) :: (e.i, e)) + (set e | e in EnsembleAretes(g) :: (e.j, e))
    ensures (set e | e in EnsembleAretes(g) :: (e.i, e)) !! (set e | e in EnsembleAretes(g) :: (e.j, e))
  {
    var E := EnsembleAretes(g);
    var gauche := set e | e in E :: (e.i, e);
    var droite := set e | e in E :: (e.j, e);
    forall p | p in Paires(g, g.Keys)
      ensures p in gauche + droite
    {
      MembreAretes(g, p.1);
    }
    forall p | p in gauche + droite
      ensures p in Paires(g, g.Keys)
    {
      MembreAretes(g, p.1);
    }
  }

  // ---------------------------------------------------------------------
  // The state left by each mutator

  /** `ajouterSommet(v)`: adds an isolated v unless v is already there. */
  ghost function AvecSommet(g: Incidences, v: int): Incidences
  {
    if v in g then g else g[v := {}]
  }

  /** Adding a vertex twice is adding it once, and adds one vertex at most. */
  lemma AvecSommetIdempotent(g: Incidences, v: int)
    ensures |AvecSommet(g, v)| == |g| + (if v in g then 0 else 1)
    ensures AvecSommet(AvecSommet(g, v), v) == AvecSommet(g, v)
  {
  }

  lemma AvecSommetEffet(g: Incidences, v: int)
    requires IncidenceSymetrique(g)
    ensures IncidenceSymetrique(AvecSommet(g, v))
    ensures AvecSommet(g, v).Keys == g.Keys + {v}
    ensures EnsembleAretes(AvecSommet(g, v)) == EnsembleAretes(g)
  {
    if v !in g {
      var h := g[v := {}];
      forall u: int, e: Arete | u in h && e in h[u]
        ensures e.i < e.j && IncidenteA(e, u) && e.i in h && e.j in h && e in h[e.i] && e in h[e.j]
      {
        assert u != v && e in g[u];
      }
      forall e ensures e in EnsembleAretes(h) ==> e in EnsembleAretes(g) {
        if e in EnsembleAretes(h) {
          var u :| u in h && e in h[u];
          assert u != v && e in g[u];
        }
      }
      forall e ensures e in EnsembleAretes(g) ==> e in EnsembleAretes(h) {
        if e in EnsembleAretes(g) {
          var u :| u in g && e in g[u];
          assert e in h[u];
        }
      }
    }
  }

  /** Stores the normal form of a under both of its endpoints. */
  ghost function AjoutBrut(h: Incidences, a: Arete): Incidences
    requires a.i in h && a.j in h
  {
    h[a.i := h[a.i] + {Canon(a)}][a.j := h[a.j] + {Canon(a)}]
  }

  /**
   * `ajouterArete(a)`: adds both endpoints, then the edge under both of them
   * unless an equal edge is already there.
   */
  ghost function AvecArete(g: Incidences, a: Arete): Incidences
  {
    var h := AvecSommet(AvecSommet(g, a.i), a.j);
    if Existe(h, a) then h else AjoutBrut(h, a)
  }

  /** Adding a new normal-form edge under both of its (present) endpoints. */
  lemma AjoutBrutEffet(h: Incidences, a: Arete)
    requires IncidenceSymetrique(h) && a.i != a.j && a.i in h && a.j in h
    ensures IncidenceSymetrique(AjoutBrut(h, a))
    ensures AjoutBrut(h, a).Keys == h.Keys
    ensures EnsembleAretes(AjoutBrut(h, a)) == EnsembleAretes(h) + {Canon(a)}
  {
    var c := Canon(a);
    var r := AjoutBrut(h, a);
    forall u: int, e: Arete | u in r && e in r[u]
      ensures e.i < e.j && IncidenteA(e, u) && e.i in r && e.j in r && e in r[e.i] && e in r[e.j]
    {
      if e != c {
        assert e in h[u];
      }
    }
    forall e ensures e in EnsembleAretes(r) <==> e in EnsembleAretes(h) || e == c {
      MembreAretes(h, e);
      MembreAretes(r, e);
    }
  }

  /** Adding both endpoints of a keeps the invariant and the edges. */
  lemma AvecExtremitesEffet(g: Incidences, a: Arete)
    requires IncidenceSymetrique(g)
    ensures IncidenceSymetrique(AvecSommet(AvecSommet(g, a.i), a.j))
    ensures AvecSommet(AvecSommet(g, a.i), a.j).Keys == g.Keys + {a.i, a.j}
    ensures EnsembleAretes(AvecSommet(AvecSommet(g, a.i), a.j)) == EnsembleAretes(g)
  {
    AvecSommetEffet(g, a.i);
    AvecSommetEffet(AvecSommet(g, a.i), a.j);
  }

  lemma AvecAreteEffet(g: Incidences, a: Arete)
    requires IncidenceSymetrique(g) && a.i != a.j
    ensures IncidenceSymetrique(AvecArete(g, a))
    ensures AvecArete(g, a).Keys == g.Keys + {a.i, a.j}
    ensures EnsembleAretes(AvecArete(g, a)) == EnsembleAretes(g) + {Canon(a)}
    ensures Existe(AvecArete(g, a), a)
    ensures |EnsembleAretes(AvecArete(g, a))| ==
            |EnsembleAretes(g)| + (if Existe(g, a) then 0 else 1)
  {
    var c := Canon(a);
    var E := EnsembleAretes(g);
    var h := AvecSommet(AvecSommet(g, a.i), a.j);
    AvecExtremitesEffet(g, a);
    ExisteSiArete(g, a);
    ExisteSiArete(h, a);
    var r := AvecArete(g, a);
    if !Existe(h, a) {
      AjoutBrutEffet(h, a);
      assert |E + {c}| == |E| + 1;
    } else {
      assert E + {c} == E;
    }
    ExisteSiArete(r, a);
  }

  /** Removing an edge removes one edge if it is there, and removing it twice is removing it once. */
  lemma SansAreteCompte(g: Incidences, a: Arete)
    requires IncidenceSymetrique(g)
    ensures IncidenceSymetrique(SansArete(g, a))
    ensures |EnsembleAretes(SansArete(g, a))| ==
            |EnsembleAretes(g)| - (if Existe(g, a) then 1 else 0)
    ensures SansArete(SansArete(g, a), a) == SansArete(g, a)
  {
    SansAreteEffet(g, a);
    ExisteSiArete(g, a);
  }

  /**
   * `supprimerArete(a)`: if an edge equal to a is present, removes it from the
   * sets of both endpoints of a; otherwise nothing changes.
   */
  ghost function SansArete(g: Incidences, a: Arete): Incidences
    requires IncidenceSymetrique(g)
  {
    if Existe(g, a) then
      g[a.i := g[a.i] - {Canon(a)}][a.j := g[a.j] - {Canon(a)}]
    else g
  }

  lemma SansAreteEffet(g: Incidences, a: Arete)
    requires IncidenceSymetrique(g)
    ensures IncidenceSymetrique(SansArete(g, a))
    ensures SansArete(g, a).Keys == g.Keys
    ensures EnsembleAretes(SansArete(g, a)) == EnsembleAretes(g) - {Canon(a)}
    ensures !Existe(SansArete(g, a), a)
  {
    var c := Canon(a);
    var r := SansArete(g, a);
    ExisteSiArete(g, a);
    if Existe(g, a) {
      forall u: int, e: Arete | u in r && e in r[u]
        ensures e.i < e.j && IncidenteA(e, u) && e.i in r && e.j in r && e in r[e.i] && e in r[e.j]
      {
        assert e in g[u] && e != c;
      }
      forall e ensures e in EnsembleAretes(r) <==> e in EnsembleAretes(g) && e != c {
        MembreAretes(g, e);
        MembreAretes(r, e);
      }
    }
    ExisteSiArete(r, a);
  }

  /**
   * `supprimerSommet(v)`: removes from every set the edges incident to v, then
   * removes v; nothing happens if v is absent.
   */
  ghost function SansSommet(g: Incidences, v: int): Incidences
  {
    if v in g then
      map u | u in g && u != v :: set e | e in g[u] && !IncidenteA(e, v)
    else g
  }

  lemma SansSommetEffet(g: Incidences, v: int)
    requires IncidenceSymetrique(g)
    ensures IncidenceSymetrique(SansSommet(g, v))
    ensures SansSommet(g, v).Keys == g.Keys - {v}
    ensures EnsembleAretes(SansSommet(g, v)) ==
            set e | e in EnsembleAretes(g) && !IncidenteA(e, v)
  {
    if v in g {
      var r := SansSommet(g, v);
      assert r.Keys == g.Keys - {v};
      forall u: int, e: Arete | u in r && e in r[u]
        ensures e.i < e.j && IncidenteA(e, u) && e.i in r && e.j in r && e in r[e.i] && e in r[e.j]
      {
        assert e in g[u] && !IncidenteA(e, v);
      }
      forall e | e in EnsembleAretes(r) ensures e in EnsembleAretes(g) && !IncidenteA(e, v) {
        var u :| u in r && e in r[u];
        assert e in g[u];
      }
      forall e | e in EnsembleAretes(g) && !IncidenteA(e, v) ensures e in EnsembleAretes(r) {
        MembreAretes(g, e);
        assert e in r[e.i];
      }
    }
  }

  /** Removing a vertex removes its degree from the edge count, and one vertex. */
  lemma SansSommetCompte(g: Incidences, v: int)
    requires IncidenceSymetrique(g) && v in g
    ensures |EnsembleAretes(SansSommet(g, v))| == |EnsembleAretes(g)| - |g[v]|
    ensures |SansSommet(g, v)| == |g| - 1
  {
    SansSommetEffet(g, v);
    var E := EnsembleAretes(g);
    IncidentesA(g, v);
    assert EnsembleAretes(SansSommet(g, v)) == E - g[v];
    assert E == (E - g[v]) + g[v];
    assert SansSommet(g, v).Keys == g.Keys - {v};
  }

  // ---------------------------------------------------------------------
  // Graphs determined by their edges

  /** The vertices that are an endpoint of some edge of E. */
  ghost function Extremites(E: set<Arete>): set<int>
  {
    (set e | e in E :: e.i) + (set e | e in E :: e.j)
  }

  /** In valid incidence lists, both endpoints of every edge are vertices. */
  lemma ExtremitesSommets(g: Incidences)
    ensures IncidenceSymetrique(g) ==> Extremites(EnsembleAretes(g)) <= g.Keys
  {
    if IncidenceSymetrique(g) {
      forall e | e in EnsembleAretes(g) ensures e.i in g && e.j in g {
        MembreAretes(g, e);
      }
    }
  }

  /** One more edge adds its two endpoints. */
  lemma ExtremitesAjout(E: set<Arete>, e: Arete)
    ensures Extremites(E + {e}) == Extremites(E) + {e.i, e.j}
  {
  }

  /** The incidence lists of the edges E: every endpoint, and its incident edges. */
  ghost function DepuisAretes(E: set<Arete>): Incidences
  {
    map u | u in Extremites(E) :: set e | e in E && IncidenteA(e, u)
  }

  lemma DepuisAretesEffet(E: set<Arete>)
    requires forall e :: e in E ==> e.i < e.j
    ensures IncidenceSymetrique(DepuisAretes(E))
    ensures DepuisAretes(E).Keys == Extremites(E)
    ensures EnsembleAretes(DepuisAretes(E)) == E
  {
    var r := DepuisAretes(E);
    forall e | e in E ensures e.i in r && e in r[e.i] {
    }
    forall e ensures e in EnsembleAretes(r) <==> e in E {
      if e in E {
        assert e.i in r && e in r[e.i];
      }
    }
  }

  /** Under the invariant, the vertex set and the edge set determine the state. */
  lemma DetermineParAretes(g1: Incidences, g2: Incidences)
    requires IncidenceSymetrique(g1) && IncidenceSymetrique(g2)
    requires g1.Keys == g2.Keys && EnsembleAretes(g1) == EnsembleAretes(g2)
    ensures g1 == g2
  {
    forall u | u in g1 ensures g1[u] == g2[u] {
      IncidentesA(g1, u);
      IncidentesA(g2, u);
    }
  }

  /** A state with the invariant, edges E and exactly their endpoints is the graph of E. */
  lemma DepuisAretesUnique(g: Incidences, E: set<Arete>)
    requires IncidenceSymetrique(g)
    requires EnsembleAretes(g) == E && g.Keys == Extremites(E)
    ensures g == DepuisAretes(E)
  {
    forall e | e in E ensures e.i < e.j {
      MembreAretes(g, e);
    }
    DepuisAretesEffet(E);
    DetermineParAretes(g, DepuisAretes(E));
  }

  /** The edges of g with both endpoints in X. */
  ghost function AretesInternes(g: Incidences, X: set<int>): set<Arete>
  {
    set e | e in EnsembleAretes(g) && e.i in X && e.j in X
  }

  /**
   * The induced subgraph of the constructor `Graphe(graphe, X)`: the edges
   * with both endpoints in X and only the vertices they touch, so a vertex of
   * X without an edge inside X is not a vertex of the result.
   */
  ghost function SousGrapheInduit(g: Incidences, X: set<int>): Incidences
  {
    DepuisAretes(AretesInternes(g, X))
  }

  lemma SousGrapheInduitEffet(g: Incidences, X: set<int>)
    requires IncidenceSymetrique(g)
    ensures IncidenceSymetrique(SousGrapheInduit(g, X))
    ensures EnsembleAretes(SousGrapheInduit(g, X)) == AretesInternes(g, X)
    ensures SousGrapheInduit(g, X).Keys <= X * g.Keys
    ensures forall v :: v in SousGrapheInduit(g, X) <==>
      v in X && exists e :: e in EnsembleAretes(g) && IncidenteA(e, v) && e.i in X && e.j in X
  {
    var E := AretesInternes(g, X);
    forall e | e in E ensures e.i < e.j && e.i in g && e.j in g {
      MembreAretes(g, e);
    }
    DepuisAretesEffet(E);
  }

  // ---------------------------------------------------------------------
  // Vertex fusion

  /**
   * The edges after `fusionnerSommets` with lo = min(i, j) and hi = max(i, j):
   * every edge not incident to hi, and a route-less edge {lo, v} for every
   * neighbour v of hi other than lo. The routes of hi's edges are lost.
   */
  ghost function AretesFusion(g: Incidences, lo: int, hi: int): set<Arete>
    requires hi in g
  {
    (set e | e in EnsembleAretes(g) && !IncidenteA(e, hi))
    + (set v | v in Voisins(g, hi) && v != lo :: Canon(Arete(lo, v, None)))
  }

  /** The route-less edges {u, v} for the v of P other than lo. */
  ghost function AretesNulles(u: int, lo: int, P: set<int>): set<Arete>
  {
    set v | v in P && v != lo :: Canon(Arete(u, v, None))
  }

  /**
   * The edges while `fusionnerSommets` runs, once the neighbours P of hi
   * have been handled: each {hi, v} without route removed, {lo, v} added.
   */
  ghost function AretesPendantFusion(g: Incidences, lo: int, hi: int, P: set<int>): set<Arete>
  {
    (EnsembleAretes(g) - AretesNulles(hi, lo, P)) + AretesNulles(lo, lo, P)
  }

  /** Handling one more neighbour v of hi. */
  lemma FusionEtape(g: Incidences, lo: int, hi: int, P: set<int>, v: int)
    requires IncidenceSymetrique(g) && hi in g && lo != hi
    requires P + {v} <= Voisins(g, hi)
    ensures v != hi
    ensures v != lo ==>
      (AretesPendantFusion(g, lo, hi, P) - {Canon(Arete(hi, v, None))}) + {Canon(Arete(lo, v, None))}
      == AretesPendantFusion(g, lo, hi, P + {v})
    ensures v == lo ==> AretesPendantFusion(g, lo, hi, P) == AretesPendantFusion(g, lo, hi, P + {v})
  {
    VoisinsCaracterises(g, hi, v);
    var r := Canon(Arete(hi, v, None));
    AretesNullesAjout(hi, lo, P, v);
    AretesNullesAjout(lo, lo, P, v);
    if v != lo {
      forall w | w in P ensures w != hi {
        VoisinsCaracterises(g, hi, w);
      }
      assert r !in AretesNulles(lo, lo, P);
    }
  }

  /** One more vertex v adds the edge {u, v}, unless v is lo. */
  lemma AretesNullesAjout(u: int, lo: int, P: set<int>, v: int)
    ensures AretesNulles(u, lo, P + {v}) ==
            AretesNulles(u, lo, P) + (if v != lo then {Canon(Arete(u, v, None))} else {})
  {
    forall e | e in AretesNulles(u, lo, P + {v})
      ensures e in AretesNulles(u, lo, P) + (if v != lo then {Canon(Arete(u, v, None))} else {})
    {
      var w :| w in P + {v} && w != lo && e == Canon(Arete(u, w, None));
      if w != v {
        assert w in P;
      }
    }
  }

  /** Removing hi at the end leaves the edges of `AretesFusion`. */
  lemma FusionFin(g: Incidences, lo: int, hi: int)
    requires IncidenceSymetrique(g) && hi in g && lo != hi
    ensures (set e | e in AretesPendantFusion(g, lo, hi, Voisins(g, hi)) && !IncidenteA(e, hi))
            == AretesFusion(g, lo, hi)
  {
    var N := Voisins(g, hi);
    forall v | v in N ensures v != hi {
      VoisinsCaracterises(g, hi, v);
    }
  }

  /** An edge joining v and w makes each a neighbour of the other. */
  lemma VoisinParArete(g: Incidences, e: Arete, v: int, w: int)
    requires IncidenceSymetrique(g) && e in EnsembleAretes(g)
    requires IncidenteA(e, v) && IncidenteA(e, w) && v != w
    ensures v in g && w in Voisins(g, v)
  {
    MembreAretes(g, e);
    assert e in g[v] && AutreSommet(e, v) == w;
  }

  /** A neighbour of v is joined to v by an edge of the graph, incident to both. */
  lemma AreteDeVoisin(g: Incidences, v: int, w: int) returns (e: Arete)
    requires IncidenceSymetrique(g) && v in g && w in Voisins(g, v)
    ensures e in EnsembleAretes(g) && e in g[v] && IncidenteA(e, v) && IncidenteA(e, w) && v != w
  {
    e :| e in g[v] && AutreSommet(e, v) == w;
  }

  /** Every neighbour of lo after the fusion was a neighbour of lo or hi. */
  lemma FusionVoisinsInclus(g: Incidences, f: Incidences, lo: int, hi: int, w: int)
    requires IncidenceSymetrique(g) && IncidenceSymetrique(f)
    requires lo != hi && lo in g && hi in g && lo in f
    requires EnsembleAretes(f) == AretesFusion(g, lo, hi)
    requires w in Voisins(f, lo)
    ensures w in (Voisins(g, lo) + Voisins(g, hi)) - {lo, hi}
  {
    var e := AreteDeVoisin(f, lo, w);
    if e in EnsembleAretes(g) && !IncidenteA(e, hi) {
      VoisinParArete(g, e, lo, w);
      assert w in Voisins(g, lo) && w != hi;
    } else {
      var v :| v in Voisins(g, hi) && v != lo && e == Canon(Arete(lo, v, None));
      assert w == v;
      var d := AreteDeVoisin(g, hi, v);
      assert w in Voisins(g, hi) && w != hi;
    }
  }

  /** Every neighbour of lo or hi other than those two is a neighbour after the fusion. */
  lemma FusionVoisinsContient(g: Incidences, f: Incidences, lo: int, hi: int, w: int)
    requires IncidenceSymetrique(g) && IncidenceSymetrique(f)
    requires lo != hi && lo in g && hi in g && lo in f
    requires EnsembleAretes(f) == AretesFusion(g, lo, hi)
    requires w in (Voisins(g, lo) + Voisins(g, hi)) - {lo, hi}
    ensures w in Voisins(f, lo)
  {
    if w in Voisins(g, lo) {
      var e := AreteDeVoisin(g, lo, w);
      assert e in EnsembleAretes(f);
      VoisinParArete(f, e, lo, w);
    } else {
      var e := Canon(Arete(lo, w, None));
      assert e in EnsembleAretes(f);
      VoisinParArete(f, e, lo, w);
    }
  }

  /**
   * After a fusion, the neighbourhood of the merged vertex is the union of
   * the two neighbourhoods, without the two merged vertices.
   */
  lemma FusionVoisinage(g: Incidences, f: Incidences, i: int, j: int)
    requires IncidenceSymetrique(g) && IncidenceSymetrique(f)
    requires i != j && i in g && j in g
    requires f.Keys == g.Keys - {if i < j then j else i}
    requires EnsembleAretes(f) == AretesFusion(g, if i < j then i else j, if i < j then j else i)
    ensures (if i < j then i else j) in f
    ensures Voisins(f, if i < j then i else j) == (Voisins(g, i) + Voisins(g, j)) - {i, j}
  {
    var lo, hi := if i < j then i else j, if i < j then j else i;
    assert {lo, hi} == {i, j};
    forall w | w in Voisins(f, lo) ensures w in (Voisins(g, lo) + Voisins(g, hi)) - {lo, hi} {
      FusionVoisinsInclus(g, f, lo, hi, w);
    }
    forall w | w in (Voisins(g, lo) + Voisins(g, hi)) - {lo, hi} ensures w in Voisins(f, lo) {
      FusionVoisinsContient(g, f, lo, hi, w);
    }
  }

  // ---------------------------------------------------------------------
  // Completeness

  /**
   * What `estComplet` checks (every pair of distinct vertices joined by a
   * route-less edge) makes every other vertex a neighbour.
   */
  lemma CompletVoisins(g: Incidences)
    requires IncidenceSymetrique(g)
    requires forall u, w :: u in g && w in g && u != w ==> Existe(g, Arete(u, w, None))
    ensures forall u :: u in g ==> Voisins(g, u) == g.Keys - {u}
  {
    forall u, w | u in g
      ensures w in Voisins(g, u) <==> w in g && w != u
    {
      VoisinsSymetriques(g, u, w);
      if w in g && w != u {
        assert Existe(g, Arete(u, w, None));
        var c := Canon(Arete(u, w, None));
        assert c in g[u] && AutreSommet(c, u) == w;
      }
      if w in Voisins(g, u) {
        var e :| e in g[u] && AutreSommet(e, u) == w;
      }
    }
  }
}
