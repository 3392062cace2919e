/**
 * The class `Graphe`: an undirected multigraph kept as incidence lists, a
 * map from each vertex id to the set of its incident edges. Every method is
 * proved against the value-level description of the `Incidence` and
 * `Connexite` modules.
 *
 * Java's iteration over a hash set, or `toArray()[0]`, visits members in an
 * order the model leaves open: each pick is a `:|` choice. Every such pick
 * is preceded by a ghost `Element` of the same set, which names a member
 * and so shows that the choice can be made.
 */
module Graphes {
  import opened Wrappers
  import opened Aretes
  import opened Ensembles
  import opened Incidence
  import opened Connexite
  import opened Classement

  /** The normal forms of a sequence of edges. */
  ghost function CanonDe(aretes: seq<Arete>): set<Arete>
  {
    set a | a in aretes :: Canon(a)
  }

  lemma CanonDeAjout(aretes: seq<Arete>, k: int)
    requires 0 <= k < |aretes|
    ensures CanonDe(aretes[..k + 1]) == CanonDe(aretes[..k]) + {Canon(aretes[k])}
  {
    assert aretes[..k + 1] == aretes[..k] + [aretes[k]];
  }

  /** One more edge handled adds its other endpoint to the neighbours found. */
  lemma AutresAjout(S: set<Arete>, reste: set<Arete>, a: Arete, v: int)
    requires a in reste && reste <= S
    ensures (set e | e in S - (reste - {a}) :: AutreSommet(e, v))
      == (set e | e in S - reste :: AutreSommet(e, v)) + {AutreSommet(a, v)}
  {
    assert S - (reste - {a}) == (S - reste) + {a};
  }

  /** One step of the inner loop of the induced-subgraph constructor. */
  lemma InduitEtape(G: Incidences, X: set<int>, vues: set<Arete>, a: Arete)
    requires IncidenceSymetrique(G) && a in EnsembleAretes(G)
    ensures a.i < a.j && Canon(a) == a
    ensures a.i in X && a.j in X ==>
      AretesInternes(G, X) * (vues + {a}) == AretesInternes(G, X) * vues + {a}
      && Extremites(AretesInternes(G, X) * vues + {a}) == Extremites(AretesInternes(G, X) * vues) + {a.i, a.j}
    ensures !(a.i in X && a.j in X) ==>
      AretesInternes(G, X) * (vues + {a}) == AretesInternes(G, X) * vues
  {
    MembreAretes(G, a);
    ExtremitesAjout(AretesInternes(G, X) * vues, a);
  }

  /** Java's `Integer.MIN_VALUE`, the starting value of `degreMax`. */
  const MinValue: int := -2147483648

  class Graphe {
    /** Incidence lists: `mapAretes[u]` is the set of edges incident to u. */
    var mapAretes: Incidences

    /** The documented invariant: incidence is symmetric. */
    ghost predicate Valid()
      reads this
    {
      IncidenceSymetrique(mapAretes)
    }

    // -------------------------------------------------------------------
    // Constructors

    /** The graph with vertices 0..n-1 and no edge (none when n <= 0). */
    constructor (n: int)
      ensures Valid()
      ensures forall v :: v in mapAretes <==> 0 <= v < n
      ensures forall v :: v in mapAretes ==> mapAretes[v] == {}
    {
      mapAretes := map[];
      new;
      var i := 0;
      while i < n
        invariant 0 <= i && (i <= n || i == 0)
        invariant forall v :: v in mapAretes <==> 0 <= v < i
        invariant forall v :: v in mapAretes ==> mapAretes[v] == {}
      {
        mapAretes := mapAretes[i := {}];
        i := i + 1;
      }
    }

    /** The empty graph. */
    constructor Vide()
      ensures Valid()
      ensures mapAretes == map[]
    {
      mapAretes := map[];
    }

    /** A copy of g, with fresh sets under every vertex. */
    constructor Copie(g: Graphe)
      requires g.Valid()
      ensures Valid()
      ensures mapAretes == g.mapAretes
    {
      mapAretes := map[];
      new;
      var reste := g.mapAretes.Keys;
      while reste != {}
        invariant reste <= g.mapAretes.Keys
        invariant mapAretes == map u | u in g.mapAretes.Keys - reste :: g.mapAretes[u]
        decreases reste
      {
        ghost var w := Element(reste);
        var i :| i in reste;
        mapAretes := mapAretes[i := g.mapAretes[i]];
        reste := reste - {i};
      }
    }

    /**
     * The graph of a collection of edges, each added unless an equal one is
     * already there. Edges are assumed to join two distinct vertices.
     */
    constructor DepuisAretes(aretes: seq<Arete>)
      requires forall k :: 0 <= k < |aretes| ==> aretes[k].i != aretes[k].j
      ensures Valid()
      ensures EnsembleAretes(mapAretes) == CanonDe(aretes)
      ensures mapAretes.Keys == Extremites(CanonDe(aretes))
      ensures mapAretes == Incidence.DepuisAretes(CanonDe(aretes))
    {
      mapAretes := map[];
      new;
      var k := 0;
      while k < |aretes|
        invariant 0 <= k <= |aretes| && Valid()
        invariant EnsembleAretes(mapAretes) == CanonDe(aretes[..k])
        invariant mapAretes.Keys == Extremites(CanonDe(aretes[..k]))
      {
        var a := aretes[k];
        ghost var E := CanonDe(aretes[..k]);
        CanonDeAjout(aretes, k);
        ExtremitesAjout(E, Canon(a));
        if !ExisteArete(a) {
          AjouterArete(a);
        } else {
          AjoutMembres(E, Canon(a), Canon(a));
        }
        k := k + 1;
      }
      assert aretes[..k] == aretes;
      DepuisAretesUnique(mapAretes, CanonDe(aretes));
    }

    /**
     * The subgraph of `graphe` induced by X (a subset of its vertices): the
     * edges with both endpoints in X, and only the vertices they touch.
     */
    constructor Induit(graphe: Graphe, X: set<int>)
      requires graphe.Valid() && X <= graphe.mapAretes.Keys
      ensures Valid()
      ensures mapAretes == SousGrapheInduit(graphe.mapAretes, X)
    {
      mapAretes := map[];
      new;
      ghost var G := graphe.mapAretes;
      ghost var internes := AretesInternes(G, X);
      ghost var vues: set<Arete> := {};
      var resteX := X;
      while resteX != {}
        invariant resteX <= X && Valid() && graphe.mapAretes == G
        invariant forall u :: u in X - resteX ==> G[u] <= vues
        invariant EnsembleAretes(mapAretes) == internes * vues
        invariant mapAretes.Keys == Extremites(internes * vues)
        decreases resteX
      {
        ghost var w := Element(resteX);
        var i :| i in resteX;
        var resteA := graphe.mapAretes[i];
        while resteA != {}
          invariant resteA <= G[i] && Valid() && graphe.mapAretes == G
          invariant forall u :: u in X - resteX ==> G[u] <= vues
          invariant G[i] - resteA <= vues
          invariant EnsembleAretes(mapAretes) == internes * vues
          invariant mapAretes.Keys == Extremites(internes * vues)
          decreases resteA
        {
          ghost var x := Element(resteA);
          var a :| a in resteA;
          InduitEtape(G, X, vues, a);
          if a.i in X && a.j in X {
            AjouterArete(a);
          }
          vues := vues + {a};
          resteA := resteA - {a};
        }
        resteX := resteX - {i};
      }
      forall e | e in internes ensures e in vues {
        MembreAretes(G, e);
      }
      assert internes * vues == internes;
      DepuisAretesUnique(mapAretes, internes);
    }

    // -------------------------------------------------------------------
    // Elementary queries

    /** `contientSommet`: in a valid graph, every endpoint of an edge is a vertex. */
    predicate ContientSommet(v: int)
      reads this
      ensures Valid() && (exists e :: e in EnsembleAretes(mapAretes) && IncidenteA(e, v)) ==> ContientSommet(v)
    {
      ExtremitesSommets(mapAretes);
      v in mapAretes
    }

    /**
     * `ensembleSommets`: the vertices, holding both endpoints of every
     * edge.
     */
    function EnsembleSommets(): (s: set<int>)
      reads this
      ensures forall v :: v in s <==> ContientSommet(v)
      ensures Valid() ==> Extremites(EnsembleAretes(mapAretes)) <= s
    {
      ExtremitesSommets(mapAretes);
      mapAretes.Keys
    }

    /** `nbSommets`: the order of the graph. */
    function NbSommets(): (n: nat)
      reads this
      ensures n == |EnsembleSommets()|
      ensures forall v :: ContientSommet(v) ==> n > 0
    {
      |mapAretes|
    }

    /**
     * `existeArete(a)`: some edge stored under a.i is `equals` to a, that is,
     * the normal form of a is an edge of the graph.
     */
    function ExisteArete(a: Arete): (b: bool)
      reads this
      requires Valid()
      ensures b <==> a.i in mapAretes && exists e :: e in mapAretes[a.i] && Equals(e, a)
      ensures b <==> Canon(a) in EnsembleAretes(mapAretes)
    {
      ExisteSiEquals(mapAretes, a);
      ExisteSiArete(mapAretes, a);
      Existe(mapAretes, a)
    }

    // -------------------------------------------------------------------
    // Mutators

    /** `ajouterSommet(v)`: adds v, without edges, unless it is present. */
    method AjouterSommet(v: int)
      requires Valid()
      modifies this
      ensures Valid()
      ensures mapAretes == AvecSommet(old(mapAretes), v)
      ensures mapAretes.Keys == old(mapAretes).Keys + {v}
      ensures EnsembleAretes(mapAretes) == EnsembleAretes(old(mapAretes))
    {
      if !ContientSommet(v) {
        mapAretes := mapAretes[v := {}];
      }
      AvecSommetEffet(old(mapAretes), v);
    }

    /**
     * `ajouterArete(a)`: adds both endpoints, then the edge under both of
     * them unless an equal edge is present.
     */
    method AjouterArete(a: Arete)
      requires Valid() && a.i != a.j
      modifies this
      ensures Valid()
      ensures mapAretes == AvecArete(old(mapAretes), a)
      ensures mapAretes.Keys == old(mapAretes).Keys + {a.i, a.j}
      ensures EnsembleAretes(mapAretes) == EnsembleAretes(old(mapAretes)) + {Canon(a)}
      ensures ExisteArete(a)
    {
      AjouterSommet(a.i);
      AjouterSommet(a.j);
      if !ExisteArete(a) {
        mapAretes := mapAretes[a.i := mapAretes[a.i] + {Canon(a)}];
        mapAretes := mapAretes[a.j := mapAretes[a.j] + {Canon(a)}];
      }
      AvecAreteEffet(old(mapAretes), a);
    }

    /** `supprimerArete(a)`: removes the edge equal to a, if there is one. */
    method SupprimerArete(a: Arete)
      requires Valid()
      modifies this
      ensures Valid()
      ensures mapAretes == SansArete(old(mapAretes), a)
      ensures mapAretes.Keys == old(mapAretes).Keys
      ensures EnsembleAretes(mapAretes) == EnsembleAretes(old(mapAretes)) - {Canon(a)}
      ensures !ExisteArete(a)
    {
      if ExisteArete(a) {
        MembreAretes(mapAretes, Canon(a));
        mapAretes := mapAretes[a.i := mapAretes[a.i] - {Canon(a)}];
        mapAretes := mapAretes[a.j := mapAretes[a.j] - {Canon(a)}];
      }
      SansAreteEffet(old(mapAretes), a);
    }

    /**
     * `supprimerSommet(v)`: removes the edges incident to v from every set,
     * then v itself; nothing happens if v is absent.
     */
    method SupprimerSommet(v: int)
      requires Valid()
      modifies this
      ensures Valid()
      ensures mapAretes == SansSommet(old(mapAretes), v)
      ensures mapAretes.Keys == old(mapAretes).Keys - {v}
      ensures EnsembleAretes(mapAretes) ==
              set e | e in EnsembleAretes(old(mapAretes)) && !IncidenteA(e, v)
    {
      ghost var g0 := mapAretes;
      if ContientSommet(v) {
        ghost var K := g0.Keys;
        var reste := mapAretes.Keys;
        while reste != {}
          invariant reste <= K && mapAretes.Keys == K
          invariant forall u :: u in mapAretes ==>
            mapAretes[u] == (if u in reste then g0[u] else set e | e in g0[u] && !IncidenteA(e, v))
          decreases reste
        {
          ghost var w := Element(reste);
          var m :| m in reste;
          AjoutMembres(K, m, m);
          mapAretes := mapAretes[m := set e | e in mapAretes[m] && !IncidenteA(e, v)];
          reste := reste - {m};
        }
        mapAretes := mapAretes - {v};
        ghost var cible := SansSommet(g0, v);
        assert mapAretes.Keys == cible.Keys;
        assert forall u :: u in mapAretes ==> mapAretes[u] == cible[u];
        MapsEgales(mapAretes, cible);
      }
      SansSommetEffet(g0, v);
    }

    // -------------------------------------------------------------------
    // Degrees and neighbourhoods

    /** `degre(v)`: the number of edges incident to v (v must be a vertex). */
    function Degre(v: int): (d: nat)
      reads this
      requires Valid() && v in mapAretes
      ensures d == |set e | e in EnsembleAretes(mapAretes) && IncidenteA(e, v)|
    {
      IncidentesA(mapAretes, v);
      |mapAretes[v]|
    }

    /**
     * `nbAretes`: half the sum of the degrees, which is the number of edges,
     * parallel edges included.
     */
    method NbAretes() returns (n: int)
      requires Valid()
      ensures n == |EnsembleAretes(mapAretes)|
    {
      var compteur := 0;
      var reste := mapAretes.Keys;
      while reste != {}
        invariant reste <= mapAretes.Keys
        invariant compteur == |Paires(mapAretes, mapAretes.Keys - reste)|
        decreases reste
      {
        ghost var w := Element(reste);
        var m :| m in reste;
        PairesAjout(mapAretes, mapAretes.Keys - reste, m);
        assert (mapAretes.Keys - reste) + {m} == mapAretes.Keys - (reste - {m});
        compteur := compteur + |mapAretes[m]|;
        reste := reste - {m};
      }
      assert mapAretes.Keys - reste == mapAretes.Keys;
      PoigneesDeMains(mapAretes);
      n := compteur / 2;
    }

    /**
     * `degreMax`: the largest degree, found with `Integer.MIN_VALUE` as the
     * starting value; 0 for the empty graph.
     */
    method DegreMax() returns (d: int)
      requires Valid()
      ensures |mapAretes| == 0 ==> d == 0
      ensures forall v :: v in mapAretes ==> Degre(v) <= d
      ensures |mapAretes| > 0 ==> exists v :: v in mapAretes && Degre(v) == d
    {
      var degreMax := MinValue;
      var reste := mapAretes.Keys;
      while reste != {}
        invariant reste <= mapAretes.Keys
        invariant forall v :: v in mapAretes.Keys - reste ==> Degre(v) <= degreMax
        invariant degreMax == MinValue ==> reste == mapAretes.Keys
        invariant degreMax != MinValue ==>
          exists v :: v in mapAretes.Keys - reste && Degre(v) == degreMax
        decreases reste
      {
        ghost var w := Element(reste);
        var i :| i in reste;
        if Degre(i) > degreMax {
          degreMax := Degre(i);
        }
        reste := reste - {i};
      }
      if degreMax == MinValue {
        d := 0;
      } else {
        d := degreMax;
      }
    }

    /** `nbSommetDeDegre(n)`: how many vertices have degree n. */
    method NbSommetDeDegre(n: int) returns (c: int)
      requires Valid()
      ensures c == |SommetsDeDegre(mapAretes, n)|
    {
      c := 0;
      var reste := mapAretes.Keys;
      while reste != {}
        invariant reste <= mapAretes.Keys
        invariant c == |SommetsDeDegre(mapAretes, n) - reste|
        decreases reste
      {
        ghost var w := Element(reste);
        var i :| i in reste;
        ghost var avant := SommetsDeDegre(mapAretes, n) - reste;
        if Degre(i) == n {
          assert SommetsDeDegre(mapAretes, n) - (reste - {i}) == avant + {i};
          c := c + 1;
        } else {
          assert SommetsDeDegre(mapAretes, n) - (reste - {i}) == avant;
        }
        reste := reste - {i};
      }
    }

    /** `getVoisins(v)`: the other endpoints of the edges at v (v must be a vertex). */
    method GetVoisins(v: int) returns (voisins: set<int>)
      requires Valid() && v in mapAretes
      ensures voisins == Voisins(mapAretes, v)
      ensures forall w :: w in voisins <==>
        w != v && exists e :: e in EnsembleAretes(mapAretes) && IncidenteA(e, v) && IncidenteA(e, w)
    {
      voisins := {};
      var reste := mapAretes[v];
      while reste != {}
        invariant reste <= mapAretes[v]
        invariant voisins == set e | e in mapAretes[v] - reste :: AutreSommet(e, v)
        decreases reste
      {
        ghost var w := Element(reste);
        var a :| a in reste;
        assert mapAretes[v] - (reste - {a}) == (mapAretes[v] - reste) + {a};
        if a.i == v {
          voisins := voisins + {a.j};
        } else {
          voisins := voisins + {a.i};
        }
        reste := reste - {a};
      }
      assert mapAretes[v] - reste == mapAretes[v];
      forall w ensures w in voisins <==>
        w != v && exists e :: e in EnsembleAretes(mapAretes) && IncidenteA(e, v) && IncidenteA(e, w)
      {
        VoisinsCaracterises(mapAretes, v, w);
      }
    }

    /**
     * `getVoisinsAvecArete(v)`: each neighbour of v with one edge that joins
     * it to v; which parallel edge is kept depends on the iteration order.
     */
    method GetVoisinsAvecArete(v: int) returns (voisins: map<int, Arete>)
      requires Valid() && v in mapAretes
      ensures voisins.Keys == Voisins(mapAretes, v)
      ensures forall w :: w in voisins ==>
        voisins[w] in mapAretes[v] && IncidenteA(voisins[w], v) && AutreSommet(voisins[w], v) == w
    {
      voisins := map[];
      var reste := mapAretes[v];
      while reste != {}
        invariant reste <= mapAretes[v]
        invariant voisins.Keys == set e | e in mapAretes[v] - reste :: AutreSommet(e, v)
        invariant forall w :: w in voisins ==>
          voisins[w] in mapAretes[v] && AutreSommet(voisins[w], v) == w
        decreases reste
      {
        ghost var x := Element(reste);
        var a :| a in reste;
        AutresAjout(mapAretes[v], reste, a, v);
        if a.i == v {
          voisins := voisins[a.j := a];
        } else {
          voisins := voisins[a.i := a];
        }
        reste := reste - {a};
      }
      assert mapAretes[v] - reste == mapAretes[v];
    }

    /** `sontAdjacents(i, j)`: j is a neighbour of i (i must be a vertex). */
    method SontAdjacents(i: int, j: int) returns (b: bool)
      requires Valid() && i in mapAretes
      ensures b <==> j in Voisins(mapAretes, i)
      ensures b <==> i != j && exists e :: e in EnsembleAretes(mapAretes) && IncidenteA(e, i) && IncidenteA(e, j)
      ensures b ==> j in mapAretes && i in Voisins(mapAretes, j)
    {
      var voisins := GetVoisins(i);
      b := j in voisins;
      VoisinsSymetriques(mapAretes, i, j);
    }

    // -------------------------------------------------------------------
    // Connectivity

    /**
     * The recursive part of `getClasseConnexite`: marks `courant`, then
     * searches from each unmarked neighbour. The shared `dejaVu` set of the
     * source is passed in and handed back as `vus`.
     */
    method ClasseDFS(courant: int, dejaVu: set<int>) returns (vus: set<int>)
      requires Valid() && courant in mapAretes && dejaVu <= mapAretes.Keys && courant !in dejaVu
      ensures dejaVu + {courant} <= vus <= mapAretes.Keys
      ensures forall x :: x in vus - dejaVu ==> Voisins(mapAretes, x) <= vus
      ensures forall x :: x in vus - dejaVu ==> Accessible(mapAretes, courant, x)
      decreases mapAretes.Keys - dejaVu
    {
      var voisins := GetVoisins(courant);
      vus := dejaVu + {courant};
      AccessibleRefl(mapAretes, courant);
      if voisins <= vus {
        return;
      }
      var reste := voisins;
      while reste != {}
        invariant reste <= voisins
        invariant dejaVu + {courant} <= vus <= mapAretes.Keys
        invariant voisins - reste <= vus
        invariant forall x :: x in vus - dejaVu - {courant} ==> Voisins(mapAretes, x) <= vus
        invariant forall x :: x in vus - dejaVu ==> Accessible(mapAretes, courant, x)
        decreases reste
      {
        ghost var w := Element(reste);
        var i :| i in reste;
        if i !in vus {
          VoisinsSymetriques(mapAretes, courant, i);
          ghost var avant := vus;
          vus := ClasseDFS(i, vus);
          AccessiblesParVoisin(mapAretes, courant, i, vus - avant);
          forall x | x in vus - dejaVu - {courant} ensures Voisins(mapAretes, x) <= vus {
            if x in avant {
              assert Voisins(mapAretes, x) <= avant;
            }
          }
        }
        reste := reste - {i};
      }
    }

    /** `getClasseConnexite(v)`: the vertices reachable from v (v must be a vertex). */
    method GetClasseConnexite(v: int) returns (classe: set<int>)
      requires Valid() && v in mapAretes
      ensures classe == Classe(mapAretes, v)
    {
      classe := ClasseDFS(v, {});
      ClasseExacte(mapAretes, v, classe);
    }

    /**
     * The recursive part of `estConnexe`: true as soon as every vertex is
     * marked; false at a vertex all of whose neighbours are marked, or when
     * no search from an unmarked neighbour returns true.
     */
    method EstConnexeDFS(courant: int, dejaVu: set<int>) returns (b: bool, vus: set<int>)
      requires Valid() && courant in mapAretes && dejaVu <= mapAretes.Keys && courant !in dejaVu
      ensures dejaVu + {courant} <= vus <= mapAretes.Keys
      ensures b <==> mapAretes.Keys <= vus
      ensures !b ==> forall x :: x in vus - dejaVu ==> Voisins(mapAretes, x) <= vus
      ensures forall x :: x in vus - dejaVu ==> Accessible(mapAretes, courant, x)
      decreases mapAretes.Keys - dejaVu
    {
      var voisins := GetVoisins(courant);
      vus := dejaVu + {courant};
      AccessibleRefl(mapAretes, courant);
      if mapAretes.Keys <= vus {
        return true, vus;
      } else if voisins <= vus {
        return false, vus;
      }
      b := false;
      var reste := voisins;
      while reste != {} && !b
        invariant reste <= voisins
        invariant dejaVu + {courant} <= vus <= mapAretes.Keys
        invariant b <==> mapAretes.Keys <= vus
        invariant !b ==> voisins - reste <= vus
        invariant !b ==> forall x :: x in vus - dejaVu - {courant} ==> Voisins(mapAretes, x) <= vus
        invariant forall x :: x in vus - dejaVu ==> Accessible(mapAretes, courant, x)
        decreases reste
      {
        ghost var w := Element(reste);
        var i :| i in reste;
        if i !in vus {
          VoisinsSymetriques(mapAretes, courant, i);
          ghost var avant := vus;
          var r;
          r, vus := EstConnexeDFS(i, vus);
          b := b || r;
          AccessiblesParVoisin(mapAretes, courant, i, vus - avant);
          if !b {
            forall x | x in vus - dejaVu - {courant} ensures Voisins(mapAretes, x) <= vus {
              if x in avant {
                assert Voisins(mapAretes, x) <= avant;
              }
            }
          }
        }
        reste := reste - {i};
      }
    }

    /** `estConnexe`: graphs of fewer than two vertices are connected. */
    method EstConnexe() returns (b: bool)
      requires Valid()
      ensures b <==> Connexe(mapAretes)
    {
      if NbSommets() >= 2 {
        ghost var w := Element(mapAretes.Keys);
        var s :| s in mapAretes;
        var vus;
        b, vus := EstConnexeDFS(s, {});
        if b {
          ConnexeDepuis(mapAretes, s);
        } else {
          NonConnexeSiFerme(mapAretes, vus, s);
        }
      } else {
        b := true;
        PetitConnexe(mapAretes);
      }
    }

    /**
     * `getEnsembleClassesConnexite`: takes a remaining vertex, removes its
     * class from the remaining vertices, until none is left.
     */
    method GetEnsembleClassesConnexite() returns (ensemble: set<set<int>>)
      requires Valid()
      ensures ensemble == Classes(mapAretes)
    {
      var listeSommet := mapAretes.Keys;
      ensemble := {};
      while listeSommet != {}
        invariant listeSommet <= mapAretes.Keys
        invariant ensemble == ClassesDe(mapAretes, mapAretes.Keys - listeSommet)
        decreases listeSommet
      {
        ghost var w := Element(listeSommet);
        var s :| s in listeSommet;
        var tempo := GetClasseConnexite(s);
        ClassesDeEtape(mapAretes, listeSommet, s);
        listeSommet := listeSommet - tempo;
        ensemble := ensemble + {tempo};
      }
      assert mapAretes.Keys - listeSommet == mapAretes.Keys;
    }

    /**
     * `estUnIsthme(a)`: on a copy without a, a.j is not in the class of a.i.
     * The graph itself is left unchanged.
     */
    method EstUnIsthme(a: Arete) returns (r: bool)
      requires Valid() && a.i in mapAretes
      ensures r <==> !Accessible(SansArete(mapAretes, a), a.i, a.j)
    {
      var copieGraphe := new Graphe.Copie(this);
      copieGraphe.SupprimerArete(a);
      var classe := copieGraphe.GetClasseConnexite(a.i);
      r := a.j !in classe;
      if Accessible(copieGraphe.mapAretes, a.i, a.j) {
        AccessibleSommets(copieGraphe.mapAretes, a.i, a.j);
      }
    }

    // -------------------------------------------------------------------
    // Classifiers

    /**
     * `estSimple`: every stored edge is incident to the vertex under which it
     * is stored; the invariant makes this always true.
     */
    method EstSimple() returns (b: bool)
      ensures b <==> forall u, e :: u in mapAretes && e in mapAretes[u] ==> IncidenteA(e, u)
      ensures Valid() ==> b
    {
      var reste := mapAretes.Keys;
      while reste != {}
        invariant reste <= mapAretes.Keys
        invariant forall u, e :: u in mapAretes.Keys - reste && e in mapAretes[u] ==> IncidenteA(e, u)
        decreases reste
      {
        ghost var w := Element(reste);
        var i :| i in reste;
        var aretes := mapAretes[i];
        while aretes != {}
          invariant aretes <= mapAretes[i]
          invariant forall e :: e in mapAretes[i] - aretes ==> IncidenteA(e, i)
          decreases aretes
        {
          ghost var x := Element(aretes);
          var a :| a in aretes;
          if a.i != i && a.j != i {
            return false;
          }
          aretes := aretes - {a};
        }
        reste := reste - {i};
      }
      return true;
    }

    /**
     * `estComplet`: every two different vertices are joined by an edge equal
     * to the route-less edge between them.
     */
    method EstComplet() returns (b: bool)
      requires Valid()
      ensures b <==> Complet(mapAretes)
    {
      var reste := mapAretes.Keys;
      while reste != {}
        invariant reste <= mapAretes.Keys
        invariant forall u, w :: u in mapAretes.Keys - reste && w in mapAretes && u != w ==>
          Existe(mapAretes, Arete(u, w, None))
        decreases reste
      {
        ghost var x := Element(reste);
        var i :| i in reste;
        var autres := mapAretes.Keys;
        while autres != {}
          invariant autres <= mapAretes.Keys
          invariant forall w :: w in mapAretes.Keys - autres && i != w ==> Existe(mapAretes, Arete(i, w, None))
          decreases autres
        {
          ghost var y := Element(autres);
          var j :| j in autres;
          if i != j && !ExisteArete(AreteSansRoute(i, j)) {
            return false;
          }
          autres := autres - {j};
        }
        reste := reste - {i};
      }
      return true;
    }

    /**
     * `estUneChaine`: no degree above 2, two vertices of degree 1 once there
     * are two vertices, and connected. Parallel edges are not excluded.
     */
    method EstUneChaine() returns (b: bool)
      requires Valid()
      ensures b <==> Chaine(mapAretes)
    {
      var degreMax := DegreMax();
      if degreMax > 2 {
        return false;
      }
      var n1 := NbSommetDeDegre(1);
      if n1 != 2 && NbSommets() >= 2 {
        return false;
      }
      b := EstConnexe();
    }

    /**
     * `estUnCycle`: every vertex has degree 2 and the graph is connected.
     * Parallel edges are not excluded.
     */
    method EstUnCycle() returns (b: bool)
      requires Valid()
      ensures b <==> Cycle(mapAretes)
      ensures b <==> (forall v :: v in mapAretes ==> Degre(v) == 2) && Connexe(mapAretes)
    {
      var n2 := NbSommetDeDegre(2);
      if n2 == NbSommets() {
        b := EstConnexe();
      } else {
        b := false;
      }
      CycleDegres(mapAretes);
    }

    /**
     * The recursive part of `estAcyclique`, run on the scratch graph
     * `copie`: a vertex met a second time gives false; otherwise each
     * neighbour v is visited after the route-less edge {courant, v} is
     * removed from `copie`, until one visit gives false. The shared `dejaVu`
     * list of the source is passed in and handed back as `vus`.
     */
    method EstAcycliqueDFS(courant: int, dejaVu: set<int>, copie: Graphe) returns (r: bool, vus: set<int>)
      requires copie.Valid() && courant in copie.mapAretes && dejaVu <= copie.mapAretes.Keys
      modifies copie
      ensures copie.Valid() && copie.mapAretes.Keys == old(copie.mapAretes.Keys)
      ensures EnsembleAretes(copie.mapAretes) <= old(EnsembleAretes(copie.mapAretes))
      ensures dejaVu + {courant} <= vus <= copie.mapAretes.Keys
      ensures courant in dejaVu ==> !r && vus == dejaVu
      decreases copie.mapAretes.Keys - dejaVu
    {
      var voisins := copie.GetVoisins(courant);
      if courant in dejaVu {
        return false, dejaVu;
      } else if voisins == {} {
        return true, dejaVu + {courant};
      }
      forall w | w in voisins ensures w in copie.mapAretes {
        VoisinsSymetriques(copie.mapAretes, courant, w);
      }
      r := true;
      vus := dejaVu + {courant};
      var reste := voisins;
      while reste != {} && r
        invariant copie.Valid() && copie.mapAretes.Keys == old(copie.mapAretes.Keys)
        invariant EnsembleAretes(copie.mapAretes) <= old(EnsembleAretes(copie.mapAretes))
        invariant dejaVu + {courant} <= vus <= copie.mapAretes.Keys
        invariant reste <= voisins <= copie.mapAretes.Keys
        decreases reste
      {
        ghost var w := Element(reste);
        var v :| v in reste;
        copie.SupprimerArete(Arete(courant, v, None));
        r, vus := EstAcycliqueDFS(v, vus, copie);
        reste := reste - {v};
      }
    }

    /**
     * `estAcyclique`: for each class of more than two vertices, builds the
     * induced subgraph, then searches a fresh copy of the whole graph from
     * its first vertex, the same for every class; a false search gives false.
     * Classes of at most two vertices are never searched.
     */
    method EstAcyclique() returns (r: bool)
      requires Valid()
      ensures (forall C :: C in Classes(mapAretes) ==> |C| <= 2) ==> r
    {
      var ensembleConnexes := GetEnsembleClassesConnexite();
      ClassesIncluses(mapAretes);
      var premier := 0;
      if mapAretes.Keys != {} {
        ghost var z := Element(mapAretes.Keys);
        premier :| premier in mapAretes;
      }
      var reste := ensembleConnexes;
      while reste != {}
        invariant reste <= ensembleConnexes
        decreases reste
      {
        ghost var x := Element(reste);
        var groupe :| groupe in reste;
        if |groupe| > 2 {
          var tempo := new Graphe.Induit(this, groupe);
          ghost var y := Element(groupe);
          var copie := new Graphe.Copie(this);
          var resultat, vus := tempo.EstAcycliqueDFS(premier, {}, copie);
          if !resultat {
            assert groupe in Classes(mapAretes);
            return false;
          }
        }
        reste := reste - {groupe};
      }
      return true;
    }

    /** `estUnArbre`: connected, then acyclic in the sense of `estAcyclique`. */
    method EstUnArbre() returns (r: bool)
      requires Valid()
      ensures r ==> Connexe(mapAretes)
      ensures Connexe(mapAretes) && |mapAretes| <= 2 ==> r
    {
      var connexe := EstConnexe();
      if !connexe {
        return false;
      }
      if |mapAretes| <= 2 {
        ClassesIncluses(mapAretes);
        forall C | C in Classes(mapAretes) ensures |C| <= 2 {
          CardSousEnsemble(C, mapAretes.Keys);
        }
      }
      r := EstAcyclique();
    }

    /**
     * `estUneForet`: the subgraph induced by each class is a tree. A class
     * that is an isolated vertex induces the empty graph. Since every class
     * induces a connected subgraph, a graph whose classes all have at most
     * two vertices passes.
     */
    method EstUneForet() returns (r: bool)
      requires Valid()
      ensures (forall C :: C in Classes(mapAretes) ==> |C| <= 2) ==> r
      ensures EnsembleAretes(mapAretes) == {} ==> r
    {
      var ensembleConnexes := GetEnsembleClassesConnexite();
      ClassesIncluses(mapAretes);
      var reste := ensembleConnexes;
      while reste != {}
        invariant reste <= ensembleConnexes
        decreases reste
      {
        ghost var x := Element(reste);
        var classe :| classe in reste;
        var tempo := new Graphe.Induit(this, classe);
        if |classe| <= 2 {
          PetiteClasseInduite(mapAretes, classe);
        }
        var arbre := tempo.EstUnArbre();
        if EnsembleAretes(mapAretes) == {} {
          SousGrapheInduitEffet(mapAretes, classe);
          assert tempo.mapAretes.Keys == {};
          PetitConnexe(tempo.mapAretes);
        }
        if !arbre {
          return false;
        }
        reste := reste - {classe};
      }
      return true;
    }

    /**
     * `sontIsomorphes(g1, g2)`: the same number of edges and the same vertex
     * set. The vertex-count comparison of the source compares g1 with
     * itself.
     */
    static method SontIsomorphes(g1: Graphe, g2: Graphe) returns (b: bool)
      requires g1.Valid() && g2.Valid()
      ensures b <==> |EnsembleAretes(g1.mapAretes)| == |EnsembleAretes(g2.mapAretes)|
                     && g1.mapAretes.Keys == g2.mapAretes.Keys
    {
      var n1 := g1.NbAretes();
      var n2 := g2.NbAretes();
      b := n1 == n2 && g1.NbSommets() == g1.NbSommets()
        && g2.EnsembleSommets() <= g1.EnsembleSommets() && g1.EnsembleSommets() <= g2.EnsembleSommets();
    }

    // -------------------------------------------------------------------
    // Vertex fusion

    /**
     * `fusionnerSommets(i, j)`: every neighbour v of max(i, j) other than
     * min(i, j) gets a route-less edge to min(i, j), the route-less edge
     * {max, v} is removed, and then max(i, j) is removed with its remaining
     * edges. Nothing happens when a vertex is absent.
     */
    method FusionnerSommets(i: int, j: int)
      requires Valid() && i != j
      modifies this
      ensures Valid()
      ensures !(i in old(mapAretes) && j in old(mapAretes)) ==> mapAretes == old(mapAretes)
      ensures i in old(mapAretes) && j in old(mapAretes) ==>
        var min, max := if i < j then i else j, if i < j then j else i;
        && mapAretes.Keys == old(mapAretes).Keys - {max}
        && |mapAretes| == |old(mapAretes)| - 1
        && EnsembleAretes(mapAretes) == AretesFusion(old(mapAretes), min, max)
        && min in mapAretes
        && Voisins(mapAretes, min) == (Voisins(old(mapAretes), i) + Voisins(old(mapAretes), j)) - {i, j}
    {
      if ContientSommet(i) && ContientSommet(j) {
        var min := if i < j then i else j;
        var max := if i < j then j else i;
        var voisins := GetVoisins(max);
        ghost var g0 := mapAretes;
        var reste := voisins;
        while reste != {}
          invariant Valid() && mapAretes.Keys == g0.Keys && reste <= voisins
          invariant EnsembleAretes(mapAretes) == AretesPendantFusion(g0, min, max, voisins - reste)
          decreases reste
        {
          ghost var w := Element(reste);
          var v :| v in reste;
          Transfert(voisins, reste, v);
          RedirigerVoisin(g0, min, max, voisins - reste, v);
          reste := reste - {v};
        }
        assert voisins - reste == voisins;
        FusionFin(g0, min, max);
        SupprimerSommet(max);
        Transfert(g0.Keys, g0.Keys, max);
        FusionVoisinage(g0, mapAretes, i, j);
      }
    }

    /**
     * One turn of the loop of `fusionnerSommets`, for the neighbour v of
     * max: unless v is min, the route-less edge {max, v} is removed and the
     * route-less edge {min, v} added.
     */
    method RedirigerVoisin(ghost g0: Incidences, min: int, max: int, ghost P: set<int>, v: int)
      requires Valid() && IncidenceSymetrique(g0) && min in g0 && max in g0 && min != max
      requires mapAretes.Keys == g0.Keys && P + {v} <= Voisins(g0, max)
      requires EnsembleAretes(mapAretes) == AretesPendantFusion(g0, min, max, P)
      modifies this
      ensures Valid() && mapAretes.Keys == g0.Keys
      ensures EnsembleAretes(mapAretes) == AretesPendantFusion(g0, min, max, P + {v})
    {
      FusionEtape(g0, min, max, P, v);
      if v != min {
        VoisinsSymetriques(g0, max, v);
        ghost var avant := EnsembleAretes(mapAretes);
        SupprimerArete(Arete(max, v, None));
        ghost var milieu := EnsembleAretes(mapAretes);
        assert milieu == avant - {Canon(Arete(max, v, None))};
        AjouterArete(Arete(min, v, None));
        assert EnsembleAretes(mapAretes) == milieu + {Canon(Arete(min, v, None))};
        AjoutMembres(g0.Keys, min, v);
      }
    }
  }
}
