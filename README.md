# Aventuriers du Graphe — the railway multigraph, in Dafny

This project models the graph library of the game *Aventuriers du Rail*
(package `fr.umontpellier.iut.graphes`) and proves what it computes.

- **`Arete`** is an edge value. It holds two vertex ids and an optional route. Two edges are `equals` when their routes agree and their endpoints agree in either order.
- **`Graphe`** is an undirected multigraph kept as incidence lists: a map from each vertex id to the set of edges incident to it. Several edges may join the same two vertices, as long as their routes differ.

The Dafny modules follow the program's structure:

| module (file) | contents |
|---|---|
| `Wrappers` (`wrappers.dfy`) | `Option`, for the nullable route |
| `Ensembles` (`ensembles.dfy`) | small facts about finite sets and maps (picking a member, cardinality of a subset, map equality) |
| `Aretes` (`aretes.dfy`) | the record `Arete`: `equals`, `hashCode`, `incidenteA`, `getAutreSommet`, and the normal form `Canon` |
| `Incidence` (`incidence.dfy`) | the incidence lists as a value `map<int, set<Arete>>`, the documented symmetry invariant, the edge set, neighbourhoods, degrees, and one value-level function per mutator with its effect proved |
| `Connexite` (`connexite.dfy`) | walks, reachability, connected classes and their partition of the vertex set |
| `Classement` (`classement.dfy`) | what the classifiers decide (complete, chain, cycle), with the small graphs that pin those tests down |
| `Graphes` (`graphe.dfy`) | the class `Graphe`: the field `mapAretes`, its constructors, mutators, queries, depth-first searches and classifiers |

The class is imperative, like the Java code:
- `mapAretes` is a field that the mutators reassign;
- the loops over key sets and edge sets are `while` loops;
- the depth-first searches are recursive methods.

Each method's contract ties the new state, or its result, to a function of the `Incidence` or `Connexite` modules. Those functions' properties are proved there as lemmas.

Modelling decisions:
- **Edges are stored in normal form.** `Canon` puts the smaller endpoint first and keeps the route. Java's `HashSet<Arete>` compares edges with `equals`. Lemma `Aretes.EqualsSiCanon` proves that `equals` holds exactly when the normal forms are equal. So a set of normal forms behaves like Java's hash set: it has the same membership test and the same size. The only difference is which representative of an `equals` class is stored. No method of the graph reads a stored edge's endpoints in an order-dependent way: `getVoisins` and `getVoisinsAvecArete` take "the other endpoint".
- **Self-loops are excluded.** `Arete.java:8` tells callers they may assume `i != j`. So `ajouterArete` and the constructor from a collection require it. Under the invariant every stored edge has `i < j`.
- **Hash iteration order is an arbitrary choice.** Iterating over a hash set or key set becomes draining a set, picking any member with `:|`. This also covers `keySet().toArray()[0]`. Contracts state only facts that do not depend on the order.
- **The shared `dejaVu` collection** of each recursive search is passed in as a set and handed back as the result.
- **The route is opaque.** `Route` is a type with equality only, and `route.hashCode()` is a parameter of `HashCode`.
- **Integers are unbounded.** `Integer.MIN_VALUE` is kept as the constant `Graphes.MinValue`.

Where the code and its documentation comments disagree, the model follows the code:
- **`degreMax`** returns 0, not `Integer.MIN_VALUE`, for the empty graph. This contradicts the comment at `Graphe.java:230`; the code is at lines 239-240.
- **`getVoisins` and `degre`** dereference `mapAretes.get(v)`, so they fail on an absent vertex. This contradicts the comment at lines 178-179. The model requires the vertex to be present.
- **`estSimple`** only checks that each stored edge is incident to the vertex it is stored under, so under the invariant it is always true.
- **`estUneChaine` and `estUnCycle`** count degrees and test connectivity. They do not exclude parallel edges, although the comments at lines 275-277 and 308-311 say they should. Lemma `Classement.ParallelesCycle` shows that two parallel edges between two vertices pass the cycle test.
- **`estComplet`** looks only for route-less edges, because it builds `new Arete(i, j)`. Lemma `Classement.RouteNonComplete` shows that a single edge carrying a route is not complete.

## Model

Paths are relative to the repository root; `Arete.java` and `Graphe.java` are in `src/main/java/fr/umontpellier/iut/graphes/`.

| member | source | states |
|---|---|---|
| Aretes.AreteSansRoute | src/main/java/fr/umontpellier/iut/graphes/Arete.java:11-13 | the two-argument constructor gives an edge `equals` to the route-less edge in both endpoint orders, and `equals` to no edge carrying a route |
| Aretes.IncidenteA | src/main/java/fr/umontpellier/iut/graphes/Arete.java:15-17 | v is incident to a if and only if it belongs to the set of its two endpoints, whatever their order |
| Aretes.AutreSommet | src/main/java/fr/umontpellier/iut/graphes/Arete.java:19-21 | for an endpoint v, the result is an endpoint and together with v makes up the endpoint set; for any other v it is `i` |
| Aretes.Equals | src/main/java/fr/umontpellier/iut/graphes/Arete.java:33-50 | `equals` holds if and only if the routes are equal (both null, or equal) and the two endpoint sets are equal |
| Aretes.HashCode | src/main/java/fr/umontpellier/iut/graphes/Arete.java:24-31 | the hash code is `31 + 961 * (i + j)` plus the route's hash (0 for a null route): it depends on the endpoints only through their sum |
| Aretes.Canon | src/main/java/fr/umontpellier/iut/graphes/Arete.java:33-50 | the normal form has its smaller endpoint first, the same route and the same endpoint set, and is `equals` to the edge |
| Aretes.EqualsSiCanon | src/main/java/fr/umontpellier/iut/graphes/Arete.java:33-50 | `equals(a, b)` holds if and only if the normal forms of a and b are the same value |
| Aretes.EqualsEquivalence | src/main/java/fr/umontpellier/iut/graphes/Arete.java:33-50 | `equals` is reflexive, symmetric and transitive |
| Aretes.EqualsRenverse | src/main/java/fr/umontpellier/iut/graphes/Arete.java:47-48 | swapping the endpoints gives an equal edge |
| Aretes.AretesParalleles | src/main/java/fr/umontpellier/iut/graphes/Arete.java:42-46 | edges whose routes differ (a null route included) are never equal, whatever their endpoints: these are the parallel edges of the multigraph |
| Aretes.HashCodeCompatible | src/main/java/fr/umontpellier/iut/graphes/Arete.java:24-31 | equal edges have equal hash codes, and the hash code does not depend on the endpoint order |
| Aretes.IncidenteCompatible | src/main/java/fr/umontpellier/iut/graphes/Arete.java:15-21 | `incidenteA` gives the same answer on equal edges, and `getAutreSommet` does too for an endpoint v |
| Aretes.AutreSommetInvolution | src/main/java/fr/umontpellier/iut/graphes/Arete.java:19-21 | `getAutreSommet(i) == j` and `getAutreSommet(j) == i`, taking the other endpoint twice comes back, and any non-endpoint gives `i` |
| Incidence.MembreAretes | src/main/java/fr/umontpellier/iut/graphes/Graphe.java:19-24 | under the invariant, an edge of the graph is stored under both of its endpoints, in normal form |
| Incidence.IncidentesA | src/main/java/fr/umontpellier/iut/graphes/Graphe.java:19-24 | under the invariant, the set stored under v is exactly the set of edges incident to v |
| Incidence.ExtremitesSommets | src/main/java/fr/umontpellier/iut/graphes/Graphe.java:19-24 | under the invariant, both endpoints of every edge are vertices |
| Incidence.ExisteSiArete | src/main/java/fr/umontpellier/iut/graphes/Graphe.java:158-165 | the `existeArete` test holds if and only if the normal form of the edge is an edge of the graph |
| Incidence.ExisteSiEquals | src/main/java/fr/umontpellier/iut/graphes/Graphe.java:158-165 | the `existeArete` test holds if and only if a.i is a vertex whose set holds an edge `equals` to a, as `HashSet.contains` decides |
| Incidence.VoisinsCaracterises | src/main/java/fr/umontpellier/iut/graphes/Graphe.java:182-192 | w is a neighbour of v if and only if w differs from v and some edge of the graph joins v and w |
| Incidence.VoisinsSymetriques | src/main/java/fr/umontpellier/iut/graphes/Graphe.java:19-24 | neighbourhood is symmetric, and a neighbour is a vertex |
| Incidence.CardPaires | src/main/java/fr/umontpellier/iut/graphes/Graphe.java:102-108 | tagging each edge of a set with a vertex gives as many pairs as edges |
| Incidence.PairesAjout | src/main/java/fr/umontpellier/iut/graphes/Graphe.java:104-106 | one more vertex adds its degree to the running sum of `nbAretes` |
| Incidence.PairesParExtremite | src/main/java/fr/umontpellier/iut/graphes/Graphe.java:19-24 | the (vertex, incident edge) pairs are the edges tagged with their first endpoint plus the edges tagged with their second endpoint, and the two families are disjoint |
| Incidence.PoigneesDeMains | src/main/java/fr/umontpellier/iut/graphes/Graphe.java:102-108 | handshake lemma: under the invariant the degrees add up to twice the number of edges |
| Incidence.AvecSommetIdempotent | src/main/java/fr/umontpellier/iut/graphes/Graphe.java:120-124 | adding a vertex adds one vertex if it is new and none otherwise, and adding it twice is adding it once |
| Incidence.AvecSommetEffet | src/main/java/fr/umontpellier/iut/graphes/Graphe.java:120-124 | adding a vertex keeps the invariant, adds v to the vertex set and changes no edge |
| Incidence.AjoutBrutEffet | src/main/java/fr/umontpellier/iut/graphes/Graphe.java:136-137 | putting a new edge under both endpoints keeps the invariant and the vertex set, and adds the edge to the edge set |
| Incidence.AvecExtremitesEffet | src/main/java/fr/umontpellier/iut/graphes/Graphe.java:133-134 | adding both endpoints keeps the invariant, adds them to the vertex set and changes no edge |
| Incidence.AvecAreteEffet | src/main/java/fr/umontpellier/iut/graphes/Graphe.java:132-139 | `ajouterArete(a)` keeps the invariant, adds both endpoints and the edge, leaves `existeArete(a)` true, and adds one edge exactly when no equal edge was present |
| Incidence.SansAreteEffet | src/main/java/fr/umontpellier/iut/graphes/Graphe.java:147-152 | `supprimerArete(a)` keeps the invariant and the vertex set, removes exactly the edge equal to a, and leaves `existeArete(a)` false |
| Incidence.SansAreteCompte | src/main/java/fr/umontpellier/iut/graphes/Graphe.java:147-152 | `supprimerArete(a)` removes one edge exactly when a was present, and a second removal changes nothing |
| Incidence.SansSommetEffet | src/main/java/fr/umontpellier/iut/graphes/Graphe.java:214-221 | `supprimerSommet(v)` keeps the invariant, removes v from the vertex set, and removes exactly the edges incident to v |
| Incidence.SansSommetCompte | src/main/java/fr/umontpellier/iut/graphes/Graphe.java:214-221 | removing a vertex removes one vertex and as many edges as its degree |
| Incidence.ExtremitesAjout | src/main/java/fr/umontpellier/iut/graphes/Graphe.java:133-134 | the endpoints of a set of edges grow by the two endpoints of each edge added |
| Incidence.DepuisAretesEffet | src/main/java/fr/umontpellier/iut/graphes/Graphe.java:56-63 | the graph built from a set of normal-form edges satisfies the invariant, has exactly those edges, and has exactly their endpoints as vertices |
| Incidence.DetermineParAretes | src/main/java/fr/umontpellier/iut/graphes/Graphe.java:19-24 | under the invariant, the vertex set and the edge set determine the incidence lists |
| Incidence.DepuisAretesUnique | src/main/java/fr/umontpellier/iut/graphes/Graphe.java:56-63 | any valid incidence map with edge set E and vertices the endpoints of E is the graph built from E |
| Incidence.SousGrapheInduitEffet | src/main/java/fr/umontpellier/iut/graphes/Graphe.java:73-82 | the induced subgraph satisfies the invariant, and its edges are the edges with both ends in X. Its vertices are exactly the members of X touched by such an edge, so an isolated member of X is absent |
| Incidence.FusionEtape | src/main/java/fr/umontpellier/iut/graphes/Graphe.java:465-470 | one turn of the fusion loop for neighbour v: if v is not min, the edge {max, v} is replaced by {min, v}; if v is min, nothing changes |
| Incidence.AretesNullesAjout | src/main/java/fr/umontpellier/iut/graphes/Graphe.java:466-468 | one more neighbour v adds the route-less edge to v, unless v is min |
| Incidence.FusionFin | src/main/java/fr/umontpellier/iut/graphes/Graphe.java:471 | removing max after the loop leaves the edges of the fusion: those not incident to max, plus a route-less edge from min to each other neighbour of max |
| Incidence.VoisinParArete | src/main/java/fr/umontpellier/iut/graphes/Graphe.java:182-192 | an edge joining two different vertices makes each a neighbour of the other |
| Incidence.AreteDeVoisin | src/main/java/fr/umontpellier/iut/graphes/Graphe.java:182-192 | a neighbour is joined to the vertex by a stored edge incident to both |
| Incidence.FusionVoisinsInclus | src/main/java/fr/umontpellier/iut/graphes/Graphe.java:453-473 | every neighbour of min after the fusion was a neighbour of i or j, and is neither of them |
| Incidence.FusionVoisinsContient | src/main/java/fr/umontpellier/iut/graphes/Graphe.java:453-473 | every neighbour of i or j other than i and j is a neighbour of min after the fusion |
| Incidence.FusionVoisinage | src/main/java/fr/umontpellier/iut/graphes/Graphe.java:453-473 | after the fusion, min is a vertex and its neighbourhood is (N(i) ∪ N(j)) \ {i, j} |
| Incidence.CompletVoisins | src/main/java/fr/umontpellier/iut/graphes/Graphe.java:258-272 | in a complete graph, the neighbours of each vertex are all the other vertices |
| Connexite.AccessibleRefl | src/main/java/fr/umontpellier/iut/graphes/Graphe.java:411-413 | every vertex reaches itself, so it belongs to its own class |
| Connexite.AccessibleSommets | src/main/java/fr/umontpellier/iut/graphes/Graphe.java:407-425 | reachability only relates vertices |
| Connexite.AccessibleEtape | src/main/java/fr/umontpellier/iut/graphes/Graphe.java:418-421 | a walk to x followed by a neighbour of x is a walk |
| Connexite.AccessibleTrans | src/main/java/fr/umontpellier/iut/graphes/Graphe.java:407-425 | reachability is transitive |
| Connexite.AccessibleSym | src/main/java/fr/umontpellier/iut/graphes/Graphe.java:19-24 | under the invariant, reachability is symmetric |
| Connexite.AccessiblesParVoisin | src/main/java/fr/umontpellier/iut/graphes/Graphe.java:418-421 | what a neighbour reaches, the vertex reaches too |
| Connexite.FermeContient | src/main/java/fr/umontpellier/iut/graphes/Graphe.java:414-416 | a walk starting in a set closed under neighbourhood stays in it |
| Connexite.ClasseFermee | src/main/java/fr/umontpellier/iut/graphes/Graphe.java:407-425 | the class of a vertex holds the vertex and is closed under neighbourhood |
| Connexite.ClasseExacte | src/main/java/fr/umontpellier/iut/graphes/Graphe.java:407-425 | a closed set that holds v and is reachable from v is the class of v |
| Connexite.ClasseEquiv | src/main/java/fr/umontpellier/iut/graphes/Graphe.java:427-437 | two vertices of one class have the same class |
| Connexite.ClassesIncluses | src/main/java/fr/umontpellier/iut/graphes/Graphe.java:427-437 | every class is a non-empty set of vertices |
| Connexite.ClassesPartition | src/main/java/fr/umontpellier/iut/graphes/Graphe.java:427-437 | the classes are non-empty, cover the vertex set, and are pairwise disjoint |
| Connexite.CheminInduit | src/main/java/fr/umontpellier/iut/graphes/Graphe.java:73-82 | a walk that stays inside X and starts at a vertex of the subgraph induced by X is a walk of that subgraph |
| Connexite.InduitClasseConnexe | src/main/java/fr/umontpellier/iut/graphes/Graphe.java:73-82 | the subgraph induced by the class of a vertex is connected |
| Connexite.ClassesInduitesConnexes | src/main/java/fr/umontpellier/iut/graphes/Graphe.java:397-405 | under the invariant, every class induces a connected subgraph |
| Connexite.PetiteClasseInduite | src/main/java/fr/umontpellier/iut/graphes/Graphe.java:397-405 | a class of at most two vertices induces a connected subgraph of at most two vertices |
| Connexite.ConnexeDepuis | src/main/java/fr/umontpellier/iut/graphes/Graphe.java:323-353 | a graph in which one vertex reaches every vertex is connected |
| Connexite.NonConnexeSiFerme | src/main/java/fr/umontpellier/iut/graphes/Graphe.java:340-342 | a closed set that holds a vertex but not all vertices shows that the graph is not connected |
| Connexite.PetitConnexe | src/main/java/fr/umontpellier/iut/graphes/Graphe.java:323-330 | a graph with fewer than two vertices is connected |
| Connexite.ConnexeUneClasse | src/main/java/fr/umontpellier/iut/graphes/Graphe.java:427-437 | a non-empty connected graph has a single class, its vertex set |
| Connexite.UneSeuleClasse | src/main/java/fr/umontpellier/iut/graphes/Graphe.java:427-437 | when every vertex has the same class K, the only class is K |
| Connexite.ClasseToutes | src/main/java/fr/umontpellier/iut/graphes/Graphe.java:323-353 | in a connected graph the class of any vertex is the whole vertex set |
| Connexite.ClassesDeEtape | src/main/java/fr/umontpellier/iut/graphes/Graphe.java:431-435 | removing the class of a remaining vertex adds exactly that class to the classes found, and leaves fewer vertices |
| Classement.CycleDegres | src/main/java/fr/umontpellier/iut/graphes/Graphe.java:314-321 | counting as many degree-2 vertices as vertices is the same as every vertex having degree 2 |
| Classement.UneArete | src/main/java/fr/umontpellier/iut/graphes/Graphe.java:56-63 | the graph of one normal-form edge satisfies the invariant, has its two endpoints as vertices and the edge as only edge |
| Classement.UneAreteConnexe | src/main/java/fr/umontpellier/iut/graphes/Graphe.java:323-353 | a graph made of a single edge is connected |
| Classement.PetitsGraphes | src/test/java/fr/umontpellier/iut/graphes/GrapheTest.java:157-192 | the empty graph is a chain and a cycle; `Graphe(1)` is a chain and not a cycle; `Graphe(2)` is not a chain |
| Classement.UneAreteChaine | src/test/java/fr/umontpellier/iut/graphes/GrapheTest.java:149-155 | the graph of any single route-less edge {i, j} (i < j) is a chain and is complete |
| Classement.RouteNonComplete | src/main/java/fr/umontpellier/iut/graphes/Graphe.java:262-272 | the graph of any single edge {i, j} (i < j) carrying a route is not complete, because only route-less edges are looked for |
| Classement.ParallelesCycle | src/main/java/fr/umontpellier/iut/graphes/Graphe.java:305-321 | two parallel edges between two vertices pass the cycle test, contrary to the comment at line 311 |
| Graphes.CanonDeAjout | src/main/java/fr/umontpellier/iut/graphes/Graphe.java:58-62 | one more edge of the collection adds its normal form |
| Graphes.InduitEtape | src/main/java/fr/umontpellier/iut/graphes/Graphe.java:76-80 | one turn of the induced-subgraph loop adds edge a and its endpoints when both ends are in X, and nothing otherwise |
| Graphes.Graphe.constructor | src/main/java/fr/umontpellier/iut/graphes/Graphe.java:30-35 | `Graphe(n)` has the vertices 0..n-1 and no edge |
| Graphes.Graphe.Vide | src/main/java/fr/umontpellier/iut/graphes/Graphe.java:40-42 | the empty graph |
| Graphes.Graphe.Copie | src/main/java/fr/umontpellier/iut/graphes/Graphe.java:44-49 | the copy has the same incidence lists |
| Graphes.Graphe.DepuisAretes | src/main/java/fr/umontpellier/iut/graphes/Graphe.java:56-63 | the edges are the normal forms of the collection, each counted once, and the vertices are their endpoints; the result is the graph built from that edge set |
| Graphes.Graphe.Induit | src/main/java/fr/umontpellier/iut/graphes/Graphe.java:73-82 | the result is the induced subgraph of `graphe` on X (X a subset of its vertices) |
| Graphes.Graphe.ContientSommet | src/main/java/fr/umontpellier/iut/graphes/Graphe.java:111-113 | under the invariant, every endpoint of an edge is a vertex |
| Graphes.Graphe.EnsembleSommets | src/main/java/fr/umontpellier/iut/graphes/Graphe.java:87-89 | its members are exactly the vertices, and under the invariant it holds both endpoints of every edge |
| Graphes.Graphe.NbSommets | src/main/java/fr/umontpellier/iut/graphes/Graphe.java:94-96 | the number of members of the vertex set, positive as soon as some vertex is present |
| Graphes.Graphe.ExisteArete | src/main/java/fr/umontpellier/iut/graphes/Graphe.java:158-165 | true if and only if a.i is a vertex whose set holds an edge `equals` to a, that is, the normal form of a is an edge |
| Graphes.Graphe.AjouterSommet | src/main/java/fr/umontpellier/iut/graphes/Graphe.java:120-124 | keeps the invariant, adds v to the vertex set, and changes no edge |
| Graphes.Graphe.AjouterArete | src/main/java/fr/umontpellier/iut/graphes/Graphe.java:132-139 | keeps the invariant, adds both endpoints and the edge, and leaves `existeArete(a)` true |
| Graphes.Graphe.SupprimerArete | src/main/java/fr/umontpellier/iut/graphes/Graphe.java:147-152 | keeps the invariant and the vertex set, removes the edge equal to a, and leaves `existeArete(a)` false |
| Graphes.Graphe.SupprimerSommet | src/main/java/fr/umontpellier/iut/graphes/Graphe.java:214-221 | keeps the invariant, removes v, and removes exactly the edges incident to v |
| Graphes.Graphe.Degre | src/main/java/fr/umontpellier/iut/graphes/Graphe.java:223-226 | the degree is the number of edges of the graph incident to v |
| Graphes.Graphe.NbAretes | src/main/java/fr/umontpellier/iut/graphes/Graphe.java:102-108 | half the sum of the degrees is the number of edges, parallel edges included |
| Graphes.Graphe.DegreMax | src/main/java/fr/umontpellier/iut/graphes/Graphe.java:232-245 | 0 for the empty graph; otherwise a degree that some vertex has and that no vertex exceeds |
| Graphes.Graphe.NbSommetDeDegre | src/main/java/fr/umontpellier/iut/graphes/Graphe.java:296-304 | the number of vertices of degree n |
| Graphes.Graphe.GetVoisins | src/main/java/fr/umontpellier/iut/graphes/Graphe.java:182-192 | exactly the vertices other than v joined to v by an edge |
| Graphes.Graphe.GetVoisinsAvecArete | src/main/java/fr/umontpellier/iut/graphes/Graphe.java:194-204 | the keys are the neighbours of v, and each is mapped to a stored edge at v whose other endpoint it is |
| Graphes.Graphe.SontAdjacents | src/main/java/fr/umontpellier/iut/graphes/Graphe.java:448-451 | true if and only if j is a neighbour of i, that is, some edge joins i to a different j; then i is also a neighbour of j |
| Graphes.Graphe.ClasseDFS | src/main/java/fr/umontpellier/iut/graphes/Graphe.java:411-425 | the returned set grows the marked set by `courant` and vertices reachable from it, and the newly marked vertices are closed under neighbourhood |
| Graphes.Graphe.GetClasseConnexite | src/main/java/fr/umontpellier/iut/graphes/Graphe.java:407-409 | exactly the set of vertices reachable from v |
| Graphes.Graphe.EstConnexeDFS | src/main/java/fr/umontpellier/iut/graphes/Graphe.java:333-353 | true if and only if the marked vertices cover the graph. On false the newly marked vertices are closed under neighbourhood, and all of them are reachable from `courant` |
| Graphes.Graphe.EstConnexe | src/main/java/fr/umontpellier/iut/graphes/Graphe.java:323-331 | true if and only if every vertex reaches every vertex (always for fewer than two vertices) |
| Graphes.Graphe.GetEnsembleClassesConnexite | src/main/java/fr/umontpellier/iut/graphes/Graphe.java:427-437 | exactly the set of connected classes, which partition the vertex set |
| Graphes.Graphe.EstUnIsthme | src/main/java/fr/umontpellier/iut/graphes/Graphe.java:442-446 | true if and only if a.j is not reachable from a.i once a is removed; the graph itself is not modified |
| Graphes.Graphe.EstSimple | src/main/java/fr/umontpellier/iut/graphes/Graphe.java:247-256 | true if and only if every stored edge is incident to the vertex it is stored under, hence always true under the invariant |
| Graphes.Graphe.EstComplet | src/main/java/fr/umontpellier/iut/graphes/Graphe.java:262-272 | true if and only if every two different vertices are joined by an edge equal to the route-less edge between them |
| Graphes.Graphe.EstUneChaine | src/main/java/fr/umontpellier/iut/graphes/Graphe.java:279-294 | true if and only if no degree exceeds 2, there are exactly two vertices of degree 1 once there are two vertices, and the graph is connected |
| Graphes.Graphe.EstUnCycle | src/main/java/fr/umontpellier/iut/graphes/Graphe.java:314-321 | true if and only if every vertex has degree 2 and the graph is connected |
| Graphes.Graphe.EstAcycliqueDFS | src/main/java/fr/umontpellier/iut/graphes/Graphe.java:368-391 | the scratch graph keeps the invariant and its vertices and loses edges only; the marked set grows by `courant`; a vertex already marked gives false |
| Graphes.Graphe.EstAcyclique | src/main/java/fr/umontpellier/iut/graphes/Graphe.java:355-366 | true when no connected class has more than two vertices |
| Graphes.Graphe.EstUnArbre | src/main/java/fr/umontpellier/iut/graphes/Graphe.java:393-395 | true only for a connected graph, and true for every connected graph of at most two vertices |
| Graphes.Graphe.EstUneForet | src/main/java/fr/umontpellier/iut/graphes/Graphe.java:397-405 | true when no connected class has more than two vertices (each such class induces a connected subgraph of at most two vertices, which passes `estUnArbre`), and true for every graph without edges |
| Graphes.Graphe.SontIsomorphes | src/main/java/fr/umontpellier/iut/graphes/Graphe.java:540-542 | true if and only if the two graphs have the same number of edges and the same vertex set |
| Graphes.Graphe.FusionnerSommets | src/main/java/fr/umontpellier/iut/graphes/Graphe.java:460-473 | if a vertex is absent nothing changes. Otherwise max(i, j) disappears and the vertex count drops by one. min(i, j) stays, and its neighbourhood becomes (N(i) ∪ N(j)) \ {i, j}. The edges are those of the fusion: max's edges are dropped, and each other neighbour of max gets a route-less edge to min |
| Graphes.Graphe.RedirigerVoisin | src/main/java/fr/umontpellier/iut/graphes/Graphe.java:465-470 | one turn of the fusion loop keeps the invariant and the vertex set and advances the edge set by one neighbour |

## Left out

- `sequenceEstGraphe` and `ordonnerSequence` (`Graphe.java:479-534`) are not modelled. The method discards its recursive result and then returns true. It can recurse forever once entries go negative, sorts its caller's list in place, and prints to standard output. So no correctness or termination argument applies.
- `algoDikstra` and `parcoursSansRepetition` (`Graphe.java:553-566`) only throw "not implemented".
- `toString` (`Graphe.java:167-174`) is string formatting that depends on `HashSet.toString`.
- The internals of `Route` (length, colour, kind) are not read by the graph code. `Route` is an opaque type with equality, and its hash code is a parameter.
- Hash iteration order is not modelled. Nor is which parallel edge `getVoisinsAvecArete` keeps, or which key `toArray()[0]` yields: each is an arbitrary choice.
- `Aretes.HashCode`: Java's 32-bit wrap-around in `hashCode` is not modelled. The model computes over unbounded integers, which does not affect equality of hash codes for equal edges.
- Graphes.Graphe.AjouterArete: self-loops are excluded by a precondition. This follows the assumption `i != j` stated for all edges at `Arete.java:8`.
- Graphes.Graphe.DepuisAretes: the collection must hold no self-loop, for the same reason.
- Graphes.Graphe.Degre and Graphes.Graphe.GetVoisins require the vertex to be present, because the source dereferences its set unconditionally. The same holds for GetVoisinsAvecArete, SontAdjacents, GetClasseConnexite and EstUnIsthme (at a.i).
- Graphes.Graphe.FusionnerSommets requires `i != j`: with `i == j` the source deletes the vertex.
- Graphes.Graphe.EstAcyclique is weaker than an acyclicity test, on purpose. The code searches, for every large class, a copy of the whole graph from the graph's first vertex rather than from the class. It also removes only route-less edges while going down. So it is not a correct acyclicity test, and only the case of classes of at most two vertices is stated.
- Graphes.Graphe.EstUnArbre states only that the result implies connectivity, and that small connected graphs pass. It follows EstAcyclique, for the same reason.
- Graphes.Graphe.EstUneForet states only that graphs whose classes have at most two vertices pass, and that edgeless graphs pass. It follows EstAcyclique, for the same reason.
- Graphes.Graphe.EstAcycliqueDFS does not characterise its result beyond a vertex met twice, for the same reason.
- Graphes.Graphe.GetVoisinsAvecArete returns the stored normal form of each edge, say `Arete(3, 5, r)`, where the source may return the `Arete(5, 3, r)` it was given; the two are `equals`.
- Graphes.Graphe.EnsembleSommets returns the vertex set as a value, while the source returns a live view of the map's keys that later changes show through.
- Graphes.Graphe.NbSommets does not state the converse, that a graph with no vertex has order 0.
- Update in place of the Java hash sets is modelled by reassigning the whole set under a key. Aliasing between the sets of a graph and of its copy does not arise: the copy builds fresh sets.
