/**
 * Edges of the railway multigraph: two vertex ids and an optional route.
 * The route is part of the edge's identity, so two edges between the same
 * vertices are different edges as soon as their routes differ.
 */
module Aretes {
  import opened Wrappers

  /** A route of the board. Only its equality is used by the graph code. */
  type Route(==, !new)

  /** An edge {i, j}; `route == None` is Java's null route. */
  datatype Arete = Arete(i: int, j: int, route: Option<Route>)

  /** The two-argument constructor: an edge without a route. */
  function AreteSansRoute(i: int, j: int): (a: Arete)
    ensures Equals(a, Arete(i, j, None)) && Equals(a, Arete(j, i, None))
    ensures forall r: Route :: !Equals(a, Arete(i, j, Some(r)))
  {
    Arete(i, j, None)
  }

  /** True when v is one of the two endpoints of a. */
  predicate IncidenteA(a: Arete, v: int)
    ensures IncidenteA(a, v) <==> v in {a.i, a.j}
  {
    a.i == v || a.j == v
  }

  /** The endpoint of a that is not v; `a.i` for any v that is not `a.i`. */
  function AutreSommet(a: Arete, v: int): (w: int)
    ensures IncidenteA(a, v) ==> IncidenteA(a, w) && {v, w} == {a.i, a.j}
    ensures !IncidenteA(a, v) ==> w == a.i
  {
    if v == a.i then a.j else a.i
  }

  /**
   * Java's `equals`: same route (both absent, or equal), and the same
   * endpoints in either order.
   */
  predicate Equals(a: Arete, b: Arete)
    ensures Equals(a, b) <==> a.route == b.route && {a.i, a.j} == {b.i, b.j}
  {
    (match a.route
     case None => b.route == None
     case Some(r) => b.route == Some(r))
    && ((a.i == b.i && a.j == b.j) || (a.j == b.i && a.i == b.j))
  }

  /**
   * Java's `hashCode`, over unbounded integers. The route's own hash code
   * is given by the caller. The endpoints only count through their sum.
   */
  function HashCode(a: Arete, hashRoute: Route -> int): (h: int)
    ensures h == 31 + 961 * (a.i + a.j) + (if a.route.Some? then hashRoute(a.route.value) else 0)
  {
    var prime := 31;
    var result := 1 + prime * a.i + prime * a.j;
    prime * result + (match a.route case None => 0 case Some(r) => hashRoute(r))
  }

  /** The normal form of an edge: smaller endpoint first, same route. */
  function Canon(a: Arete): (c: Arete)
    ensures c.i <= c.j && c.route == a.route
    ensures {c.i, c.j} == {a.i, a.j}
    ensures Equals(c, a)
  {
    if a.i <= a.j then a else Arete(a.j, a.i, a.route)
  }

  /** `equals` holds exactly when the two normal forms are the same value. */
  lemma EqualsSiCanon(a: Arete, b: Arete)
    ensures Equals(a, b) <==> Canon(a) == Canon(b)
  {
  }

  /** Hence `equals` is an equivalence relation. */
  lemma EqualsEquivalence(a: Arete, b: Arete, c: Arete)
    ensures Equals(a, a)
    ensures Equals(a, b) ==> Equals(b, a)
    ensures Equals(a, b) && Equals(b, c) ==> Equals(a, c)
  {
    EqualsSiCanon(a, b);
    EqualsSiCanon(b, c);
    EqualsSiCanon(a, c);
  }

  /** The order of the endpoints does not matter. */
  lemma EqualsRenverse(i: int, j: int, r: Option<Route>)
    ensures Equals(Arete(i, j, r), Arete(j, i, r))
  {
  }

  /**
   * Edges whose routes differ are different, whatever their endpoints
   * (a null route differs from every route): these are parallel edges.
   */
  lemma AretesParalleles(a: Arete, b: Arete)
    requires a.route != b.route
    ensures !Equals(a, b)
  {
  }

  /** Equal edges have equal hash codes, and the hash ignores endpoint order. */
  lemma HashCodeCompatible(a: Arete, b: Arete, hashRoute: Route -> int)
    ensures Equals(a, b) ==> HashCode(a, hashRoute) == HashCode(b, hashRoute)
    ensures HashCode(Arete(a.i, a.j, a.route), hashRoute) == HashCode(Arete(a.j, a.i, a.route), hashRoute)
  {
  }

  /** Incidence only depends on the edge's class under `equals`. */
  lemma IncidenteCompatible(a: Arete, b: Arete, v: int)
    requires Equals(a, b)
    ensures IncidenteA(a, v) <==> IncidenteA(b, v)
    ensures IncidenteA(a, v) ==> AutreSommet(a, v) == AutreSommet(b, v)
  {
  }

  /**
   * The other endpoint of an endpoint is an endpoint, and taking the other
   * endpoint twice comes back; an argument that is not an endpoint gives i.
   */
  lemma AutreSommetInvolution(a: Arete, v: int)
    ensures IncidenteA(a, v) ==> IncidenteA(a, AutreSommet(a, v))
    ensures IncidenteA(a, v) ==> AutreSommet(a, AutreSommet(a, v)) == v
    ensures AutreSommet(a, a.i) == a.j && AutreSommet(a, a.j) == a.i
    ensures !IncidenteA(a, v) ==> AutreSommet(a, v) == a.i
  {
  }
}
