/**
 * The directed acyclic graph the sorter builds: jgrapht's
 * `DirectedAcyclicGraph` as it behaves for this program. Loops and parallel
 * edges are refused; an edge that would close a cycle is rejected with an
 * `IllegalArgumentException`; adding an edge that is already present changes
 * nothing.
 */
module Dag {

  /** `path` is a walk along `edges`; a single vertex is a walk of length 0. */
  ghost predicate IsPath<V(!new)>(edges: set<(V, V)>, path: seq<V>) {
    |path| >= 1 && forall i :: 0 <= i < |path| - 1 ==> (path[i], path[i + 1]) in edges
  }

  /** `b` can be reached from `a`, possibly in zero steps. */
  ghost predicate Reaches<V(!new)>(edges: set<(V, V)>, a: V, b: V) {
    exists path :: IsPath(edges, path) && path[0] == a && path[|path| - 1] == b
  }

  /** No edge can be walked back from its target to its source; self-loops included. */
  ghost predicate Acyclic<V(!new)>(edges: set<(V, V)>) {
    forall e :: e in edges ==> !Reaches(edges, e.1, e.0)
  }

  /** Every vertex that is the end of some edge. */
  function EdgeEnds<V(!new)>(edges: set<(V, V)>): set<V> {
    (set e | e in edges :: e.0) + (set e | e in edges :: e.1)
  }

  /** A set that every edge leaving it leads back into. */
  ghost predicate Closed<V(!new)>(edges: set<(V, V)>, s: set<V>) {
    forall e :: e in edges && e.0 in s ==> e.1 in s
  }

  lemma ReachesSelf<V(!new)>(edges: set<(V, V)>, a: V)
    ensures Reaches(edges, a, a)
  {
    assert IsPath(edges, [a]);
  }

  /** A walk followed by one more edge. */
  lemma ReachesStep<V(!new)>(edges: set<(V, V)>, a: V, b: V, c: V)
    requires Reaches(edges, a, b) && (b, c) in edges
    ensures Reaches(edges, a, c)
  {
    var path :| IsPath(edges, path) && path[0] == a && path[|path| - 1] == b;
    assert IsPath(edges, path + [c]);
  }

  /** Reachability is transitive. */
  lemma ReachesTrans<V(!new)>(edges: set<(V, V)>, a: V, b: V, c: V)
    requires Reaches(edges, a, b) && Reaches(edges, b, c)
    ensures Reaches(edges, a, c)
  {
    var p :| IsPath(edges, p) && p[0] == a && p[|p| - 1] == b;
    var q :| IsPath(edges, q) && q[0] == b && q[|q| - 1] == c;
    var pq := p + q[1..];
    forall i | 0 <= i < |pq| - 1
      ensures (pq[i], pq[i + 1]) in edges
    {
      if i < |p| - 1 {
        assert pq[i] == p[i] && pq[i + 1] == p[i + 1];
      } else {
        var k := i - |p| + 1;
        assert pq[i] == q[k] && pq[i + 1] == q[k + 1];
      }
    }
    assert IsPath(edges, pq);
  }

  /** Reachability only grows when edges are added. */
  lemma ReachesMonotone<V(!new)>(edges: set<(V, V)>, more: set<(V, V)>, a: V, b: V)
    requires edges <= more && Reaches(edges, a, b)
    ensures Reaches(more, a, b)
  {
    var path :| IsPath(edges, path) && path[0] == a && path[|path| - 1] == b;
    assert IsPath(more, path);
  }

  /** A closed set holds every vertex reachable from inside it. */
  lemma {:induction false} ClosedHoldsWalks<V(!new)>(edges: set<(V, V)>, s: set<V>, path: seq<V>)
    requires Closed(edges, s) && IsPath(edges, path) && path[0] in s
    ensures path[|path| - 1] in s
  {
    if |path| > 1 {
      var prefix := path[..|path| - 1];
      assert IsPath(edges, prefix);
      ClosedHoldsWalks(edges, s, prefix);
      assert (path[|path| - 2], path[|path| - 1]) in edges;
    }
  }

  lemma ClosedHoldsReachable<V(!new)>(edges: set<(V, V)>, s: set<V>, a: V, b: V)
    requires Closed(edges, s) && a in s && Reaches(edges, a, b)
    ensures b in s
  {
    var path :| IsPath(edges, path) && path[0] == a && path[|path| - 1] == b;
    ClosedHoldsWalks(edges, s, path);
  }

  /** A walk in `edges + {(s, t)}` either stays in `edges` or uses the new edge once: a ⇝ s → t ⇝ b. */
  lemma {:induction false} WalkAfterAdd<V(!new)>(edges: set<(V, V)>, s: V, t: V, path: seq<V>)
    requires IsPath(edges + {(s, t)}, path)
    ensures Reaches(edges, path[0], path[|path| - 1]) ||
      (Reaches(edges, path[0], s) && Reaches(edges, t, path[|path| - 1]))
  {
    if |path| == 1 {
      ReachesSelf(edges, path[0]);
    } else {
      var prefix := path[..|path| - 1];
      var y, z := path[|path| - 2], path[|path| - 1];
      assert IsPath(edges + {(s, t)}, prefix);
      WalkAfterAdd(edges, s, t, prefix);
      assert (y, z) in edges + {(s, t)};
      if (y, z) in edges {
        if Reaches(edges, path[0], y) {
          ReachesStep(edges, path[0], y, z);
        } else {
          ReachesStep(edges, t, y, z);
        }
      } else {
        assert y == s && z == t;
        if Reaches(edges, path[0], y) {
          ReachesSelf(edges, t);
        }
      }
    }
  }

  lemma ReachesAfterAdd<V(!new)>(edges: set<(V, V)>, s: V, t: V, a: V, b: V)
    requires Reaches(edges + {(s, t)}, a, b)
    ensures Reaches(edges, a, b) || (Reaches(edges, a, s) && Reaches(edges, t, b))
  {
    var path :| IsPath(edges + {(s, t)}, path) && path[0] == a && path[|path| - 1] == b;
    WalkAfterAdd(edges, s, t, path);
  }

  /** Adding an edge keeps the graph acyclic exactly when its source cannot be reached from its target. */
  lemma AddKeepsAcyclic<V(!new)>(edges: set<(V, V)>, s: V, t: V)
    requires Acyclic(edges)
    ensures Acyclic(edges + {(s, t)}) <==> !Reaches(edges, t, s)
  {
    var more := edges + {(s, t)};
    if !Reaches(edges, t, s) {
      forall e | e in more
        ensures !Reaches(more, e.1, e.0)
      {
        if Reaches(more, e.1, e.0) {
          ReachesAfterAdd(edges, s, t, e.1, e.0);
          if e != (s, t) && !Reaches(edges, e.1, e.0) {
            ReachesStep(edges, t, e.0, e.1);
            ReachesTrans(edges, t, e.1, s);
          }
        }
      }
    } else {
      ReachesMonotone(edges, more, t, s);
    }
  }

  /** When every edge goes forward in some numbering, so does every walk. */
  lemma {:induction false} ForwardWalk<V(!new)>(edges: set<(V, V)>, index: map<V, int>, path: seq<V>)
    requires forall e :: e in edges ==> e.0 in index && e.1 in index && index[e.0] < index[e.1]
    requires IsPath(edges, path) && |path| > 1
    ensures path[0] in index && path[|path| - 1] in index && index[path[0]] < index[path[|path| - 1]]
  {
    assert (path[0], path[1]) in edges;
    if |path| > 2 {
      var prefix := path[..|path| - 1];
      assert IsPath(edges, prefix);
      ForwardWalk(edges, index, prefix);
      assert (path[|path| - 2], path[|path| - 1]) in edges;
    }
  }

  /** A graph whose edges all go forward in some numbering is acyclic. */
  lemma ForwardIsAcyclic<V(!new)>(edges: set<(V, V)>, index: map<V, int>)
    requires forall e :: e in edges ==> e.0 in index && e.1 in index && index[e.0] < index[e.1]
    ensures Acyclic(edges)
  {
    forall e | e in edges
      ensures !Reaches(edges, e.1, e.0)
    {
      if Reaches(edges, e.1, e.0) {
        var path :| IsPath(edges, path) && path[0] == e.1 && path[|path| - 1] == e.0;
        if |path| > 1 {
          ForwardWalk(edges, index, path);
        }
      }
    }
  }

  /**
   * The vertices in `s` from which `v` can be reached inside the graph. An
   * acyclic graph has strictly fewer of them above a predecessor of `v`.
   */
  ghost function Ancestors<V(!new)>(edges: set<(V, V)>, s: set<V>, v: V): set<V> {
    set u | u in s && Reaches(edges, u, v)
  }

  lemma {:induction false} SourceAbove<V(!new)>(edges: set<(V, V)>, s: set<V>, v: V)
    requires Acyclic(edges) && v in s
    ensures exists w :: w in s && forall u :: u in s ==> (u, w) !in edges
    decreases |Ancestors(edges, s, v)|
  {
    if exists u :: u in s && (u, v) in edges {
      var u :| u in s && (u, v) in edges;
      forall x | x in Ancestors(edges, s, u)
        ensures x in Ancestors(edges, s, v)
      {
        ReachesStep(edges, x, u, v);
      }
      ReachesSelf(edges, v);
      assert v in Ancestors(edges, s, v);
      assert v !in Ancestors(edges, s, u);
      var above, here := Ancestors(edges, s, u), Ancestors(edges, s, v);
      assert here == above + (here - above) && v in here - above;
      assert |here| == |above| + |here - above|;
      SourceAbove(edges, s, u);
    }
  }

  /** Every non-empty set of vertices of an acyclic graph has a member with no predecessor in the set. */
  lemma SourceExists<V(!new)>(edges: set<(V, V)>, s: set<V>)
    requires Acyclic(edges) && s != {}
    ensures exists w :: w in s && forall u :: u in s ==> (u, w) !in edges
  {
    var v :| v in s;
    SourceAbove(edges, s, v);
  }

  /**
   * The set of vertices reachable from `start`, found by a breadth-first
   * search. The graph uses it to decide whether an edge would close a cycle.
   */
  method ReachableFrom<V(==, !new)>(edges: set<(V, V)>, start: V) returns (seen: set<V>)
    ensures forall v :: v in seen <==> Reaches(edges, start, v)
  {
    seen := {start};
    var todo := {start};
    ReachesSelf(edges, start);
    while todo != {}
      invariant todo <= seen && start in seen
      invariant seen <= EdgeEnds(edges) + {start}
      invariant forall v :: v in seen ==> Reaches(edges, start, v)
      invariant forall e :: e in edges && e.0 in seen - todo ==> e.1 in seen
      decreases |EdgeEnds(edges) + {start} - seen|, |todo|
    {
      var v :| v in todo;
      var next := set e | e in edges && e.0 == v :: e.1;
      forall w | w in next
        ensures Reaches(edges, start, w)
      {
        ReachesStep(edges, start, v, w);
      }
      var unseen := next - seen;
      if unseen != {} {
        var w :| w in unseen;
        assert w !in seen && w in EdgeEnds(edges) + {start} - seen;
        assert EdgeEnds(edges) + {start} - (seen + unseen) < EdgeEnds(edges) + {start} - seen;
      }
      todo := todo - {v} + unseen;
      seen := seen + unseen;
    }
    forall v | Reaches(edges, start, v)
      ensures v in seen
    {
      ClosedHoldsReachable(edges, seen, start, v);
    }
  }

  /** What `addEdge` did. */
  datatype AddOutcome =
    | Added
    /** The edge was already there: jgrapht returns null and changes nothing. */
    | AlreadyPresent
    /** The edge is a loop or would close a cycle: jgrapht throws `IllegalArgumentException`. */
    | WouldCycle

  class DirectedAcyclicGraph<V(==, !new)> {
    var vertices: set<V>
    var edges: set<(V, V)>

    ghost predicate Valid()
      reads this
    {
      && (forall e :: e in edges ==> e.0 in vertices && e.1 in vertices)
      && Acyclic(edges)
    }

    /** An empty graph that refuses loops and parallel edges. */
    constructor ()
      ensures Valid() && vertices == {} && edges == {}
    {
      vertices := {};
      edges := {};
    }

    /** `addVertex`: adding a vertex that is already present changes nothing. */
    method AddVertex(v: V)
      requires Valid()
      modifies this
      ensures Valid()
      ensures vertices == old(vertices) + {v} && edges == old(edges)
    {
      vertices := vertices + {v};
    }

    /**
     * `addEdge(source, target)` between two vertices of the graph. It fails,
     * leaving the graph as it was, when the source can be reached from the
     * target (which includes `source == target`); otherwise the edge set
     * afterwards holds the edge, whether or not it was there before.
     */
    method AddEdge(source: V, target: V) returns (outcome: AddOutcome)
      requires Valid() && source in vertices && target in vertices
      modifies this
      ensures Valid() && vertices == old(vertices)
      ensures outcome == WouldCycle <==> Reaches(old(edges), target, source)
      ensures outcome == AlreadyPresent <==> (source, target) in old(edges)
      ensures outcome == WouldCycle ==> edges == old(edges)
      ensures outcome != WouldCycle ==> edges == old(edges) + {(source, target)}
    {
      if (source, target) in edges {
        return AlreadyPresent;
      }
      var reachable := ReachableFrom(edges, target);
      if source in reachable {
        return WouldCycle;
      }
      AddKeepsAcyclic(edges, source, target);
      edges := edges + {(source, target)};
      outcome := Added;
    }
  }
}
