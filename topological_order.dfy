/**
 * jgrapht's `TopologicalOrderIterator` with a comparator, as it behaves:
 * Kahn's algorithm that, among the vertices none of whose predecessors is
 * left, always emits the one the comparator ranks lowest.
 */
module TopologicalOrder {
  import opened Wrappers
  import opened Dag

  /** A comparator key, compared lexicographically: the smaller key is emitted first. */
  type Rank = (int, int)

  predicate RankLess(a: Rank, b: Rank) {
    a.0 < b.0 || (a.0 == b.0 && a.1 < b.1)
  }

  /** `v` is left and no vertex that is left has an edge into it. */
  predicate Ready<V(==, !new)>(edges: set<(V, V)>, remaining: set<V>, v: V) {
    v in remaining && forall u :: u in remaining ==> (u, v) !in edges
  }

  function Elements<V(==, !new)>(s: seq<V>): set<V> {
    set x | x in s
  }

  /**
   * The ready vertex of lowest rank among `candidates`; of two with the same
   * rank, the earlier one.
   */
  function MinReady<V(==, !new)>(edges: set<(V, V)>, remaining: set<V>, candidates: seq<V>, rank: V -> Rank): (r: Option<V>)
    ensures r.Some? ==> r.value in candidates && Ready(edges, remaining, r.value)
    ensures r.Some? ==> forall v :: v in candidates && Ready(edges, remaining, v) ==> !RankLess(rank(v), rank(r.value))
    ensures r.None? <==> forall v :: v in candidates ==> !Ready(edges, remaining, v)
  {
    if candidates == [] then None
    else
      var last := candidates[|candidates| - 1];
      var best := MinReady(edges, remaining, candidates[..|candidates| - 1], rank);
      assert candidates == candidates[..|candidates| - 1] + [last];
      if !Ready(edges, remaining, last) then best
      else if best.Some? && !RankLess(rank(last), rank(best.value)) then best
      else Some(last)
  }

  /** The order the iterator yields over the vertices still `remaining`. */
  function KahnOrder<V(==, !new)>(edges: set<(V, V)>, candidates: seq<V>, rank: V -> Rank, remaining: set<V>): seq<V>
    decreases |remaining|
  {
    match MinReady(edges, remaining, candidates, rank)
    case None => []
    case Some(v) => [v] + KahnOrder(edges, candidates, rank, remaining - {v})
  }

  /** Each emission of the iterator: scans the candidates for the lowest-ranked ready vertex. */
  method FindMinReady<V(==, !new)>(edges: set<(V, V)>, remaining: set<V>, candidates: seq<V>, rank: V -> Rank)
    returns (r: Option<V>)
    ensures r == MinReady(edges, remaining, candidates, rank)
  {
    r := None;
    for i := 0 to |candidates|
      invariant r == MinReady(edges, remaining, candidates[..i], rank)
    {
      assert candidates[..i + 1][..i] == candidates[..i];
      var v := candidates[i];
      if v in remaining && forall u :: u in remaining ==> (u, v) !in edges {
        if r.None? || RankLess(rank(v), rank(r.value)) {
          r := Some(v);
        }
      }
    }
    assert candidates[..|candidates|] == candidates;
  }

  /** `ImmutableList.copyOf(new TopologicalOrderIterator<>(graph, comparator))`. */
  method TopologicalOrderIterator<V(==, !new)>(graph: DirectedAcyclicGraph<V>, candidates: seq<V>, rank: V -> Rank)
    returns (order: seq<V>)
    ensures order == KahnOrder(graph.edges, candidates, rank, graph.vertices)
  {
    var remaining := graph.vertices;
    order := [];
    while true
      invariant order + KahnOrder(graph.edges, candidates, rank, remaining) == KahnOrder(graph.edges, candidates, rank, graph.vertices)
      decreases |remaining|
    {
      var next := FindMinReady(graph.edges, remaining, candidates, rank);
      if next.None? {
        return;
      }
      order := order + [next.value];
      remaining := remaining - {next.value};
    }
  }

  /** In an acyclic graph some vertex is ready while any is left. */
  lemma ReadyExists<V(!new)>(edges: set<(V, V)>, candidates: seq<V>, rank: V -> Rank, remaining: set<V>)
    requires Acyclic(edges) && remaining <= Elements(candidates) && remaining != {}
    ensures MinReady(edges, remaining, candidates, rank).Some?
  {
    SourceExists(edges, remaining);
    var w :| w in remaining && forall u :: u in remaining ==> (u, w) !in edges;
    assert Ready(edges, remaining, w) && w in candidates;
  }

  /** Over an acyclic graph every remaining vertex is emitted exactly once. */
  lemma {:induction false} KahnIsPermutation<V(!new)>(edges: set<(V, V)>, candidates: seq<V>, rank: V -> Rank, remaining: set<V>)
    requires Acyclic(edges) && remaining <= Elements(candidates)
    ensures multiset(KahnOrder(edges, candidates, rank, remaining)) == multiset(remaining)
    decreases |remaining|
  {
    if remaining != {} {
      ReadyExists(edges, candidates, rank, remaining);
      var v := MinReady(edges, remaining, candidates, rank).value;
      KahnIsPermutation(edges, candidates, rank, remaining - {v});
      assert remaining == (remaining - {v}) + {v};
    }
  }

  /** The emitted vertices are exactly the remaining ones, each once. */
  lemma KahnElements<V(!new)>(edges: set<(V, V)>, candidates: seq<V>, rank: V -> Rank, remaining: set<V>)
    requires Acyclic(edges) && remaining <= Elements(candidates)
    ensures var order := KahnOrder(edges, candidates, rank, remaining);
      && |order| == |remaining|
      && (forall v :: v in order <==> v in remaining)
      && (forall i, j :: 0 <= i < j < |order| ==> order[i] != order[j])
  {
    var order := KahnOrder(edges, candidates, rank, remaining);
    KahnIsPermutation(edges, candidates, rank, remaining);
    assert |multiset(order)| == |multiset(remaining)|;
    forall v
      ensures v in order <==> v in remaining
    {
      assert v in order <==> v in multiset(order);
    }
  }

  /** Every edge between two vertices of `order` points forward in it. */
  ghost predicate RespectsEdges<V(!new)>(edges: set<(V, V)>, order: seq<V>) {
    forall i, j :: 0 <= i < |order| && 0 <= j < |order| && (order[i], order[j]) in edges ==> i < j
  }

  lemma RespectsEdgesStep<V(!new)>(edges: set<(V, V)>, remaining: set<V>, v: V, rest: seq<V>)
    requires Ready(edges, remaining, v) && Acyclic(edges)
    requires forall x :: x in rest ==> x in remaining
    requires RespectsEdges(edges, rest)
    ensures RespectsEdges(edges, [v] + rest)
  {
    var order := [v] + rest;
    forall i, j | 0 <= i < |order| && 0 <= j < |order| && (order[i], order[j]) in edges
      ensures i < j
    {
      if i == 0 && j == 0 {
        ReachesSelf(edges, v);
      } else if i > 0 && j > 0 {
        assert rest[i - 1] == order[i] && rest[j - 1] == order[j];
      }
    }
  }

  /** For every edge between remaining vertices, the source is emitted before the target. */
  lemma {:induction false} KahnRespectsEdges<V(!new)>(edges: set<(V, V)>, candidates: seq<V>, rank: V -> Rank, remaining: set<V>)
    requires Acyclic(edges) && remaining <= Elements(candidates)
    ensures RespectsEdges(edges, KahnOrder(edges, candidates, rank, remaining))
    decreases |remaining|
  {
    if remaining != {} {
      ReadyExists(edges, candidates, rank, remaining);
      var v := MinReady(edges, remaining, candidates, rank).value;
      var rest := KahnOrder(edges, candidates, rank, remaining - {v});
      KahnRespectsEdges(edges, candidates, rank, remaining - {v});
      KahnElements(edges, candidates, rank, remaining - {v});
      RespectsEdgesStep(edges, remaining, v, rest);
    }
  }

  /** What is left after the first `k` emissions. */
  function LeftAfter<V(==, !new)>(remaining: set<V>, order: seq<V>, k: nat): set<V>
    requires k <= |order|
  {
    remaining - Elements(order[..k])
  }

  /** `v` is ready among `left` and no ready vertex of `left` ranks lower. */
  ghost predicate LowestReady<V(!new)>(edges: set<(V, V)>, rank: V -> Rank, left: set<V>, v: V) {
    Ready(edges, left, v) && forall u :: Ready(edges, left, u) ==> !RankLess(rank(u), rank(v))
  }

  /** Each vertex of `order` is the lowest-ranked ready one once its predecessors in `order` are gone. */
  ghost predicate Greedy<V(!new)>(edges: set<(V, V)>, rank: V -> Rank, remaining: set<V>, order: seq<V>) {
    forall k :: 0 <= k < |order| ==> LowestReady(edges, rank, LeftAfter(remaining, order, k), order[k])
  }

  lemma GreedyStep<V(!new)>(edges: set<(V, V)>, rank: V -> Rank, remaining: set<V>, v: V, rest: seq<V>)
    requires LowestReady(edges, rank, remaining, v)
    requires Greedy(edges, rank, remaining - {v}, rest)
    ensures Greedy(edges, rank, remaining, [v] + rest)
  {
    var order := [v] + rest;
    forall k | 0 <= k < |order|
      ensures LowestReady(edges, rank, LeftAfter(remaining, order, k), order[k])
    {
      if k == 0 {
        assert LeftAfter(remaining, order, 0) == remaining;
      } else {
        assert order[..k] == [v] + rest[..k - 1];
        assert LeftAfter(remaining, order, k) == LeftAfter(remaining - {v}, rest, k - 1);
        assert order[k] == rest[k - 1];
      }
    }
  }

  /**
   * The comparator decides every emission: the `k`-th vertex is ready once the
   * first `k` are gone, and no vertex ready at that moment ranks lower.
   */
  lemma {:induction false} KahnIsGreedy<V(!new)>(edges: set<(V, V)>, candidates: seq<V>, rank: V -> Rank, remaining: set<V>)
    requires remaining <= Elements(candidates)
    ensures Greedy(edges, rank, remaining, KahnOrder(edges, candidates, rank, remaining))
    decreases |remaining|
  {
    var r := MinReady(edges, remaining, candidates, rank);
    if r.Some? {
      var v := r.value;
      KahnIsGreedy(edges, candidates, rank, remaining - {v});
      GreedyStep(edges, rank, remaining, v, KahnOrder(edges, candidates, rank, remaining - {v}));
    }
  }

  /** The iterator emits the vertex `MinReady` picks, then goes on without it. */
  lemma KahnEmitsMinReady<V(!new)>(edges: set<(V, V)>, candidates: seq<V>, rank: V -> Rank, remaining: set<V>, v: V)
    requires MinReady(edges, remaining, candidates, rank) == Some(v)
    ensures KahnOrder(edges, candidates, rank, remaining) == [v] + KahnOrder(edges, candidates, rank, remaining - {v})
  {
  }

  /** The candidates ranked in increasing order, with every edge pointing forward among them. */
  ghost predicate ForwardRanked<V(!new)>(edges: set<(V, V)>, candidates: seq<V>, rank: V -> Rank) {
    && (forall i, j :: 0 <= i < j < |candidates| ==> RankLess(rank(candidates[i]), rank(candidates[j])))
    && (forall i, j :: 0 <= i < |candidates| && 0 <= j < |candidates| && (candidates[i], candidates[j]) in edges ==> i < j)
  }

  /** In that situation the first candidate left is the one emitted next. */
  lemma FirstLeftIsNext<V(!new)>(edges: set<(V, V)>, candidates: seq<V>, rank: V -> Rank, k: nat)
    requires k < |candidates| && ForwardRanked(edges, candidates, rank)
    ensures MinReady(edges, Elements(candidates[k..]), candidates, rank) == Some(candidates[k])
  {
    var left := Elements(candidates[k..]);
    var first := candidates[k];
    forall u | u in left
      ensures (u, first) !in edges
    {
      var i :| k <= i < |candidates| && candidates[i] == u;
    }
    assert first in left;
    assert Ready(edges, left, first);
    var r := MinReady(edges, left, candidates, rank);
    var i :| k <= i < |candidates| && candidates[i] == r.value;
  }

  /** Removing the first candidate left leaves the later ones. */
  lemma DropFirstLeft<V(!new)>(candidates: seq<V>, rank: V -> Rank, k: nat)
    requires k < |candidates|
    requires forall i, j :: 0 <= i < j < |candidates| ==> RankLess(rank(candidates[i]), rank(candidates[j]))
    ensures Elements(candidates[k..]) - {candidates[k]} == Elements(candidates[k + 1..])
  {
    var later := candidates[k + 1..];
    forall p | 0 <= p < |later|
      ensures later[p] != candidates[k]
    {
      assert later[p] == candidates[k + 1 + p];
    }
    assert candidates[k..] == [candidates[k]] + candidates[k + 1..];
  }

  /** A suffix is its first element followed by the rest. */
  lemma SliceFirst<V>(s: seq<V>, k: nat)
    requires k < |s|
    ensures s[k..] == [s[k]] + s[k + 1..]
  {
  }

  /**
   * When, at every step from `k` on, the first candidate left is the one
   * emitted and removing it leaves the later candidates, the iterator yields
   * the candidates from `k` on in list order.
   */
  lemma {:induction false} KahnFollowsList<V(!new)>(edges: set<(V, V)>, candidates: seq<V>, rank: V -> Rank, k: nat)
    requires k <= |candidates|
    requires forall j :: k <= j < |candidates| ==> MinReady(edges, Elements(candidates[j..]), candidates, rank) == Some(candidates[j])
    requires forall j :: k <= j < |candidates| ==> Elements(candidates[j..]) - {candidates[j]} == Elements(candidates[j + 1..])
    ensures KahnOrder(edges, candidates, rank, Elements(candidates[k..])) == candidates[k..]
    decreases |candidates| - k
  {
    if k == |candidates| {
      assert Elements(candidates[k..]) == {};
    } else {
      var first := candidates[k];
      var left := Elements(candidates[k..]);
      KahnFollowsList(edges, candidates, rank, k + 1);
      calc {
        KahnOrder(edges, candidates, rank, left);
        { KahnEmitsMinReady(edges, candidates, rank, left, first); }
        [first] + KahnOrder(edges, candidates, rank, left - {first});
        [first] + candidates[k + 1..];
        { SliceFirst(candidates, k); }
        candidates[k..];
      }
    }
  }

  /**
   * When every edge already points forward in the candidate list and ranks
   * increase along it, the iterator yields the candidates in list order.
   */
  lemma ForwardEdgesKeepOrder<V(!new)>(edges: set<(V, V)>, candidates: seq<V>, rank: V -> Rank, k: nat)
    requires k <= |candidates| && ForwardRanked(edges, candidates, rank)
    ensures KahnOrder(edges, candidates, rank, Elements(candidates[k..])) == candidates[k..]
  {
    forall j | k <= j < |candidates|
      ensures MinReady(edges, Elements(candidates[j..]), candidates, rank) == Some(candidates[j])
      ensures Elements(candidates[j..]) - {candidates[j]} == Elements(candidates[j + 1..])
    {
      FirstLeftIsNext(edges, candidates, rank, j);
      DropFirstLeft(candidates, rank, j);
    }
    KahnFollowsList(edges, candidates, rank, k);
  }
}
