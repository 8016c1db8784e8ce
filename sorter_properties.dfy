/**
 * What the sort promises, stated over the model of `MultibinderSorter`: which
 * implicit edges exist, when the explicit edges are accepted, what the
 * comparator orders by, and what the sorted list is.
 */
module SorterProperties {
  import opened Wrappers
  import opened Guice
  import opened Annotations
  import opened Errors
  import opened OrderedBindings
  import opened Config
  import opened OrderedBindingFactory
  import opened OrderedBindingBiMapFactory
  import opened Dag
  import opened TopologicalOrder
  import opened Transformers
  import opened MultibinderSorter

  // ---------------------------------------------------------------------------
  // Implicit edges

  /** `s[i]` and `s[j]` are implicit candidates and no candidate lies between them. */
  ghost predicate Consecutive(m: BiMap, s: seq<Binding>, i: int, j: int) {
    && 0 <= i < j < |s|
    && Candidate(m, s[i]) && Candidate(m, s[j])
    && forall k :: i < k < j ==> !Candidate(m, s[k])
  }

  /** `s[i]` is a candidate and none follows it. */
  ghost predicate LastCandidate(m: BiMap, s: seq<Binding>, i: int) {
    0 <= i < |s| && Candidate(m, s[i]) && forall k :: i < k < |s| ==> !Candidate(m, s[k])
  }

  /** Appending a binding keeps the consecutive pairs of the prefix and adds only pairs ending at the new binding. */
  lemma ConsecutiveSnoc(m: BiMap, p: seq<Binding>, x: Binding, i: int, j: int)
    ensures j < |p| ==> (Consecutive(m, p + [x], i, j) <==> Consecutive(m, p, i, j))
    ensures j == |p| ==> (Consecutive(m, p + [x], i, j) <==> Candidate(m, x) && LastCandidate(m, p, i))
  {
    var s := p + [x];
    assert forall k :: 0 <= k < |p| ==> s[k] == p[k];
  }

  /** The last candidate of a list is unique. */
  lemma LastCandidateUnique(m: BiMap, s: seq<Binding>, i: int, j: int)
    requires LastCandidate(m, s, i) && LastCandidate(m, s, j)
    ensures i == j
  {
  }

  /**
   * `createImplicitEdges` links each implicit candidate to the next candidate
   * in list order and to nothing else; `lastImplicitBinding` ends as the last
   * candidate, or null when there is none.
   */
  lemma {:induction false} ImplicitChainCharacterised(m: BiMap, s: seq<Binding>)
    ensures ImplicitChain(m, s).1.None? <==> forall k :: 0 <= k < |s| ==> !Candidate(m, s[k])
    ensures ImplicitChain(m, s).1.Some? ==>
      exists i :: LastCandidate(m, s, i) && s[i] == ImplicitChain(m, s).1.value
    ensures forall a, b :: (a, b) in ImplicitChain(m, s).0 <==>
      exists i, j :: Consecutive(m, s, i, j) && s[i] == a && s[j] == b
  {
    if s != [] {
      var p := s[..|s| - 1];
      var x := s[|s| - 1];
      assert s == p + [x];
      ImplicitChainCharacterised(m, p);
      var (edges, last) := ImplicitChain(m, p);
      assert forall k :: 0 <= k < |p| ==> s[k] == p[k];
      forall i, j
        ensures Consecutive(m, s, i, j) <==>
          (j < |p| && Consecutive(m, p, i, j)) || (j == |p| && Candidate(m, x) && LastCandidate(m, p, i))
      {
        ConsecutiveSnoc(m, p, x, i, j);
      }
      if Candidate(m, x) {
        assert LastCandidate(m, s, |s| - 1);
        if last.Some? {
          var i0 :| LastCandidate(m, p, i0) && p[i0] == last.value;
          forall i | LastCandidate(m, p, i)
            ensures i == i0
          {
            LastCandidateUnique(m, p, i, i0);
          }
          assert Consecutive(m, s, i0, |p|);
        }
      } else if last.Some? {
        var i0 :| LastCandidate(m, p, i0) && p[i0] == last.value;
        assert LastCandidate(m, s, i0);
      }
    }
  }

  // ---------------------------------------------------------------------------
  // Explicit edges

  /** The edges the `Link` requests ask for. */
  ghost function LinkEdges(requests: seq<Request>): set<Edge> {
    set r | r in requests && r.Link? :: (r.from, r.to)
  }

  ghost predicate HasUnresolved(requests: seq<Request>) {
    exists r :: r in requests && r.Unresolved?
  }

  lemma LinkEdgesSnoc(p: seq<Request>, r: Request)
    ensures LinkEdges(p + [r]) == LinkEdges(p) + (if r.Link? then {(r.from, r.to)} else {})
    ensures HasUnresolved(p + [r]) <==> HasUnresolved(p) || r.Unresolved?
  {
    assert forall x :: x in p + [r] <==> x in p || x == r;
  }

  /** Fewer edges cannot make a cycle. */
  lemma AcyclicSubset(edges: set<Edge>, more: set<Edge>)
    requires edges <= more && Acyclic(more)
    ensures Acyclic(edges)
  {
    forall e | e in edges
      ensures !Reaches(edges, e.1, e.0)
    {
      if Reaches(edges, e.1, e.0) {
        ReachesMonotone(edges, more, e.1, e.0);
      }
    }
  }

  /**
   * When the requests go through, the graph holds exactly the starting edges
   * and one edge per `Link`, and it is still acyclic.
   */
  lemma {:induction false} ApplyRequestsSound(config: SortingConfiguration, m: BiMap, edges: set<Edge>, requests: seq<Request>)
    requires Acyclic(edges)
    ensures ApplyRequests(config, m, edges, requests).Success? ==>
      var result := ApplyRequests(config, m, edges, requests).value;
      result == edges + LinkEdges(requests) && Acyclic(result)
  {
    if requests != [] {
      var p := requests[..|requests| - 1];
      var r := requests[|requests| - 1];
      assert requests == p + [r];
      ApplyRequestsSound(config, m, edges, p);
      LinkEdgesSnoc(p, r);
      var done := ApplyRequests(config, m, edges, p);
      if done.Success? && r.Link? {
        AddKeepsAcyclic(done.value, r.from, r.to);
      }
    }
  }

  /**
   * Cycle detection is exact: the requests go through if and only if no
   * unresolved class is met under `THROW` and the starting edges together
   * with every requested edge form no cycle.
   */
  lemma {:induction false} ApplyRequestsExact(config: SortingConfiguration, m: BiMap, edges: set<Edge>, requests: seq<Request>)
    requires Acyclic(edges)
    ensures ApplyRequests(config, m, edges, requests).Success? <==>
      && (config.unresolvableClassHandling == THROW ==> !HasUnresolved(requests))
      && Acyclic(edges + LinkEdges(requests))
  {
    ApplyRequestsSound(config, m, edges, requests);
    if requests != [] {
      var p := requests[..|requests| - 1];
      var r := requests[|requests| - 1];
      assert requests == p + [r];
      LinkEdgesSnoc(p, r);
      ApplyRequestsExact(config, m, edges, p);
      ApplyRequestsSound(config, m, edges, p);
      var all := edges + LinkEdges(requests);
      if Acyclic(all) && (config.unresolvableClassHandling == THROW ==> !HasUnresolved(requests)) {
        AcyclicSubset(edges + LinkEdges(p), all);
        var done := ApplyRequests(config, m, edges, p).value;
        if r.Link? {
          assert (r.from, r.to) in all;
          if Reaches(done, r.to, r.from) {
            ReachesMonotone(done, all, r.to, r.from);
          }
        }
      }
    }
  }

  /**
   * A failure is an unresolved class of some request, under `THROW` only, or
   * a cycle between the identifiers of a requested edge's ends.
   */
  lemma {:induction false} ApplyRequestsErrors(config: SortingConfiguration, m: BiMap, edges: set<Edge>, requests: seq<Request>)
    ensures ApplyRequests(config, m, edges, requests).Failure? ==>
      match ApplyRequests(config, m, edges, requests).error
      case UnableToResolveClassAsBinding(clazz) =>
        config.unresolvableClassHandling == THROW && Unresolved(clazz) in requests
      case CycleDetected(from, to) =>
        exists a, b :: Link(a, b) in requests && IdentifierIn(m, a) == from && IdentifierIn(m, b) == to
      case _ => false
  {
    if requests != [] {
      var p := requests[..|requests| - 1];
      var r := requests[|requests| - 1];
      assert requests == p + [r];
      ApplyRequestsErrors(config, m, edges, p);
      var done := ApplyRequests(config, m, edges, p);
      if done.Failure? {
        match done.error
        case UnableToResolveClassAsBinding(clazz) =>
          assert Unresolved(clazz) in p;
        case CycleDetected(from, to) =>
          var a, b :| Link(a, b) in p && IdentifierIn(m, a) == from && IdentifierIn(m, b) == to;
          assert Link(a, b) in requests;
        case _ =>
      } else if r.Link? {
        assert Link(r.from, r.to) in requests;
      }
    }
  }

  /** An edge already in the graph is accepted and changes nothing, as jgrapht's `addEdge` returning null. */
  lemma AddLinkPresent(m: BiMap, edges: set<Edge>, a: Binding, b: Binding)
    requires Acyclic(edges) && (a, b) in edges
    ensures AddLink(m, edges, a, b) == Success(edges)
  {
    assert edges + {(a, b)} == edges;
  }

  /** An edge from a binding to itself is always refused as a cycle. */
  lemma AddLinkSelf(m: BiMap, edges: set<Edge>, a: Binding)
    ensures AddLink(m, edges, a, a) == Failure(CycleDetected(IdentifierIn(m, a), IdentifierIn(m, a)))
  {
    ReachesSelf(edges, a);
  }

  lemma ClassRequestsMembers(m: BiMap, b: Binding, classes: seq<ClassName>, before: bool, r: Request)
    ensures r in ClassRequests(m, b, classes, before) <==>
      exists k :: 0 <= k < |classes| && r == ClassRequest(m, b, classes[k], before)
  {
    var rs := ClassRequests(m, b, classes, before);
    assert forall k :: 0 <= k < |classes| ==> rs[k] == ClassRequest(m, b, classes[k], before);
    if r in rs {
      var k :| 0 <= k < |rs| && rs[k] == r;
      assert r == ClassRequest(m, b, classes[k], before);
    }
  }

  /**
   * The edges one binding asks for: `before = C` gives binding -> C's binding,
   * `after = C` gives C's binding -> binding; a class that names no binding of
   * the multibinder gives an unresolved request.
   */
  lemma RequestsOfCharacterised(m: BiMap, b: Binding)
    ensures forall x, y :: Link(x, y) in RequestsOf(m, b) <==>
      && b in m.forward && m.forward[b].order.Some?
      && ((x == b && exists c :: c in m.forward[b].order.value.before && Resolve(m, c) == Some(y))
       || (y == b && exists c :: c in m.forward[b].order.value.after && Resolve(m, c) == Some(x)))
    ensures forall c :: Unresolved(c) in RequestsOf(m, b) <==>
      && b in m.forward && m.forward[b].order.Some?
      && (c in m.forward[b].order.value.before || c in m.forward[b].order.value.after)
      && Resolve(m, c).None?
  {
    if b in m.forward && m.forward[b].order.Some? {
      var order := m.forward[b].order.value;
      forall r
        ensures r in RequestsOf(m, b) <==> r in ClassRequests(m, b, order.before, true) || r in ClassRequests(m, b, order.after, false)
        ensures r in ClassRequests(m, b, order.before, true) <==> exists k :: 0 <= k < |order.before| && r == ClassRequest(m, b, order.before[k], true)
        ensures r in ClassRequests(m, b, order.after, false) <==> exists k :: 0 <= k < |order.after| && r == ClassRequest(m, b, order.after[k], false)
      {
        ClassRequestsMembers(m, b, order.before, true, r);
        ClassRequestsMembers(m, b, order.after, false, r);
      }
    }
  }

  /** The requests of a list are those of its bindings. */
  lemma {:induction false} RequestsMembers(m: BiMap, bindings: seq<Binding>, r: Request)
    ensures r in Requests(m, bindings) <==> exists b :: b in bindings && r in RequestsOf(m, b)
  {
    if bindings != [] {
      var p := bindings[..|bindings| - 1];
      assert bindings == p + [bindings[|bindings| - 1]];
      RequestsMembers(m, p, r);
    }
  }

  /** The implicit edges of a list without repetitions point forward in it, so they form no cycle. */
  lemma ImplicitEdgesAcyclic(m: BiMap, bindings: seq<Binding>)
    requires Distinct(bindings)
    ensures Acyclic(ImplicitEdges(m, bindings))
  {
    var index := PositionsOf(bindings);
    PositionsOfDistinct(bindings);
    ImplicitChainCharacterised(m, bindings);
    forall e | e in ImplicitEdges(m, bindings)
      ensures e.0 in index && e.1 in index && index[e.0] < index[e.1]
    {
      assert (e.0, e.1) in ImplicitChain(m, bindings).0;
      var i, j :| Consecutive(m, bindings, i, j) && bindings[i] == e.0 && bindings[j] == e.1;
    }
    ForwardIsAcyclic(ImplicitEdges(m, bindings), index);
  }

  /**
   * `createGraph` succeeds exactly when no unresolved class is met under
   * `THROW` and the implicit and explicit edges together form no cycle; the
   * graph then holds exactly those edges.
   */
  lemma BuildGraphExact(config: SortingConfiguration, m: BiMap, bindings: seq<Binding>)
    requires Distinct(bindings)
    ensures var all := ImplicitEdges(m, bindings) + LinkEdges(Requests(m, bindings));
      && (BuildGraph(config, m, bindings).Success? <==>
           (config.unresolvableClassHandling == THROW ==> !HasUnresolved(Requests(m, bindings))) && Acyclic(all))
      && (BuildGraph(config, m, bindings).Success? ==> BuildGraph(config, m, bindings).value == all && Acyclic(all))
  {
    ImplicitEdgesAcyclic(m, bindings);
    ApplyRequestsExact(config, m, ImplicitEdges(m, bindings), Requests(m, bindings));
    ApplyRequestsSound(config, m, ImplicitEdges(m, bindings), Requests(m, bindings));
  }

  /** Under `IGNORE` a class that names no binding is never an error; only a cycle is. */
  lemma IgnoreOnlyFailsOnCycles(config: SortingConfiguration, m: BiMap, bindings: seq<Binding>)
    requires config.unresolvableClassHandling == IGNORE
    ensures BuildGraph(config, m, bindings).Failure? ==> BuildGraph(config, m, bindings).error.CycleDetected?
  {
    ApplyRequestsErrors(config, m, ImplicitEdges(m, bindings), Requests(m, bindings));
  }

  /** A binding ordered before or after itself always makes the sort fail. */
  lemma SelfReferenceFails(config: SortingConfiguration, m: BiMap, bindings: seq<Binding>, b: Binding, c: ClassName)
    requires Distinct(bindings) && b in bindings && b in m.forward && m.forward[b].order.Some?
    requires c in m.forward[b].order.value.before || c in m.forward[b].order.value.after
    requires Resolve(m, c) == Some(b)
    ensures BuildGraph(config, m, bindings).Failure?
  {
    RequestsOfCharacterised(m, b);
    assert Link(b, b) in RequestsOf(m, b);
    RequestsMembers(m, bindings, Link(b, b));
    var all := ImplicitEdges(m, bindings) + LinkEdges(Requests(m, bindings));
    assert (b, b) in all;
    ReachesSelf(all, b);
    BuildGraphExact(config, m, bindings);
  }

  /** Under `THROW` a class that names no binding of the multibinder always makes the sort fail. */
  lemma ThrowRejectsUnresolved(config: SortingConfiguration, m: BiMap, bindings: seq<Binding>, b: Binding, c: ClassName)
    requires config.unresolvableClassHandling == THROW
    requires Distinct(bindings) && b in bindings && b in m.forward && m.forward[b].order.Some?
    requires c in m.forward[b].order.value.before || c in m.forward[b].order.value.after
    requires Resolve(m, c).None?
    ensures BuildGraph(config, m, bindings).Failure?
  {
    RequestsOfCharacterised(m, b);
    assert Unresolved(c) in RequestsOf(m, b);
    RequestsMembers(m, bindings, Unresolved(c));
    BuildGraphExact(config, m, bindings);
  }

  // ---------------------------------------------------------------------------
  // Positions and the comparator

  /**
   * A non-zero `@Order` position always wins; otherwise the provider decides.
   * Under `ZERO` the effective position is the declared one (0 without
   * `@Order`), and under `CLOSEST` an implicit candidate sits at 0.
   */
  lemma FindPositionCases(config: SortingConfiguration, ob: OrderedBinding)
    ensures ob.order.Some? && ob.order.value.position != 0 ==> FindPosition(config, ob) == ob.order.value.position
    ensures ob.order.None? || ob.order.value.position == 0 ==> FindPosition(config, ob) == DefaultPosition(config.defaultPosition, ob)
    ensures config.defaultPosition.Zero? ==>
      FindPosition(config, ob) == if ob.order.Some? then ob.order.value.position else 0
    ensures config.defaultPosition.Closest? && IsImplicitCandidate(ob) ==> FindPosition(config, ob) == 0
  {
  }

  /**
   * The comparator orders by the (effective position, list position) key:
   * negative exactly when the first key is lower, zero exactly when the keys
   * agree, and antisymmetric.
   */
  lemma CompareIsRankOrder(config: SortingConfiguration, m: BiMap, positions: map<Binding, int>, a: Binding, b: Binding)
    requires a in m.forward && b in m.forward && a in positions && b in positions
    ensures Compare(config, m, positions, a, b) < 0 <==> RankLess(RankOf(config, m, positions, a), RankOf(config, m, positions, b))
    ensures Compare(config, m, positions, a, b) == 0 <==> RankOf(config, m, positions, a) == RankOf(config, m, positions, b)
    ensures Compare(config, m, positions, a, b) == -Compare(config, m, positions, b, a)
  {
  }

  /** Over the bindings of one multibinder, the comparator calls two bindings equal only when they are the same binding. */
  lemma CompareIsTotal(config: SortingConfiguration, m: BiMap, bindings: seq<Binding>, a: Binding, b: Binding)
    requires Distinct(bindings) && Elements(bindings) <= m.forward.Keys
    requires a in bindings && b in bindings
    ensures Compare(config, m, PositionsOf(bindings), a, b) == 0 <==> a == b
  {
    PositionsOfDistinct(bindings);
    var i :| 0 <= i < |bindings| && bindings[i] == a;
    var j :| 0 <= j < |bindings| && bindings[j] == b;
    CompareIsRankOrder(config, m, PositionsOf(bindings), a, b);
  }

  /** The comparator is transitive: together with the two lemmas above it is a strict total order on one multibinder. */
  lemma CompareIsTransitive(config: SortingConfiguration, m: BiMap, positions: map<Binding, int>, a: Binding, b: Binding, c: Binding)
    requires a in m.forward && b in m.forward && c in m.forward
    requires a in positions && b in positions && c in positions
    requires Compare(config, m, positions, a, b) < 0 && Compare(config, m, positions, b, c) < 0
    ensures Compare(config, m, positions, a, c) < 0
  {
    CompareIsRankOrder(config, m, positions, a, b);
    CompareIsRankOrder(config, m, positions, b, c);
    CompareIsRankOrder(config, m, positions, a, c);
  }

  // ---------------------------------------------------------------------------
  // The sorted list

  lemma {:induction false} DistinctMultiset(s: seq<Binding>)
    requires Distinct(s)
    ensures multiset(s) == multiset(Elements(s))
  {
    if s != [] {
      var p := s[..|s| - 1];
      var x := s[|s| - 1];
      assert s == p + [x];
      assert Distinct(p);
      DistinctMultiset(p);
      assert x !in Elements(p);
      assert Elements(s) == Elements(p) + {x};
    }
  }

  /** Under two bindings `sortElements` returns the list as it is, which is also what the iterator would give. */
  lemma ShortListIsKahn(edges: set<Edge>, bindings: seq<Binding>, rank: Binding -> Rank)
    requires |bindings| < 2 && Acyclic(edges)
    ensures KahnOrder(edges, bindings, rank, Elements(bindings)) == bindings
  {
    if |bindings| == 1 {
      var b := bindings[0];
      assert Elements(bindings) == {b};
      ReachesSelf(edges, b);
      assert Ready(edges, {b}, b);
      assert Elements(bindings) - {b} == {};
    } else {
      assert Elements(bindings) == {};
    }
  }

  /** The edges of the graph `sort` builds, when it builds one. */
  ghost function SortEdges(config: SortingConfiguration, factory: DefaultOrderedBindingFactory, bindings: seq<Binding>): set<Edge>
    requires Registry(factory, bindings).Success?
  {
    var m := Registry(factory, bindings).value;
    ImplicitEdges(m, bindings) + LinkEdges(Requests(m, bindings))
  }

  /**
   * A successful sort of a non-empty list is the topological order of the
   * graph of implicit and explicit edges, including under two bindings.
   */
  lemma SortSpecIsKahn(config: SortingConfiguration, factory: DefaultOrderedBindingFactory, bindings: seq<Binding>)
    requires SortSpec(config, factory, bindings).Success? && bindings != []
    ensures Registry(factory, bindings).Success? && Covered(factory, bindings)
    ensures var m := Registry(factory, bindings).value;
      && ValidBiMap(m) && Distinct(bindings) && m.forward.Keys == Elements(bindings)
      && Acyclic(SortEdges(config, factory, bindings))
      && SortSpec(config, factory, bindings).value ==
           KahnOrder(SortEdges(config, factory, bindings), bindings, Ranking(config, m, PositionsOf(bindings)), Elements(bindings))
  {
    RegisteredIffCovered(factory, bindings);
    RegistryCoversBindings(factory, bindings);
    var m := Registry(factory, bindings).value;
    var edges := SortEdges(config, factory, bindings);
    BuildGraphExact(config, m, bindings);
    assert BuildGraph(config, m, bindings) == Success(edges);
    if |bindings| < 2 {
      ShortListIsKahn(edges, bindings, Ranking(config, m, PositionsOf(bindings)));
    }
  }

  /**
   * What `sort` returns: a permutation of the bindings in which every implicit
   * and every explicit edge points forward and each binding is the lowest by
   * the comparator among those whose predecessors are already out.
   */
  lemma SortResult(config: SortingConfiguration, factory: DefaultOrderedBindingFactory, bindings: seq<Binding>)
    requires SortSpec(config, factory, bindings).Success?
    ensures var out := SortSpec(config, factory, bindings).value;
      && multiset(out) == multiset(bindings)
      && (bindings != [] ==>
           var m := Registry(factory, bindings).value;
           var edges := SortEdges(config, factory, bindings);
           && Acyclic(edges)
           && RespectsEdges(edges, out)
           && Greedy(edges, Ranking(config, m, PositionsOf(bindings)), Elements(bindings), out))
  {
    if bindings != [] {
      SortSpecIsKahn(config, factory, bindings);
      var m := Registry(factory, bindings).value;
      var edges := SortEdges(config, factory, bindings);
      var rank := Ranking(config, m, PositionsOf(bindings));
      KahnIsPermutation(edges, bindings, rank, Elements(bindings));
      KahnRespectsEdges(edges, bindings, rank, Elements(bindings));
      KahnIsGreedy(edges, bindings, rank, Elements(bindings));
      DistinctMultiset(bindings);
    }
  }

  /** When the explicit edges point forward in a list without repetitions, so do all edges of the graph. */
  lemma ForwardLinksGiveForwardEdges(m: BiMap, bindings: seq<Binding>)
    requires Distinct(bindings)
    requires forall i, j :: 0 <= i < |bindings| && 0 <= j < |bindings| && Link(bindings[i], bindings[j]) in Requests(m, bindings) ==> i < j
    ensures var edges := ImplicitEdges(m, bindings) + LinkEdges(Requests(m, bindings));
      forall i, j :: 0 <= i < |bindings| && 0 <= j < |bindings| && (bindings[i], bindings[j]) in edges ==> i < j
  {
    ImplicitChainCharacterised(m, bindings);
    var edges := ImplicitEdges(m, bindings) + LinkEdges(Requests(m, bindings));
    forall i, j | 0 <= i < |bindings| && 0 <= j < |bindings| && (bindings[i], bindings[j]) in edges
      ensures i < j
    {
      if (bindings[i], bindings[j]) in ImplicitEdges(m, bindings) {
        var i', j' :| Consecutive(m, bindings, i', j') && bindings[i'] == bindings[i] && bindings[j'] == bindings[j];
        assert i == i' && j == j';
      } else {
        var r :| r in Requests(m, bindings) && r.Link? && (r.from, r.to) == (bindings[i], bindings[j]);
        assert Link(bindings[i], bindings[j]) == r;
      }
    }
  }

  /** Non-decreasing effective positions along a list without repetitions make the comparator's keys strictly increasing. */
  lemma NonDecreasingPositionsRankForward(config: SortingConfiguration, m: BiMap, bindings: seq<Binding>)
    requires Distinct(bindings) && Elements(bindings) <= m.forward.Keys
    requires forall i, j :: 0 <= i < j < |bindings| ==>
      FindPosition(config, m.forward[bindings[i]]) <= FindPosition(config, m.forward[bindings[j]])
    ensures var rank := Ranking(config, m, PositionsOf(bindings));
      forall i, j :: 0 <= i < j < |bindings| ==> RankLess(rank(bindings[i]), rank(bindings[j]))
  {
    PositionsOfDistinct(bindings);
  }

  /** The topological order of a list that already satisfies its edges and positions is the list itself. */
  lemma KahnKeepsOrderedInput(config: SortingConfiguration, m: BiMap, bindings: seq<Binding>)
    requires Distinct(bindings) && Elements(bindings) <= m.forward.Keys
    requires forall i, j :: 0 <= i < |bindings| && 0 <= j < |bindings| && Link(bindings[i], bindings[j]) in Requests(m, bindings) ==> i < j
    requires forall i, j :: 0 <= i < j < |bindings| ==>
      FindPosition(config, m.forward[bindings[i]]) <= FindPosition(config, m.forward[bindings[j]])
    ensures KahnOrder(ImplicitEdges(m, bindings) + LinkEdges(Requests(m, bindings)), bindings,
                      Ranking(config, m, PositionsOf(bindings)), Elements(bindings)) == bindings
  {
    var edges := ImplicitEdges(m, bindings) + LinkEdges(Requests(m, bindings));
    var rank := Ranking(config, m, PositionsOf(bindings));
    ForwardLinksGiveForwardEdges(m, bindings);
    NonDecreasingPositionsRankForward(config, m, bindings);
    assert ForwardRanked(edges, bindings, rank);
    ForwardEdgesKeepOrder(edges, bindings, rank, 0);
    assert bindings[0..] == bindings;
  }

  /** Both ends of every explicit edge are bindings of the registry. */
  lemma LinkEndsRegistered(m: BiMap, bindings: seq<Binding>, x: Binding, y: Binding)
    requires ValidBiMap(m) && Elements(bindings) <= m.forward.Keys
    requires Link(x, y) in Requests(m, bindings)
    ensures x in m.forward && y in m.forward
  {
    RequestsMembers(m, bindings, Link(x, y));
    var b :| b in bindings && Link(x, y) in RequestsOf(m, b);
    var order := m.forward[b].order.value;
    var before := Link(x, y) in ClassRequests(m, b, order.before, true);
    var classes := if before then order.before else order.after;
    ClassRequestsMembers(m, b, classes, before, Link(x, y));
    var k :| 0 <= k < |classes| && Link(x, y) == ClassRequest(m, b, classes[k], before);
    ResolveFindsIdentifier(m, classes[k]);
  }

  /** When every explicit edge points forward in a list without repetitions, the whole graph is acyclic. */
  lemma ForwardLinksAreAcyclic(m: BiMap, bindings: seq<Binding>)
    requires ValidBiMap(m) && Distinct(bindings) && m.forward.Keys == Elements(bindings)
    requires forall i, j :: 0 <= i < |bindings| && 0 <= j < |bindings| && Link(bindings[i], bindings[j]) in Requests(m, bindings) ==> i < j
    ensures Acyclic(ImplicitEdges(m, bindings) + LinkEdges(Requests(m, bindings)))
  {
    var edges := ImplicitEdges(m, bindings) + LinkEdges(Requests(m, bindings));
    var index := PositionsOf(bindings);
    PositionsOfDistinct(bindings);
    EdgeEndsAreBindings(m, bindings);
    ForwardLinksGiveForwardEdges(m, bindings);
    forall e | e in edges
      ensures e.0 in index && e.1 in index && index[e.0] < index[e.1]
    {
      var i :| 0 <= i < |bindings| && bindings[i] == e.0;
      var j :| 0 <= j < |bindings| && bindings[j] == e.1;
      assert (bindings[i], bindings[j]) in edges;
    }
    ForwardIsAcyclic(edges, index);
  }

  /** Every edge of the graph, implicit or explicit, joins two bindings of the list. */
  lemma EdgeEndsAreBindings(m: BiMap, bindings: seq<Binding>)
    requires ValidBiMap(m) && m.forward.Keys == Elements(bindings)
    ensures forall e :: e in ImplicitEdges(m, bindings) + LinkEdges(Requests(m, bindings)) ==> e.0 in bindings && e.1 in bindings
  {
    ImplicitChainCharacterised(m, bindings);
    forall e | e in ImplicitEdges(m, bindings) + LinkEdges(Requests(m, bindings))
      ensures e.0 in bindings && e.1 in bindings
    {
      if e in ImplicitEdges(m, bindings) {
        assert (e.0, e.1) in ImplicitChain(m, bindings).0;
        var i, j :| Consecutive(m, bindings, i, j) && bindings[i] == e.0 && bindings[j] == e.1;
      } else {
        var r :| r in Requests(m, bindings) && r.Link? && (r.from, r.to) == e;
        LinkEndsRegistered(m, bindings, e.0, e.1);
      }
    }
  }

  /**
   * A list that already satisfies the order is returned unchanged: every
   * class named by `before` or `after` resolves (or `IGNORE` is in effect),
   * explicit edges all point forward in the list and effective positions
   * never decrease along it.
   */
  lemma SortKeepsOrderedInput(config: SortingConfiguration, factory: DefaultOrderedBindingFactory, bindings: seq<Binding>)
    requires Covered(factory, bindings) && Registry(factory, bindings).Success?
    requires var m := Registry(factory, bindings).value;
      && (config.unresolvableClassHandling == THROW ==> !HasUnresolved(Requests(m, bindings)))
      && (forall i, j :: 0 <= i < |bindings| && 0 <= j < |bindings| && Link(bindings[i], bindings[j]) in Requests(m, bindings) ==> i < j)
      && (forall i, j :: 0 <= i < j < |bindings| && bindings[i] in m.forward && bindings[j] in m.forward ==>
            FindPosition(config, m.forward[bindings[i]]) <= FindPosition(config, m.forward[bindings[j]]))
    ensures SortSpec(config, factory, bindings) == Success(bindings)
  {
    if bindings != [] {
      RegisteredIffCovered(factory, bindings);
      RegistryCoversBindings(factory, bindings);
      OrderedInputGraph(config, Registry(factory, bindings).value, bindings);
    }
  }

  /** The registry-level half of `SortKeepsOrderedInput`: the graph is built and the iterator follows the list. */
  lemma OrderedInputGraph(config: SortingConfiguration, m: BiMap, bindings: seq<Binding>)
    requires ValidBiMap(m) && Distinct(bindings) && m.forward.Keys == Elements(bindings)
    requires config.unresolvableClassHandling == THROW ==> !HasUnresolved(Requests(m, bindings))
    requires forall i, j :: 0 <= i < |bindings| && 0 <= j < |bindings| && Link(bindings[i], bindings[j]) in Requests(m, bindings) ==> i < j
    requires forall i, j :: 0 <= i < j < |bindings| && bindings[i] in m.forward && bindings[j] in m.forward ==>
      FindPosition(config, m.forward[bindings[i]]) <= FindPosition(config, m.forward[bindings[j]])
    ensures var all := ImplicitEdges(m, bindings) + LinkEdges(Requests(m, bindings));
      && BuildGraph(config, m, bindings) == Success(all)
      && (|bindings| >= 2 ==> KahnOrder(all, bindings, Ranking(config, m, PositionsOf(bindings)), Elements(bindings)) == bindings)
  {
    ForwardLinksAreAcyclic(m, bindings);
    BuildGraphExact(config, m, bindings);
    forall i, j | 0 <= i < j < |bindings|
      ensures FindPosition(config, m.forward[bindings[i]]) <= FindPosition(config, m.forward[bindings[j]])
    {
      assert bindings[i] in m.forward && bindings[j] in m.forward;
    }
    KahnKeepsOrderedInput(config, m, bindings);
  }

  /**
   * Every way `sort` can fail: an identifier shared by two bindings, a generic
   * argument missing from the identifier the factory builds for one of the
   * bindings, a binding the factory maps to null, a
   * class named in some binding's `before` or `after` that names no binding
   * (under `THROW` only), or a requested edge that would close a cycle, the
   * exception naming the identifiers of its two ends.
   */
  lemma SortErrors(config: SortingConfiguration, factory: DefaultOrderedBindingFactory, bindings: seq<Binding>)
    requires SortSpec(config, factory, bindings).Failure?
    ensures var e := SortSpec(config, factory, bindings).error;
      || (e == DuplicateIdentifiers && IdentifierClash(factory, bindings))
      || (e.CannotFindGenericArgument? && MissingGenericArgument(factory.reflection, e.identifier, e.argumentIndex) &&
          exists b :: b in bindings && OrderedBindingOf(factory, b) == Failure(e))
      || (e == NullOrderedBinding && !Covered(factory, bindings))
      || (e.UnableToResolveClassAsBinding? && config.unresolvableClassHandling == THROW &&
          Registry(factory, bindings).Success? && NamesUnresolved(Registry(factory, bindings).value, bindings, e.clazz))
      || (e.CycleDetected? &&
          Registry(factory, bindings).Success? && RequestsLinkBetween(Registry(factory, bindings).value, bindings, e.from, e.to))
  {
    DuplicateIdentifiersMeansClash(factory, bindings);
    EntriesErrors(factory, bindings);
    if Registry(factory, bindings).Success? {
      RegisteredIffCovered(factory, bindings);
      RegistryContents(factory, bindings);
      var m := Registry(factory, bindings).value;
      if Elements(bindings) <= m.forward.Keys {
        GraphErrors(config, m, bindings);
      }
    }
  }

  /** Some binding of the list names `clazz` in `before` or `after`, and no binding has that identifier. */
  ghost predicate NamesUnresolved(m: BiMap, bindings: seq<Binding>, clazz: ClassName) {
    exists b :: b in bindings && b in m.forward && m.forward[b].order.Some? &&
      (clazz in m.forward[b].order.value.before || clazz in m.forward[b].order.value.after) &&
      Resolve(m, clazz).None?
  }

  /** Some binding asks for an edge between the bindings whose identifiers are `from` and `to`. */
  ghost predicate RequestsLinkBetween(m: BiMap, bindings: seq<Binding>, from: TypeLiteral, to: TypeLiteral) {
    exists a, b :: Link(a, b) in Requests(m, bindings) && a in m.forward && b in m.forward &&
      m.forward[a].identifier == from && m.forward[b].identifier == to
  }

  /** Building the graph fails only with an unresolved class under `THROW` or a cycle on a requested edge. */
  lemma GraphErrors(config: SortingConfiguration, m: BiMap, bindings: seq<Binding>)
    requires ValidBiMap(m) && Elements(bindings) <= m.forward.Keys
    requires BuildGraph(config, m, bindings).Failure?
    ensures var e := BuildGraph(config, m, bindings).error;
      || (e.UnableToResolveClassAsBinding? && config.unresolvableClassHandling == THROW && NamesUnresolved(m, bindings, e.clazz))
      || (e.CycleDetected? && RequestsLinkBetween(m, bindings, e.from, e.to))
  {
    ApplyRequestsErrors(config, m, ImplicitEdges(m, bindings), Requests(m, bindings));
    var e := BuildGraph(config, m, bindings).error;
    if e.UnableToResolveClassAsBinding? {
      RequestsMembers(m, bindings, Unresolved(e.clazz));
      var b :| b in bindings && Unresolved(e.clazz) in RequestsOf(m, b);
      RequestsOfCharacterised(m, b);
    } else if e.CycleDetected? {
      var a, b :| Link(a, b) in Requests(m, bindings) && IdentifierIn(m, a) == e.from && IdentifierIn(m, b) == e.to;
      LinkEndsRegistered(m, bindings, a, b);
    }
  }
}
