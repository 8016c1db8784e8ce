/**
 * The multibinder scenarios of the repository's tests, over any distinct
 * bindings: each binding is an instance of its own enum class, the factory
 * reads `@Order` from that class, and the sort gives the expected list or
 * exception.
 */
module Scenarios {
  import opened Wrappers
  import opened Guice
  import opened Annotations
  import opened Errors
  import opened OrderedBindings
  import opened Config
  import opened Transformers
  import opened OrderedBindingFactory
  import opened OrderedBindingBiMapFactory
  import opened Dag
  import opened TopologicalOrder
  import opened MultibinderSorter
  import opened SorterProperties

  // ---------------------------------------------------------------------------
  // Shared steps

  /**
   * With no transformer and one class per binding, all different, the
   * registry maps each binding to `fromType` of its class, and a class
   * resolves to its binding or, when no binding has it, to nothing.
   */
  lemma PlainRegistry(factory: DefaultOrderedBindingFactory, bindings: seq<Binding>, names: seq<ClassName>)
    requires factory.transformers == [] && |names| == |bindings| && Distinct(bindings)
    requires forall i, j :: 0 <= i < j < |names| ==> names[i] != names[j]
    requires forall i :: 0 <= i < |bindings| ==> factory.bindingTargetTypeFinder(bindings[i]) == Some(ClassType(names[i]))
    ensures Covered(factory, bindings) && Registry(factory, bindings).Success?
    ensures var m := Registry(factory, bindings).value;
      && ValidBiMap(m) && m.forward.Keys == Elements(bindings)
      && (forall i :: 0 <= i < |bindings| ==>
            m.forward[bindings[i]] == OrderedBinding(ClassType(names[i]), bindings[i], factory.reflection.orderOf(names[i])))
      && (forall i :: 0 <= i < |bindings| ==> Resolve(m, names[i]) == Some(bindings[i]))
      && (forall c :: c !in names ==> Resolve(m, c) == None)
  {
    forall i | 0 <= i < |bindings|
      ensures OrderedBindingOf(factory, bindings[i]) ==
        Success(Some(OrderedBinding(ClassType(names[i]), bindings[i], factory.reflection.orderOf(names[i]))))
      ensures IdentifierOf(factory, bindings[i]) == Some(ClassType(names[i]))
    {
      OrderedBindingOfCases(factory, bindings[i]);
    }
    assert FactorySucceeds(factory, bindings);
    RegistryDuplicates(factory, bindings);
    RegistryContents(factory, bindings);
    var m := Registry(factory, bindings).value;
    forall b | b in m.forward
      ensures exists i :: 0 <= i < |bindings| && b == bindings[i] && m.forward[b].identifier == ClassType(names[i])
    {
      var i :| 0 <= i < |bindings| && bindings[i] == b;
    }
    forall i | 0 <= i < |bindings|
      ensures Resolve(m, names[i]) == Some(bindings[i])
    {
      ResolveFindsIdentifier(m, names[i]);
      assert bindings[i] in m.forward;
    }
    forall c | c !in names
      ensures Resolve(m, c) == None
    {
      ResolveFindsIdentifier(m, c);
    }
  }

  /** The one ready candidate that ranks lowest is the one `MinReady` picks. */
  lemma PicksLowestReady<V(!new)>(edges: set<(V, V)>, remaining: set<V>, candidates: seq<V>, rank: V -> Rank, v: V)
    requires v in candidates && Ready(edges, remaining, v)
    requires forall u :: u in candidates && Ready(edges, remaining, u) && u != v ==> RankLess(rank(v), rank(u))
    ensures MinReady(edges, remaining, candidates, rank) == Some(v)
  {
  }

  /** `a` cannot be reached from `b` when nothing leaves `b`. */
  lemma NothingLeaves(edges: set<Edge>, a: Binding, b: Binding)
    requires a != b && forall e :: e in edges ==> e.0 != b
    ensures !Reaches(edges, b, a)
  {
    assert Closed(edges, {b});
    if Reaches(edges, b, a) {
      ClosedHoldsReachable(edges, {b}, b, a);
    }
  }

  // ---------------------------------------------------------------------------
  // Three bindings, each an instance of its own class

  function NoIdentifiedAs(c: ClassName): Option<ClassName> {
    None
  }

  function NoRedirect(c: ClassName): Option<nat> {
    None
  }

  function ThreeClasses(first: Binding, second: Binding, third: Binding, names: seq<ClassName>): Binding -> Option<TypeLiteral>
    requires |names| == 3
  {
    b => if b == first then Some(ClassType(names[0]))
         else if b == second then Some(ClassType(names[1]))
         else if b == third then Some(ClassType(names[2]))
         else None
  }

  /** The default factory over the three classes: `@Order` read from each, no other annotation. */
  function ThreeFactory(orders: ClassName -> Option<Order>, x: Binding, y: Binding, z: Binding, names: seq<ClassName>): DefaultOrderedBindingFactory
    requires |names| == 3
  {
    DefaultOrderedBindingFactory(Reflection(orders, NoIdentifiedAs, NoRedirect), ThreeClasses(x, y, z, names), [])
  }

  /** The registry of the three bindings, as far as the graph and the comparator see it. */
  ghost predicate ThreeRegistry(m: BiMap, orders: ClassName -> Option<Order>, x: Binding, y: Binding, z: Binding, names: seq<ClassName>)
    requires |names| == 3
  {
    && m.forward.Keys == {x, y, z}
    && m.forward[x].order == orders(names[0])
    && m.forward[y].order == orders(names[1])
    && m.forward[z].order == orders(names[2])
    && Resolve(m, names[0]) == Some(x) && Resolve(m, names[1]) == Some(y) && Resolve(m, names[2]) == Some(z)
  }

  lemma ThreeRegistryHolds(orders: ClassName -> Option<Order>, x: Binding, y: Binding, z: Binding, names: seq<ClassName>)
    requires x != y && x != z && y != z
    requires |names| == 3 && names[0] != names[1] && names[0] != names[2] && names[1] != names[2]
    ensures var factory := ThreeFactory(orders, x, y, z, names);
      && Covered(factory, [x, y, z]) && Registry(factory, [x, y, z]).Success?
      && ThreeRegistry(Registry(factory, [x, y, z]).value, orders, x, y, z, names)
  {
    var factory := ThreeFactory(orders, x, y, z, names);
    var bindings := [x, y, z];
    PlainRegistry(factory, bindings, names);
    assert bindings[0] == x && bindings[1] == y && bindings[2] == z;
    assert Elements(bindings) == {x, y, z};
  }

  /** Two implicit candidates and one constrained binding: one implicit edge, between the two candidates. */
  lemma OneImplicitEdge(m: BiMap, x: Binding, y: Binding, z: Binding)
    requires Candidate(m, x) && ((Candidate(m, y) && !Candidate(m, z)) || (!Candidate(m, y) && Candidate(m, z)))
    ensures ImplicitEdges(m, [x, y, z]) == if Candidate(m, y) then {(x, y)} else {(x, z)}
  {
    var noEdges: set<Edge> := {};
    assert [x, y, z][..2] == [x, y] && [x, y][..1] == [x] && [x][..0] == [];
    assert ImplicitChain(m, []) == (noEdges, None);
    assert ImplicitChain(m, [x]) == (noEdges, Some(x));
    if Candidate(m, y) {
      assert ImplicitChain(m, [x, y]) == (noEdges + {(x, y)}, Some(y));
      assert noEdges + {(x, y)} == {(x, y)};
    } else {
      assert ImplicitChain(m, [x, y]) == (noEdges, Some(x));
      assert ImplicitChain(m, [x, y, z]) == (noEdges + {(x, z)}, Some(z));
      assert noEdges + {(x, z)} == {(x, z)};
    }
  }

  /** One implicit edge and one explicit edge into a binding the implicit edge does not leave. */
  lemma OneLinkGraph(m: BiMap, bindings: seq<Binding>, implicit: Edge, u: Binding, v: Binding)
    requires ImplicitEdges(m, bindings) == {implicit} && Requests(m, bindings) == [Link(u, v)]
    requires u != v && implicit.0 != v
    ensures BuildGraph(DefaultConfiguration, m, bindings) == Success({implicit, (u, v)})
  {
    var requests := [Link(u, v)];
    assert requests[..0] == [];
    assert ApplyRequests(DefaultConfiguration, m, {implicit}, []) == Success({implicit});
    NothingLeaves({implicit}, u, v);
    assert {implicit} + {(u, v)} == {implicit, (u, v)};
  }

  /** The iterator over three vertices, each emitted as the lowest-ranked ready one of those left. */
  lemma KahnThree(edges: set<Edge>, candidates: seq<Binding>, rank: Binding -> Rank, x: Binding, y: Binding, z: Binding)
    requires x != y && x != z && y != z && x in candidates && y in candidates && z in candidates
    requires Ready(edges, {x, y, z}, x) && (forall u :: u in {y, z} && Ready(edges, {x, y, z}, u) ==> RankLess(rank(x), rank(u)))
    requires Ready(edges, {y, z}, y) && (Ready(edges, {y, z}, z) ==> RankLess(rank(y), rank(z)))
    requires Ready(edges, {z}, z)
    ensures KahnOrder(edges, candidates, rank, {x, y, z}) == [x, y, z]
  {
    var none: set<Binding> := {};
    assert KahnOrder(edges, candidates, rank, none) == [] by {
      assert MinReady(edges, none, candidates, rank) == None;
    }
    assert KahnOrder(edges, candidates, rank, {z}) == [z] by {
      PicksLowestReady(edges, {z}, candidates, rank, z);
      assert {z} - {z} == none;
    }
    assert KahnOrder(edges, candidates, rank, {y, z}) == [y, z] by {
      PicksLowestReady(edges, {y, z}, candidates, rank, y);
      assert {y, z} - {y} == {z};
    }
    PicksLowestReady(edges, {x, y, z}, candidates, rank, x);
    assert {x, y, z} - {x} == {y, z};
  }

  /** `sort` on the three bindings, from what their registry's graph and iterator give. */
  lemma SortThree(orders: ClassName -> Option<Order>, x: Binding, y: Binding, z: Binding, names: seq<ClassName>,
                  edges: set<Edge>, out: seq<Binding>)
    requires x != y && x != z && y != z
    requires |names| == 3 && names[0] != names[1] && names[0] != names[2] && names[1] != names[2]
    requires forall m :: ThreeRegistry(m, orders, x, y, z, names) ==>
      && BuildGraph(DefaultConfiguration, m, [x, y, z]) == Success(edges)
      && KahnOrder(edges, [x, y, z], Ranking(DefaultConfiguration, m, PositionsOf([x, y, z])), {x, y, z}) == out
    ensures SortSpec(DefaultConfiguration, ThreeFactory(orders, x, y, z, names), [x, y, z]) == Success(out)
  {
    ThreeRegistryHolds(orders, x, y, z, names);
    assert Elements([x, y, z]) == {x, y, z};
  }

  /** The position an `@Order` declares; none without one. */
  function DeclaredPosition(order: Option<Order>): int {
    if order.Some? then order.value.position else 0
  }

  /** Under the default configuration a binding ranks by its declared position, then by its index. */
  lemma ThreeRanks(m: BiMap, orders: ClassName -> Option<Order>, x: Binding, y: Binding, z: Binding, names: seq<ClassName>)
    requires x != y && x != z && y != z && |names| == 3
    requires ThreeRegistry(m, orders, x, y, z, names)
    ensures var rank := Ranking(DefaultConfiguration, m, PositionsOf([x, y, z]));
      && rank(x) == (DeclaredPosition(orders(names[0])), 0)
      && rank(y) == (DeclaredPosition(orders(names[1])), 1)
      && rank(z) == (DeclaredPosition(orders(names[2])), 2)
  {
    PositionsOfDistinct([x, y, z]);
    FindPositionCases(DefaultConfiguration, m.forward[x]);
    FindPositionCases(DefaultConfiguration, m.forward[y]);
    FindPositionCases(DefaultConfiguration, m.forward[z]);
  }

  // ---------------------------------------------------------------------------
  // `before_first_with_negative_position`

  function BeforeFirstOrders(c: ClassName): Option<Order> {
    if c == "PutMeFirst" then Some(Order(["Last"], [], -1)) else None
  }

  lemma BeforeFirstGraph(m: BiMap, first: Binding, last: Binding, putMeFirst: Binding)
    requires first != last && first != putMeFirst && last != putMeFirst
    requires ThreeRegistry(m, BeforeFirstOrders, first, last, putMeFirst, ["First", "Last", "PutMeFirst"])
    ensures BuildGraph(DefaultConfiguration, m, [first, last, putMeFirst]) == Success({(first, last), (putMeFirst, last)})
  {
    OneImplicitEdge(m, first, last, putMeFirst);
    var bindings := [first, last, putMeFirst];
    var noRequests: seq<Request> := [];
    assert bindings[..2] == [first, last] && [first, last][..1] == [first] && [first][..0] == [];
    assert ClassRequests(m, putMeFirst, ["Last"], true) == [Link(putMeFirst, last)];
    assert ClassRequests(m, putMeFirst, [], false) == noRequests;
    assert RequestsOf(m, first) == noRequests && RequestsOf(m, last) == noRequests;
    assert Requests(m, []) == noRequests && Requests(m, [first]) == noRequests && Requests(m, [first, last]) == noRequests;
    OneLinkGraph(m, bindings, (first, last), putMeFirst, last);
  }

  lemma BeforeFirstOrder(m: BiMap, first: Binding, last: Binding, putMeFirst: Binding)
    requires first != last && first != putMeFirst && last != putMeFirst
    requires ThreeRegistry(m, BeforeFirstOrders, first, last, putMeFirst, ["First", "Last", "PutMeFirst"])
    ensures KahnOrder({(first, last), (putMeFirst, last)}, [first, last, putMeFirst], Ranking(DefaultConfiguration, m, PositionsOf([first, last, putMeFirst])), {first, last, putMeFirst})
      == [putMeFirst, first, last]
  {
    ThreeRanks(m, BeforeFirstOrders, first, last, putMeFirst, ["First", "Last", "PutMeFirst"]);
    assert {first, last, putMeFirst} == {putMeFirst, first, last};
    KahnThree({(first, last), (putMeFirst, last)}, [first, last, putMeFirst], Ranking(DefaultConfiguration, m, PositionsOf([first, last, putMeFirst])), putMeFirst, first, last);
  }

  /**
   * `[First, Last, PutMeFirst]` with `PutMeFirst` before `Last` at position
   * -1 sorts to `[PutMeFirst, First, Last]`.
   */
  lemma BeforeFirstWithNegativePosition(first: Binding, last: Binding, putMeFirst: Binding)
    requires first != last && first != putMeFirst && last != putMeFirst
    ensures SortSpec(DefaultConfiguration, ThreeFactory(BeforeFirstOrders, first, last, putMeFirst, ["First", "Last", "PutMeFirst"]),
                     [first, last, putMeFirst])
      == Success([putMeFirst, first, last])
  {
    forall m | ThreeRegistry(m, BeforeFirstOrders, first, last, putMeFirst, ["First", "Last", "PutMeFirst"])
      ensures BuildGraph(DefaultConfiguration, m, [first, last, putMeFirst]) == Success({(first, last), (putMeFirst, last)})
      ensures KahnOrder({(first, last), (putMeFirst, last)}, [first, last, putMeFirst], Ranking(DefaultConfiguration, m, PositionsOf([first, last, putMeFirst])), {first, last, putMeFirst})
        == [putMeFirst, first, last]
    {
      BeforeFirstGraph(m, first, last, putMeFirst);
      BeforeFirstOrder(m, first, last, putMeFirst);
    }
    SortThree(BeforeFirstOrders, first, last, putMeFirst, ["First", "Last", "PutMeFirst"], {(first, last), (putMeFirst, last)}, [putMeFirst, first, last]);
  }

  // ---------------------------------------------------------------------------
  // `before_in_between_with_positive_position`

  function BeforeInBetweenOrders(c: ClassName): Option<Order> {
    if c == "PutMeInBetween" then Some(Order(["Last"], [], 1)) else None
  }

  lemma BeforeInBetweenGraph(m: BiMap, first: Binding, last: Binding, putMeInBetween: Binding)
    requires first != last && first != putMeInBetween && last != putMeInBetween
    requires ThreeRegistry(m, BeforeInBetweenOrders, first, last, putMeInBetween, ["First", "Last", "PutMeInBetween"])
    ensures BuildGraph(DefaultConfiguration, m, [first, last, putMeInBetween]) == Success({(first, last), (putMeInBetween, last)})
  {
    OneImplicitEdge(m, first, last, putMeInBetween);
    var bindings := [first, last, putMeInBetween];
    var noRequests: seq<Request> := [];
    assert bindings[..2] == [first, last] && [first, last][..1] == [first] && [first][..0] == [];
    assert ClassRequests(m, putMeInBetween, ["Last"], true) == [Link(putMeInBetween, last)];
    assert ClassRequests(m, putMeInBetween, [], false) == noRequests;
    assert RequestsOf(m, first) == noRequests && RequestsOf(m, last) == noRequests;
    assert Requests(m, []) == noRequests && Requests(m, [first]) == noRequests && Requests(m, [first, last]) == noRequests;
    OneLinkGraph(m, bindings, (first, last), putMeInBetween, last);
  }

  lemma BeforeInBetweenOrder(m: BiMap, first: Binding, last: Binding, putMeInBetween: Binding)
    requires first != last && first != putMeInBetween && last != putMeInBetween
    requires ThreeRegistry(m, BeforeInBetweenOrders, first, last, putMeInBetween, ["First", "Last", "PutMeInBetween"])
    ensures KahnOrder({(first, last), (putMeInBetween, last)}, [first, last, putMeInBetween], Ranking(DefaultConfiguration, m, PositionsOf([first, last, putMeInBetween])), {first, last, putMeInBetween})
      == [first, putMeInBetween, last]
  {
    ThreeRanks(m, BeforeInBetweenOrders, first, last, putMeInBetween, ["First", "Last", "PutMeInBetween"]);
    assert {first, last, putMeInBetween} == {first, putMeInBetween, last};
    KahnThree({(first, last), (putMeInBetween, last)}, [first, last, putMeInBetween], Ranking(DefaultConfiguration, m, PositionsOf([first, last, putMeInBetween])), first, putMeInBetween, last);
  }

  /**
   * `[First, Last, PutMeInBetween]` with `PutMeInBetween` before `Last` at
   * position 1 sorts to `[First, PutMeInBetween, Last]`: `Last` waits for it.
   */
  lemma BeforeInBetweenWithPositivePosition(first: Binding, last: Binding, putMeInBetween: Binding)
    requires first != last && first != putMeInBetween && last != putMeInBetween
    ensures SortSpec(DefaultConfiguration, ThreeFactory(BeforeInBetweenOrders, first, last, putMeInBetween, ["First", "Last", "PutMeInBetween"]),
                     [first, last, putMeInBetween])
      == Success([first, putMeInBetween, last])
  {
    forall m | ThreeRegistry(m, BeforeInBetweenOrders, first, last, putMeInBetween, ["First", "Last", "PutMeInBetween"])
      ensures BuildGraph(DefaultConfiguration, m, [first, last, putMeInBetween]) == Success({(first, last), (putMeInBetween, last)})
      ensures KahnOrder({(first, last), (putMeInBetween, last)}, [first, last, putMeInBetween], Ranking(DefaultConfiguration, m, PositionsOf([first, last, putMeInBetween])), {first, last, putMeInBetween})
        == [first, putMeInBetween, last]
    {
      BeforeInBetweenGraph(m, first, last, putMeInBetween);
      BeforeInBetweenOrder(m, first, last, putMeInBetween);
    }
    SortThree(BeforeInBetweenOrders, first, last, putMeInBetween, ["First", "Last", "PutMeInBetween"], {(first, last), (putMeInBetween, last)}, [first, putMeInBetween, last]);
  }

  // ---------------------------------------------------------------------------
  // `after_in_between_with_negative_position`

  function AfterInBetweenOrders(c: ClassName): Option<Order> {
    if c == "PutMeInBetween" then Some(Order([], ["First"], -1)) else None
  }

  lemma AfterInBetweenGraph(m: BiMap, first: Binding, last: Binding, putMeInBetween: Binding)
    requires first != last && first != putMeInBetween && last != putMeInBetween
    requires ThreeRegistry(m, AfterInBetweenOrders, first, last, putMeInBetween, ["First", "Last", "PutMeInBetween"])
    ensures BuildGraph(DefaultConfiguration, m, [first, last, putMeInBetween]) == Success({(first, last), (first, putMeInBetween)})
  {
    OneImplicitEdge(m, first, last, putMeInBetween);
    var bindings := [first, last, putMeInBetween];
    var noRequests: seq<Request> := [];
    assert bindings[..2] == [first, last] && [first, last][..1] == [first] && [first][..0] == [];
    assert ClassRequests(m, putMeInBetween, [], true) == noRequests;
    assert ClassRequests(m, putMeInBetween, ["First"], false) == [Link(first, putMeInBetween)];
    assert RequestsOf(m, first) == noRequests && RequestsOf(m, last) == noRequests;
    assert Requests(m, []) == noRequests && Requests(m, [first]) == noRequests && Requests(m, [first, last]) == noRequests;
    OneLinkGraph(m, bindings, (first, last), first, putMeInBetween);
  }

  lemma AfterInBetweenOrder(m: BiMap, first: Binding, last: Binding, putMeInBetween: Binding)
    requires first != last && first != putMeInBetween && last != putMeInBetween
    requires ThreeRegistry(m, AfterInBetweenOrders, first, last, putMeInBetween, ["First", "Last", "PutMeInBetween"])
    ensures KahnOrder({(first, last), (first, putMeInBetween)}, [first, last, putMeInBetween], Ranking(DefaultConfiguration, m, PositionsOf([first, last, putMeInBetween])), {first, last, putMeInBetween})
      == [first, putMeInBetween, last]
  {
    ThreeRanks(m, AfterInBetweenOrders, first, last, putMeInBetween, ["First", "Last", "PutMeInBetween"]);
    assert {first, last, putMeInBetween} == {first, putMeInBetween, last};
    KahnThree({(first, last), (first, putMeInBetween)}, [first, last, putMeInBetween], Ranking(DefaultConfiguration, m, PositionsOf([first, last, putMeInBetween])), first, putMeInBetween, last);
  }

  /**
   * `[First, Last, PutMeInBetween]` with `PutMeInBetween` after `First` at
   * position -1 sorts to `[First, PutMeInBetween, Last]`: once `First` is
   * out it ranks below `Last`.
   */
  lemma AfterInBetweenWithNegativePosition(first: Binding, last: Binding, putMeInBetween: Binding)
    requires first != last && first != putMeInBetween && last != putMeInBetween
    ensures SortSpec(DefaultConfiguration, ThreeFactory(AfterInBetweenOrders, first, last, putMeInBetween, ["First", "Last", "PutMeInBetween"]),
                     [first, last, putMeInBetween])
      == Success([first, putMeInBetween, last])
  {
    forall m | ThreeRegistry(m, AfterInBetweenOrders, first, last, putMeInBetween, ["First", "Last", "PutMeInBetween"])
      ensures BuildGraph(DefaultConfiguration, m, [first, last, putMeInBetween]) == Success({(first, last), (first, putMeInBetween)})
      ensures KahnOrder({(first, last), (first, putMeInBetween)}, [first, last, putMeInBetween], Ranking(DefaultConfiguration, m, PositionsOf([first, last, putMeInBetween])), {first, last, putMeInBetween})
        == [first, putMeInBetween, last]
    {
      AfterInBetweenGraph(m, first, last, putMeInBetween);
      AfterInBetweenOrder(m, first, last, putMeInBetween);
    }
    SortThree(AfterInBetweenOrders, first, last, putMeInBetween, ["First", "Last", "PutMeInBetween"], {(first, last), (first, putMeInBetween)}, [first, putMeInBetween, last]);
  }

  // ---------------------------------------------------------------------------
  // `after_last_with_positive_position`

  function AfterLastOrders(c: ClassName): Option<Order> {
    if c == "PutMeLast" then Some(Order([], ["Last"], 1)) else None
  }

  lemma AfterLastGraph(m: BiMap, first: Binding, putMeLast: Binding, last: Binding)
    requires first != last && first != putMeLast && last != putMeLast
    requires ThreeRegistry(m, AfterLastOrders, first, putMeLast, last, ["First", "PutMeLast", "Last"])
    ensures BuildGraph(DefaultConfiguration, m, [first, putMeLast, last]) == Success({(first, last), (last, putMeLast)})
  {
    OneImplicitEdge(m, first, putMeLast, last);
    var bindings := [first, putMeLast, last];
    var noRequests: seq<Request> := [];
    assert bindings[..2] == [first, putMeLast] && [first, putMeLast][..1] == [first] && [first][..0] == [];
    assert ClassRequests(m, putMeLast, [], true) == noRequests;
    assert ClassRequests(m, putMeLast, ["Last"], false) == [Link(last, putMeLast)];
    assert RequestsOf(m, first) == noRequests && RequestsOf(m, last) == noRequests;
    assert Requests(m, []) == noRequests && Requests(m, [first]) == noRequests;
    assert Requests(m, [first, putMeLast]) == [Link(last, putMeLast)];
    OneLinkGraph(m, bindings, (first, last), last, putMeLast);
  }

  lemma AfterLastOrder(m: BiMap, first: Binding, putMeLast: Binding, last: Binding)
    requires first != putMeLast && first != last && putMeLast != last
    requires ThreeRegistry(m, AfterLastOrders, first, putMeLast, last, ["First", "PutMeLast", "Last"])
    ensures KahnOrder({(first, last), (last, putMeLast)}, [first, putMeLast, last], Ranking(DefaultConfiguration, m, PositionsOf([first, putMeLast, last])), {first, putMeLast, last})
      == [first, last, putMeLast]
  {
    ThreeRanks(m, AfterLastOrders, first, putMeLast, last, ["First", "PutMeLast", "Last"]);
    assert {first, putMeLast, last} == {first, last, putMeLast};
    KahnThree({(first, last), (last, putMeLast)}, [first, putMeLast, last], Ranking(DefaultConfiguration, m, PositionsOf([first, putMeLast, last])), first, last, putMeLast);
  }

  /**
   * `[First, PutMeLast, Last]` with `PutMeLast` after `Last` at position 1
   * sorts to `[First, Last, PutMeLast]`.
   */
  lemma AfterLastWithPositivePosition(first: Binding, putMeLast: Binding, last: Binding)
    requires first != last && first != putMeLast && last != putMeLast
    ensures SortSpec(DefaultConfiguration, ThreeFactory(AfterLastOrders, first, putMeLast, last, ["First", "PutMeLast", "Last"]),
                     [first, putMeLast, last])
      == Success([first, last, putMeLast])
  {
    forall m | ThreeRegistry(m, AfterLastOrders, first, putMeLast, last, ["First", "PutMeLast", "Last"])
      ensures BuildGraph(DefaultConfiguration, m, [first, putMeLast, last]) == Success({(first, last), (last, putMeLast)})
      ensures KahnOrder({(first, last), (last, putMeLast)}, [first, putMeLast, last], Ranking(DefaultConfiguration, m, PositionsOf([first, putMeLast, last])), {first, putMeLast, last})
        == [first, last, putMeLast]
    {
      AfterLastGraph(m, first, putMeLast, last);
      AfterLastOrder(m, first, putMeLast, last);
    }
    SortThree(AfterLastOrders, first, putMeLast, last, ["First", "PutMeLast", "Last"], {(first, last), (last, putMeLast)}, [first, last, putMeLast]);
  }

  // ---------------------------------------------------------------------------
  // One binding, ordered after one class

  function OneClass(first: Binding, name: ClassName): Binding -> Option<TypeLiteral> {
    b => if b == first then Some(ClassType(name)) else None
  }

  function TwoClasses(first: Binding, second: Binding, names: seq<ClassName>): Binding -> Option<TypeLiteral>
    requires |names| == 2
  {
    b => if b == first then Some(ClassType(names[0]))
         else if b == second then Some(ClassType(names[1]))
         else None
  }

  /** A lone binding ordered after `clazz`: no implicit edge, and one request for `clazz`. */
  lemma AfterOneClass(m: BiMap, first: Binding, clazz: ClassName)
    requires first in m.forward && m.forward[first].order == Some(Order([], [clazz], 0))
    ensures ImplicitEdges(m, [first]) == {}
    ensures Requests(m, [first]) == [ClassRequest(m, first, clazz, false)]
  {
    var noEdges: set<Edge> := {};
    var noRequests: seq<Request> := [];
    assert [first][..0] == [];
    assert !Candidate(m, first);
    assert ImplicitChain(m, []) == (noEdges, None);
    assert ImplicitChain(m, [first]) == (noEdges, None);
    assert ClassRequests(m, first, [], true) == noRequests;
    assert ClassRequests(m, first, [clazz], false) == [ClassRequest(m, first, clazz, false)];
    assert RequestsOf(m, first) == [ClassRequest(m, first, clazz, false)];
    assert Requests(m, []) == noRequests;
  }

  // ---------------------------------------------------------------------------
  // `same_item_with_1`

  /** A single binding whose class carries no `@Order` comes back alone, in every configuration. */
  lemma SameItemWithOne(config: SortingConfiguration, factory: DefaultOrderedBindingFactory, item: Binding, clazz: ClassName)
    requires factory.transformers == []
    requires factory.bindingTargetTypeFinder(item) == Some(ClassType(clazz))
    requires factory.reflection.orderOf(clazz) == None
    ensures SortSpec(config, factory, [item]) == Success([item])
  {
    PlainRegistry(factory, [item], [clazz]);
    var m := Registry(factory, [item]).value;
    assert [item][0] == item && [item][..0] == [];
    var noEdges: set<Edge> := {};
    var noRequests: seq<Request> := [];
    assert Candidate(m, item);
    assert ImplicitChain(m, []) == (noEdges, None);
    assert ImplicitChain(m, [item]) == (noEdges, Some(item));
    assert RequestsOf(m, item) == noRequests;
    assert Requests(m, [item]) == noRequests;
    assert ApplyRequests(config, m, noEdges, noRequests) == Success(noEdges);
  }

  // ---------------------------------------------------------------------------
  // `self_referencing_ordered_throws`

  function SelfReferenceOrders(c: ClassName): Option<Order> {
    if c == "First" then Some(Order([], ["First"], 0)) else None
  }

  function SelfReferenceFactory(first: Binding): DefaultOrderedBindingFactory {
    DefaultOrderedBindingFactory(Reflection(SelfReferenceOrders, NoIdentifiedAs, NoRedirect), OneClass(first, "First"), [])
  }

  lemma SelfReferenceGraph(m: BiMap, first: Binding)
    requires m.forward.Keys == {first}
    requires m.forward[first] == OrderedBinding(ClassType("First"), first, Some(Order([], ["First"], 0)))
    requires Resolve(m, "First") == Some(first)
    ensures BuildGraph(DefaultConfiguration, m, [first]) == Failure(CycleDetected(ClassType("First"), ClassType("First")))
  {
    var noEdges: set<Edge> := {};
    AfterOneClass(m, first, "First");
    var requests := [Link(first, first)];
    assert Requests(m, [first]) == requests;
    assert requests[..0] == [];
    AddLinkSelf(m, noEdges, first);
    assert ApplyRequests(DefaultConfiguration, m, noEdges, requests) == AddLink(m, noEdges, first, first);
  }

  /** `First` ordered after itself: the edge `First -> First` is a cycle. */
  lemma SelfReference(first: Binding)
    ensures SortSpec(DefaultConfiguration, SelfReferenceFactory(first), [first])
      == Failure(CycleDetected(ClassType("First"), ClassType("First")))
  {
    var factory := SelfReferenceFactory(first);
    PlainRegistry(factory, [first], ["First"]);
    var m := Registry(factory, [first]).value;
    assert [first][0] == first && Elements([first]) == {first};
    SelfReferenceGraph(m, first);
  }

  // ---------------------------------------------------------------------------
  // `circular_ordered_throws`

  function CircularOrders(c: ClassName): Option<Order> {
    if c == "First" then Some(Order([], ["Second"], 0))
    else if c == "Second" then Some(Order([], ["First"], 0))
    else None
  }

  function CircularFactory(first: Binding, second: Binding): DefaultOrderedBindingFactory {
    DefaultOrderedBindingFactory(Reflection(CircularOrders, NoIdentifiedAs, NoRedirect), TwoClasses(first, second, ["First", "Second"]), [])
  }

  ghost predicate CircularRegistry(m: BiMap, first: Binding, second: Binding) {
    && m.forward.Keys == {first, second}
    && m.forward[first] == OrderedBinding(ClassType("First"), first, Some(Order([], ["Second"], 0)))
    && m.forward[second] == OrderedBinding(ClassType("Second"), second, Some(Order([], ["First"], 0)))
    && Resolve(m, "First") == Some(first) && Resolve(m, "Second") == Some(second)
  }

  lemma CircularRequests(m: BiMap, first: Binding, second: Binding)
    requires first != second && CircularRegistry(m, first, second)
    ensures ImplicitEdges(m, [first, second]) == {}
    ensures Requests(m, [first, second]) == [Link(second, first), Link(first, second)]
  {
    var noEdges: set<Edge> := {};
    var noRequests: seq<Request> := [];
    AfterOneClass(m, first, "Second");
    assert [first, second][..1] == [first];
    assert !Candidate(m, second);
    assert ImplicitChain(m, [first]) == (noEdges, None);
    assert ClassRequests(m, second, [], true) == noRequests;
    assert ClassRequests(m, second, ["First"], false) == [Link(first, second)];
    assert RequestsOf(m, second) == [Link(first, second)];
  }

  lemma CircularGraph(m: BiMap, first: Binding, second: Binding)
    requires first != second && CircularRegistry(m, first, second)
    ensures BuildGraph(DefaultConfiguration, m, [first, second]) == Failure(CycleDetected(ClassType("First"), ClassType("Second")))
  {
    var noEdges: set<Edge> := {};
    CircularRequests(m, first, second);
    var requests := [Link(second, first), Link(first, second)];
    assert requests[..1] == [Link(second, first)] && [Link(second, first)][..0] == [];
    NothingLeaves(noEdges, second, first);
    var one := {(second, first)};
    assert noEdges + {(second, first)} == one;
    assert AddLink(m, noEdges, second, first) == Success(one);
    assert ApplyRequests(DefaultConfiguration, m, noEdges, [Link(second, first)]) == Success(one);
    ReachesSelf(one, second);
    ReachesStep(one, second, second, first);
    assert AddLink(m, one, first, second) == Failure(CycleDetected(ClassType("First"), ClassType("Second")));
  }

  /** `First` after `Second` and `Second` after `First`: the second edge closes a cycle. */
  lemma CircularReference(first: Binding, second: Binding)
    requires first != second
    ensures SortSpec(DefaultConfiguration, CircularFactory(first, second), [first, second])
      == Failure(CycleDetected(ClassType("First"), ClassType("Second")))
  {
    var factory := CircularFactory(first, second);
    var bindings := [first, second];
    PlainRegistry(factory, bindings, ["First", "Second"]);
    var m := Registry(factory, bindings).value;
    assert bindings[0] == first && bindings[1] == second;
    assert Elements(bindings) == {first, second};
    assert CircularRegistry(m, first, second);
    CircularGraph(m, first, second);
  }

  // ---------------------------------------------------------------------------
  // `irresolvable_identifier_ordered_*`

  function IrresolvableOrders(c: ClassName): Option<Order> {
    if c == "First" then Some(Order([], ["Irresolvable"], 0)) else None
  }

  function IrresolvableFactory(first: Binding): DefaultOrderedBindingFactory {
    DefaultOrderedBindingFactory(Reflection(IrresolvableOrders, NoIdentifiedAs, NoRedirect), OneClass(first, "First"), [])
  }

  lemma IrresolvableGraph(config: SortingConfiguration, m: BiMap, first: Binding)
    requires first in m.forward && m.forward[first].order == Some(Order([], ["Irresolvable"], 0))
    requires Resolve(m, "Irresolvable") == None
    ensures BuildGraph(config, m, [first]) ==
      if config.unresolvableClassHandling == THROW then Failure(UnableToResolveClassAsBinding("Irresolvable"))
      else Success({})
  {
    var noEdges: set<Edge> := {};
    AfterOneClass(m, first, "Irresolvable");
    var requests := [Unresolved("Irresolvable")];
    assert Requests(m, [first]) == requests;
    assert requests[..0] == [];
    assert ApplyRequests(config, m, noEdges, requests) == ApplyRequest(config, m, noEdges, Unresolved("Irresolvable"));
  }

  /** `First` after a class no binding has: `THROW` reports it, `IGNORE` sorts as if it were not there. */
  lemma IrresolvableIdentifier(first: Binding)
    ensures SortSpec(SortingConfiguration(THROW, Zero), IrresolvableFactory(first), [first])
      == Failure(UnableToResolveClassAsBinding("Irresolvable"))
    ensures SortSpec(SortingConfiguration(IGNORE, Zero), IrresolvableFactory(first), [first]) == Success([first])
  {
    var factory := IrresolvableFactory(first);
    PlainRegistry(factory, [first], ["First"]);
    var m := Registry(factory, [first]).value;
    assert [first][0] == first && Elements([first]) == {first};
    assert "Irresolvable" !in ["First"];
    IrresolvableGraph(SortingConfiguration(THROW, Zero), m, first);
    IrresolvableGraph(SortingConfiguration(IGNORE, Zero), m, first);
  }

  // ---------------------------------------------------------------------------
  // `duplicate_identifiers_ordered_throws`

  function BothIdentifiedAsFirst(c: ClassName): Option<ClassName> {
    if c == "First" || c == "Second" then Some("First") else None
  }

  function NoOrders(c: ClassName): Option<Order> {
    None
  }

  function DuplicateFactory(first: Binding, second: Binding): DefaultOrderedBindingFactory {
    DefaultOrderedBindingFactory(Reflection(NoOrders, BothIdentifiedAsFirst, NoRedirect),
                                 TwoClasses(first, second, ["First", "Second"]), [IdentifiedAsTransformer])
  }

  /** `@IdentifiedAs(First.class)` turns either class into the identifier `First`. */
  lemma IdentifiedAsFirst(first: Binding, second: Binding, b: Binding, name: ClassName)
    requires first != second
    requires (b == first && name == "First") || (b == second && name == "Second")
    ensures IdentifierOf(DuplicateFactory(first, second), b) == Some(ClassType("First"))
  {
    var factory := DuplicateFactory(first, second);
    var reflection := factory.reflection;
    var start := FromType(reflection, ClassType(name), b);
    assert factory.bindingTargetTypeFinder(b) == Some(ClassType(name));
    assert [IdentifiedAsTransformer][..0] == [];
    assert ApplyAll(reflection, [], start) == Success(start);
    assert ApplyAll(reflection, [IdentifiedAsTransformer], start) == Success(TransformIdentifiedAs(reflection, start));
  }

  /** `First` and `Second` both `@IdentifiedAs(First.class)`: the registry refuses the second. */
  lemma DuplicateIdentifiersRejected(first: Binding, second: Binding)
    requires first != second
    ensures SortSpec(DefaultConfiguration, DuplicateFactory(first, second), [first, second]) == Failure(DuplicateIdentifiers)
  {
    var factory := DuplicateFactory(first, second);
    var bindings := [first, second];
    IdentifiedAsFirst(first, second, first, "First");
    IdentifiedAsFirst(first, second, second, "Second");
    assert bindings[0] == first && bindings[1] == second;
    assert FactorySucceeds(factory, bindings);
    assert IdentifierClash(factory, bindings) by {
      assert IdentifierOf(factory, bindings[0]).Some? && IdentifierOf(factory, bindings[0]) == IdentifierOf(factory, bindings[1]);
    }
    DuplicateIdentifiersMeansClash(factory, bindings);
  }

  // ---------------------------------------------------------------------------
  // Lists that are already in order: `First`, `Second`, `Last`

  const FSL: seq<ClassName> := ["First", "Second", "Last"]

  /** Requests that all resolve and all point forward in `[first, second, last]`. */
  ghost predicate ForwardOnly(requests: seq<Request>, first: Binding, second: Binding, last: Binding) {
    forall r :: r in requests ==> r == Link(first, second) || r == Link(second, last) || r == Link(first, last)
  }

  predicate Unpositioned(order: Option<Order>) {
    order.None? || order.value.position == 0
  }

  /** Such a registry meets the conditions under which the sort keeps a list as it is. */
  lemma ThreeInOrder(m: BiMap, orders: ClassName -> Option<Order>, first: Binding, second: Binding, last: Binding)
    requires first != second && first != last && second != last
    requires ThreeRegistry(m, orders, first, second, last, FSL)
    requires ForwardOnly(Requests(m, [first, second, last]), first, second, last)
    requires Unpositioned(orders(FSL[0])) && Unpositioned(orders(FSL[1])) && Unpositioned(orders(FSL[2]))
    ensures var bindings := [first, second, last];
      && !HasUnresolved(Requests(m, bindings))
      && (forall i, j :: 0 <= i < |bindings| && 0 <= j < |bindings| && Link(bindings[i], bindings[j]) in Requests(m, bindings) ==> i < j)
      && (forall i, j :: 0 <= i < j < |bindings| && bindings[i] in m.forward && bindings[j] in m.forward ==>
            FindPosition(DefaultConfiguration, m.forward[bindings[i]]) <= FindPosition(DefaultConfiguration, m.forward[bindings[j]]))
  {
    var bindings := [first, second, last];
    forall b | b in m.forward
      ensures FindPosition(DefaultConfiguration, m.forward[b]) == 0
    {
      FindPositionCases(DefaultConfiguration, m.forward[b]);
    }
  }

  /**
   * Three bindings whose orders only ask for edges that already point forward,
   * and set no position, are kept in list order.
   */
  lemma ThreeClassesKept(orders: ClassName -> Option<Order>, first: Binding, second: Binding, last: Binding)
    requires first != second && first != last && second != last
    requires forall m :: ThreeRegistry(m, orders, first, second, last, FSL) ==> ForwardOnly(Requests(m, [first, second, last]), first, second, last)
    requires Unpositioned(orders(FSL[0])) && Unpositioned(orders(FSL[1])) && Unpositioned(orders(FSL[2]))
    ensures SortSpec(DefaultConfiguration, ThreeFactory(orders, first, second, last, FSL), [first, second, last])
      == Success([first, second, last])
  {
    var factory := ThreeFactory(orders, first, second, last, FSL);
    ThreeRegistryHolds(orders, first, second, last, FSL);
    var m := Registry(factory, [first, second, last]).value;
    ThreeInOrder(m, orders, first, second, last);
    SortKeepsOrderedInput(DefaultConfiguration, factory, [first, second, last]);
  }

  // ---------------------------------------------------------------------------
  // `back_ordered`

  function BackOrders(c: ClassName): Option<Order> {
    if c == "First" then Some(Order(["Second"], [], 0))
    else if c == "Second" then Some(Order(["Last"], [], 0))
    else None
  }

  lemma BackRequests(m: BiMap, first: Binding, second: Binding, last: Binding)
    requires ThreeRegistry(m, BackOrders, first, second, last, FSL)
    ensures Requests(m, [first, second, last]) == [Link(first, second), Link(second, last)]
  {
    var noRequests: seq<Request> := [];
    assert [first, second, last][..2] == [first, second] && [first, second][..1] == [first] && [first][..0] == [];
    assert ClassRequests(m, first, ["Second"], true) == [Link(first, second)];
    assert ClassRequests(m, first, [], false) == noRequests;
    assert ClassRequests(m, second, ["Last"], true) == [Link(second, last)];
    assert ClassRequests(m, second, [], false) == noRequests;
    assert RequestsOf(m, first) == [Link(first, second)];
    assert RequestsOf(m, second) == [Link(second, last)];
    assert RequestsOf(m, last) == noRequests;
    assert Requests(m, []) == noRequests;
    assert Requests(m, [first]) == [Link(first, second)];
  }

  /** `First` before `Second`, `Second` before `Last`: the list stays as it is. */
  lemma BackOrdered(first: Binding, second: Binding, last: Binding)
    requires first != second && first != last && second != last
    ensures SortSpec(DefaultConfiguration, ThreeFactory(BackOrders, first, second, last, FSL), [first, second, last])
      == Success([first, second, last])
  {
    forall m | ThreeRegistry(m, BackOrders, first, second, last, FSL)
      ensures ForwardOnly(Requests(m, [first, second, last]), first, second, last)
    {
      BackRequests(m, first, second, last);
    }
    ThreeClassesKept(BackOrders, first, second, last);
  }

  // ---------------------------------------------------------------------------
  // `front_ordered`

  function FrontOrders(c: ClassName): Option<Order> {
    if c == "Second" then Some(Order([], ["First"], 0))
    else if c == "Last" then Some(Order([], ["Second"], 0))
    else None
  }

  lemma FrontRequests(m: BiMap, first: Binding, second: Binding, last: Binding)
    requires ThreeRegistry(m, FrontOrders, first, second, last, FSL)
    ensures Requests(m, [first, second, last]) == [Link(first, second), Link(second, last)]
  {
    var noRequests: seq<Request> := [];
    assert [first, second, last][..2] == [first, second] && [first, second][..1] == [first] && [first][..0] == [];
    assert ClassRequests(m, second, [], true) == noRequests;
    assert ClassRequests(m, second, ["First"], false) == [Link(first, second)];
    assert ClassRequests(m, last, [], true) == noRequests;
    assert ClassRequests(m, last, ["Second"], false) == [Link(second, last)];
    assert RequestsOf(m, first) == noRequests;
    assert RequestsOf(m, second) == [Link(first, second)];
    assert RequestsOf(m, last) == [Link(second, last)];
    assert Requests(m, []) == noRequests;
    assert Requests(m, [first]) == noRequests;
  }

  /** `Second` after `First`, `Last` after `Second`: the list stays as it is. */
  lemma FrontOrdered(first: Binding, second: Binding, last: Binding)
    requires first != second && first != last && second != last
    ensures SortSpec(DefaultConfiguration, ThreeFactory(FrontOrders, first, second, last, FSL), [first, second, last])
      == Success([first, second, last])
  {
    forall m | ThreeRegistry(m, FrontOrders, first, second, last, FSL)
      ensures ForwardOnly(Requests(m, [first, second, last]), first, second, last)
    {
      FrontRequests(m, first, second, last);
    }
    ThreeClassesKept(FrontOrders, first, second, last);
  }

  // ---------------------------------------------------------------------------
  // `both_ways_ordered`

  function BothWaysOrders(c: ClassName): Option<Order> {
    if c == "First" then Some(Order(["Second"], [], 0))
    else if c == "Second" then Some(Order(["Last"], ["First"], 0))
    else if c == "Last" then Some(Order([], ["Second"], 0))
    else None
  }

  /** `First -> Second` is asked for twice, once from each side, and `Second -> Last` twice too. */
  lemma BothWaysRequests(m: BiMap, first: Binding, second: Binding, last: Binding)
    requires ThreeRegistry(m, BothWaysOrders, first, second, last, FSL)
    ensures Requests(m, [first, second, last]) ==
      [Link(first, second), Link(second, last), Link(first, second), Link(second, last)]
  {
    var noRequests: seq<Request> := [];
    assert [first, second, last][..2] == [first, second] && [first, second][..1] == [first] && [first][..0] == [];
    assert ClassRequests(m, first, ["Second"], true) == [Link(first, second)];
    assert ClassRequests(m, first, [], false) == noRequests;
    assert RequestsOf(m, first) == [Link(first, second)];
    assert ClassRequests(m, second, ["Last"], true) == [Link(second, last)];
    assert ClassRequests(m, second, ["First"], false) == [Link(first, second)];
    assert RequestsOf(m, second) == [Link(second, last), Link(first, second)];
    assert ClassRequests(m, last, [], true) == noRequests;
    assert ClassRequests(m, last, ["Second"], false) == [Link(second, last)];
    assert RequestsOf(m, last) == [Link(second, last)];
    assert Requests(m, []) == noRequests;
    assert Requests(m, [first]) == [Link(first, second)];
    assert Requests(m, [first, second]) == [Link(first, second), Link(second, last), Link(first, second)];
  }

  /**
   * `First` before `Second`, `Second` after `First` and before `Last`, `Last`
   * after `Second`: each edge is asked for twice and the list stays as it is.
   */
  lemma BothWaysOrdered(first: Binding, second: Binding, last: Binding)
    requires first != second && first != last && second != last
    ensures SortSpec(DefaultConfiguration, ThreeFactory(BothWaysOrders, first, second, last, FSL), [first, second, last])
      == Success([first, second, last])
  {
    forall m | ThreeRegistry(m, BothWaysOrders, first, second, last, FSL)
      ensures ForwardOnly(Requests(m, [first, second, last]), first, second, last)
    {
      BothWaysRequests(m, first, second, last);
    }
    ThreeClassesKept(BothWaysOrders, first, second, last);
  }

  // ---------------------------------------------------------------------------
  // `uses_multibinder_set_position_on_conflict`

  function ConflictOrders(c: ClassName): Option<Order> {
    if c == "Second" || c == "Last" then Some(Order([], ["First"], 0)) else None
  }

  lemma ConflictRequests(m: BiMap, first: Binding, second: Binding, last: Binding)
    requires ThreeRegistry(m, ConflictOrders, first, second, last, FSL)
    ensures Requests(m, [first, second, last]) == [Link(first, second), Link(first, last)]
  {
    var noRequests: seq<Request> := [];
    assert [first, second, last][..2] == [first, second] && [first, second][..1] == [first] && [first][..0] == [];
    assert ClassRequests(m, second, [], true) == noRequests;
    assert ClassRequests(m, second, ["First"], false) == [Link(first, second)];
    assert ClassRequests(m, last, [], true) == noRequests;
    assert ClassRequests(m, last, ["First"], false) == [Link(first, last)];
    assert RequestsOf(m, first) == noRequests;
    assert RequestsOf(m, second) == [Link(first, second)];
    assert RequestsOf(m, last) == [Link(first, last)];
    assert Requests(m, []) == noRequests;
    assert Requests(m, [first]) == noRequests;
  }

  /**
   * `Second` and `Last` both after `First` and unordered between themselves:
   * the tie is broken by their position in the multibinder's list.
   */
  lemma PositionConflict(first: Binding, second: Binding, last: Binding)
    requires first != second && first != last && second != last
    ensures SortSpec(DefaultConfiguration, ThreeFactory(ConflictOrders, first, second, last, FSL), [first, second, last])
      == Success([first, second, last])
  {
    forall m | ThreeRegistry(m, ConflictOrders, first, second, last, FSL)
      ensures ForwardOnly(Requests(m, [first, second, last]), first, second, last)
    {
      ConflictRequests(m, first, second, last);
    }
    ThreeClassesKept(ConflictOrders, first, second, last);
  }
}
