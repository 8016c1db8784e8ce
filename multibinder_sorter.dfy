/**
 * `MultibinderSorter`: orders the content bindings of one multibinder. It
 * builds the identifier registry, then a graph with one vertex per binding,
 * implicit edges chaining the unconstrained bindings in list order and
 * explicit edges from `@Order(before = ..., after = ...)`, and finally lists
 * the vertices in topological order, lowest effective position first and list
 * order between equals.
 */
module MultibinderSorter {
  import opened Wrappers
  import opened Guice
  import opened Annotations
  import opened Errors
  import opened OrderedBindings
  import opened Config
  import opened OrderedBindingFactory
  import opened OrderedBindingBiMapFactory
  import opened Dag
  import opened TopologicalOrder

  type Edge = (Binding, Binding)

  predicate Distinct<T(==)>(s: seq<T>) {
    forall i, j :: 0 <= i < j < |s| ==> s[i] != s[j]
  }

  // ---------------------------------------------------------------------------
  // The sort context

  /** `createBindingPositions`: the index of each binding in the list (the last one, for a repeated binding). */
  function PositionsOf(bindings: seq<Binding>): (r: map<Binding, int>)
    ensures r.Keys == Elements(bindings)
  {
    if bindings == [] then map[]
    else PositionsOf(bindings[..|bindings| - 1])[bindings[|bindings| - 1] := |bindings| - 1]
  }

  /** For a list without repetitions, every binding is mapped to its own index and nothing else is mapped. */
  lemma {:induction false} PositionsOfDistinct(bindings: seq<Binding>)
    requires Distinct(bindings)
    ensures PositionsOf(bindings).Keys == Elements(bindings)
    ensures forall i :: 0 <= i < |bindings| ==> PositionsOf(bindings)[bindings[i]] == i
  {
    if bindings != [] {
      var prefix := bindings[..|bindings| - 1];
      assert forall i :: 0 <= i < |prefix| ==> prefix[i] == bindings[i];
      PositionsOfDistinct(prefix);
      assert bindings == prefix + [bindings[|bindings| - 1]];
    }
  }

  /** `createBindingPositions`: fills the map in an index loop. */
  method CreateBindingPositions(bindings: seq<Binding>) returns (positions: map<Binding, int>)
    ensures positions == PositionsOf(bindings)
  {
    positions := map[];
    for i := 0 to |bindings|
      invariant positions == PositionsOf(bindings[..i])
    {
      assert bindings[..i + 1][..i] == bindings[..i];
      positions := positions[bindings[i] := i];
    }
    assert bindings[..|bindings|] == bindings;
  }

  /**
   * `SortContext`: the content bindings, their registry, their list positions
   * and, once built, the graph.
   */
  class SortContext {
    const bindings: seq<Binding>
    const orderedBindings: BiMap
    const bindingPositions: map<Binding, int>
    var graph: DirectedAcyclicGraph?<Binding>

    constructor (bindings: seq<Binding>, orderedBindings: BiMap)
      ensures this.bindings == bindings && this.orderedBindings == orderedBindings
      ensures bindingPositions == PositionsOf(bindings) && graph == null
    {
      this.bindings := bindings;
      this.orderedBindings := orderedBindings;
      var positions := CreateBindingPositions(bindings);
      this.bindingPositions := positions;
      this.graph := null;
    }

    /**
     * What holds once the registry is built over bindings that all have an
     * ordered binding: each binding occurs once and has an entry.
     */
    ghost predicate WellFormed() {
      && ValidBiMap(orderedBindings)
      && Distinct(bindings)
      && orderedBindings.forward.Keys == Elements(bindings)
      && bindingPositions == PositionsOf(bindings)
    }
  }

  // ---------------------------------------------------------------------------
  // Positions and the comparator

  /** `findPosition`: the `@Order` position when it is not 0, otherwise the configured default. */
  function FindPosition(config: SortingConfiguration, ob: OrderedBinding): int {
    var position := if ob.order.Some? then ob.order.value.position else 0;
    if position == 0 then DefaultPosition(config.defaultPosition, ob) else position
  }

  /** `Integer.compare`. */
  function IntegerCompare(x: int, y: int): int {
    if x < y then -1 else if x == y then 0 else 1
  }

  /** The comparator handed to the topological iterator: effective positions, then list positions. */
  function Compare(config: SortingConfiguration, m: BiMap, positions: map<Binding, int>, a: Binding, b: Binding): int
    requires a in m.forward && b in m.forward && a in positions && b in positions
  {
    var byPosition := IntegerCompare(FindPosition(config, m.forward[a]), FindPosition(config, m.forward[b]));
    if byPosition != 0 then byPosition else IntegerCompare(positions[a], positions[b])
  }

  /** The comparator as a key: (effective position, list position). */
  function RankOf(config: SortingConfiguration, m: BiMap, positions: map<Binding, int>, b: Binding): Rank {
    if b in m.forward && b in positions then (FindPosition(config, m.forward[b]), positions[b]) else (0, 0)
  }

  function Ranking(config: SortingConfiguration, m: BiMap, positions: map<Binding, int>): Binding -> Rank {
    b => RankOf(config, m, positions, b)
  }

  // ---------------------------------------------------------------------------
  // Implicit edges

  /** `isImplicitCandidate`: no `@Order`, or one that constrains nothing and leaves the position at 0. */
  predicate IsImplicitCandidate(ob: OrderedBinding) {
    ob.order.None? || (|ob.order.value.before| == 0 && |ob.order.value.after| == 0 && ob.order.value.position == 0)
  }

  predicate Candidate(m: BiMap, b: Binding) {
    b in m.forward && IsImplicitCandidate(m.forward[b])
  }

  /**
   * The edges `createImplicitEdges` adds over `bindings`, with the value of
   * `lastImplicitBinding` afterwards (`None` is null).
   */
  function ImplicitChain(m: BiMap, bindings: seq<Binding>): (set<Edge>, Option<Binding>) {
    if bindings == [] then ({}, None)
    else ImplicitStep(m, ImplicitChain(m, bindings[..|bindings| - 1]), bindings[|bindings| - 1])
  }

  /** One iteration of the loop of `createImplicitEdges`. */
  function ImplicitStep(m: BiMap, chain: (set<Edge>, Option<Binding>), b: Binding): (set<Edge>, Option<Binding>) {
    var (edges, last) := chain;
    if !Candidate(m, b) then (edges, last)
    else if last.Some? then (edges + {(last.value, b)}, Some(b))
    else (edges, Some(b))
  }

  function ImplicitEdges(m: BiMap, bindings: seq<Binding>): set<Edge> {
    ImplicitChain(m, bindings).0
  }

  // ---------------------------------------------------------------------------
  // Explicit edges

  /** The binding whose identifier is the class, if any: the registry's inverse keyed by `TypeLiteral.get(clazz)`. */
  function Resolve(m: BiMap, clazz: ClassName): Option<Binding> {
    if ClassType(clazz) in m.inverse then Some(m.inverse[ClassType(clazz)]) else None
  }

  /** The identifier of a binding of the registry (bindings named in requests always have one). */
  function IdentifierIn(m: BiMap, b: Binding): TypeLiteral {
    if b in m.forward then m.forward[b].identifier else ClassType([])
  }

  /** One class named in `before` or `after`: an edge to add, or a class that resolves to no binding. */
  datatype Request = Link(from: Binding, to: Binding) | Unresolved(clazz: ClassName)

  /** A `before` class gives an edge from the binding to the class's binding; an `after` class the reverse. */
  function ClassRequest(m: BiMap, b: Binding, clazz: ClassName, before: bool): Request {
    match Resolve(m, clazz)
    case None => Unresolved(clazz)
    case Some(other) => if before then Link(b, other) else Link(other, b)
  }

  function ClassRequests(m: BiMap, b: Binding, classes: seq<ClassName>, before: bool): (r: seq<Request>)
    ensures |r| == |classes|
  {
    seq(|classes|, i requires 0 <= i < |classes| => ClassRequest(m, b, classes[i], before))
  }

  /** The requests of one binding: its `before` classes, then its `after` classes. */
  function RequestsOf(m: BiMap, b: Binding): seq<Request> {
    if b in m.forward && m.forward[b].order.Some? then
      var order := m.forward[b].order.value;
      ClassRequests(m, b, order.before, true) + ClassRequests(m, b, order.after, false)
    else []
  }

  /** The requests of all bindings, in list order. */
  function Requests(m: BiMap, bindings: seq<Binding>): seq<Request> {
    if bindings == [] then []
    else Requests(m, bindings[..|bindings| - 1]) + RequestsOf(m, bindings[|bindings| - 1])
  }

  /**
   * One request against the edges so far: an unresolved class throws under
   * `THROW` and is skipped under `IGNORE`; an edge whose source can be
   * reached from its target (a loop included) is a cycle.
   */
  ghost function ApplyRequest(config: SortingConfiguration, m: BiMap, edges: set<Edge>, r: Request): Result<set<Edge>, SortError> {
    match r
    case Unresolved(clazz) =>
      if config.unresolvableClassHandling == THROW then Failure(UnableToResolveClassAsBinding(clazz)) else Success(edges)
    case Link(a, b) => AddLink(m, edges, a, b)
  }

  /** Adding the edge `a -> b`: refused as a cycle when `a` can be reached from `b`. */
  ghost function AddLink(m: BiMap, edges: set<Edge>, a: Binding, b: Binding): Result<set<Edge>, SortError> {
    if Reaches(edges, b, a) then Failure(CycleDetected(IdentifierIn(m, a), IdentifierIn(m, b)))
    else Success(edges + {(a, b)})
  }

  /** The requests one after the other; the first exception stops them. */
  ghost function ApplyRequests(config: SortingConfiguration, m: BiMap, edges: set<Edge>, requests: seq<Request>)
    : Result<set<Edge>, SortError>
  {
    if requests == [] then Success(edges)
    else
      match ApplyRequests(config, m, edges, requests[..|requests| - 1])
      case Failure(e) => Failure(e)
      case Success(done) => ApplyRequest(config, m, done, requests[|requests| - 1])
  }

  /** The edge set `createGraph` ends with, or the exception it throws. */
  ghost function BuildGraph(config: SortingConfiguration, m: BiMap, bindings: seq<Binding>): Result<set<Edge>, SortError> {
    ApplyRequests(config, m, ImplicitEdges(m, bindings), Requests(m, bindings))
  }

  // ---------------------------------------------------------------------------
  // The whole sort

  /** No content binding is mapped to null by the factory (each gets an ordered binding or makes it throw). */
  ghost predicate Covered(factory: DefaultOrderedBindingFactory, bindings: seq<Binding>) {
    forall b :: b in bindings ==> OrderedBindingOf(factory, b) != Success(None)
  }

  /** What `sort` returns or throws for the content bindings of one multibinder. */
  ghost function SortSpec(config: SortingConfiguration, factory: DefaultOrderedBindingFactory, bindings: seq<Binding>)
    : Result<seq<Binding>, SortError>
  {
    if bindings == [] then Success(bindings)
    else
      match Registry(factory, bindings)
      case Failure(e) => Failure(e)
      case Success(m) =>
        if !(Elements(bindings) <= m.forward.Keys) then Failure(NullOrderedBinding)
        else
          match BuildGraph(config, m, bindings)
          case Failure(e) => Failure(e)
          case Success(edges) =>
            if |bindings| < 2 then Success(bindings)
            else Success(KahnOrder(edges, bindings, Ranking(config, m, PositionsOf(bindings)), Elements(bindings)))
  }

  // ---------------------------------------------------------------------------
  // Lemmas the methods rely on

  /** Dropping the last element of a concatenation drops it from the second part. */
  lemma AppendInit<T>(first: seq<T>, second: seq<T>)
    requires second != []
    ensures (first + second)[..|first + second| - 1] == first + second[..|second| - 1]
    ensures (first + second)[|first + second| - 1] == second[|second| - 1]
  {
  }

  lemma {:induction false} ApplyRequestsAppend(config: SortingConfiguration, m: BiMap, edges: set<Edge>, first: seq<Request>, second: seq<Request>)
    ensures ApplyRequests(config, m, edges, first + second) ==
      match ApplyRequests(config, m, edges, first)
      case Failure(e) => Failure(e)
      case Success(middle) => ApplyRequests(config, m, middle, second)
  {
    if second == [] {
      assert first + second == first;
    } else {
      var init := second[..|second| - 1];
      AppendInit(first, second);
      ApplyRequestsAppend(config, m, edges, first, init);
    }
  }

  /**
   * A registry that has an entry for every binding lists each of them once:
   * the builder refuses a binding put twice.
   */
  lemma RegistryCoversBindings(factory: DefaultOrderedBindingFactory, bindings: seq<Binding>)
    requires Registry(factory, bindings).Success? && Elements(bindings) <= Registry(factory, bindings).value.forward.Keys
    ensures var m := Registry(factory, bindings).value;
      ValidBiMap(m) && Distinct(bindings) && m.forward.Keys == Elements(bindings)
  {
    RegistryContents(factory, bindings);
    RegistryDuplicates(factory, bindings);
    var m := Registry(factory, bindings).value;
    forall i, j | 0 <= i < j < |bindings|
      ensures bindings[i] != bindings[j]
    {
      assert bindings[i] in m.forward;
    }
  }

  /**
   * The registry has an entry for every binding exactly when the factory maps
   * none of them to null, so `NullOrderedBinding` is raised exactly then.
   */
  lemma RegisteredIffCovered(factory: DefaultOrderedBindingFactory, bindings: seq<Binding>)
    requires Registry(factory, bindings).Success?
    ensures Elements(bindings) <= Registry(factory, bindings).value.forward.Keys <==> Covered(factory, bindings)
  {
    RegistryContents(factory, bindings);
    var m := Registry(factory, bindings).value;
    if Covered(factory, bindings) {
      forall b | b in bindings
        ensures b in m.forward
      {
        assert OrderedBindingOf(factory, b).Success?;
      }
    }
  }

  /** The resolved binding is the one whose identifier is the class. */
  lemma ResolveFindsIdentifier(m: BiMap, clazz: ClassName)
    requires ValidBiMap(m)
    ensures Resolve(m, clazz) == InverseGet(m, EqualityToken(ClassType(clazz)))
    ensures Resolve(m, clazz).Some? <==> exists b :: b in m.forward && m.forward[b].identifier == ClassType(clazz)
    ensures Resolve(m, clazz).Some? ==>
      Resolve(m, clazz).value in m.forward && IdentifierIn(m, Resolve(m, clazz).value) == ClassType(clazz)
  {
  }

  // ---------------------------------------------------------------------------
  // `BindingGraphFactory`

  /** `addVertexes`: one vertex per binding. */
  method AddVertexes(context: SortContext, graph: DirectedAcyclicGraph<Binding>)
    requires graph.Valid()
    modifies graph
    ensures graph.Valid()
    ensures graph.vertices == old(graph.vertices) + Elements(context.bindings) && graph.edges == old(graph.edges)
  {
    var bindings := context.bindings;
    for i := 0 to |bindings|
      invariant graph.Valid() && graph.edges == old(graph.edges)
      invariant graph.vertices == old(graph.vertices) + Elements(bindings[..i])
    {
      assert bindings[..i + 1] == bindings[..i] + [bindings[i]];
      graph.AddVertex(bindings[i]);
    }
    assert bindings[..|bindings|] == bindings;
  }

  /**
   * `createImplicitEdges`: links each implicit candidate to the next one. On
   * the empty edge set of a fresh graph every such edge points forward in the
   * list and is new, so `addEdge` neither throws nor returns null.
   */
  method CreateImplicitEdges(context: SortContext, graph: DirectedAcyclicGraph<Binding>)
    requires context.WellFormed()
    requires graph.Valid() && graph.vertices == Elements(context.bindings) && graph.edges == {}
    modifies graph
    ensures graph.Valid() && graph.vertices == old(graph.vertices)
    ensures graph.edges == ImplicitEdges(context.orderedBindings, context.bindings)
  {
    var bindings := context.bindings;
    var m := context.orderedBindings;
    var index := context.bindingPositions;
    PositionsOfDistinct(bindings);
    var lastImplicitBinding: Option<Binding> := None;
    for i := 0 to |bindings|
      invariant graph.Valid() && graph.vertices == Elements(bindings)
      invariant graph.edges == ImplicitChain(m, bindings[..i]).0
      invariant lastImplicitBinding == ImplicitChain(m, bindings[..i]).1
      invariant ImplicitChainForward(m, bindings, index, i)
    {
      ImplicitChainStep(m, bindings, index, i);
      var binding := bindings[i];
      if IsImplicitCandidate(m.forward[binding]) {
        if lastImplicitBinding.Some? {
          var outcome := graph.AddEdge(lastImplicitBinding.value, binding);
          assert outcome == Added;
        }
        lastImplicitBinding := Some(binding);
      }
    }
    assert bindings[..|bindings|] == bindings;
  }

  /**
   * After the first `i` bindings, every implicit edge points forward among
   * them and the last candidate is one of them.
   */
  ghost predicate ImplicitChainForward(m: BiMap, bindings: seq<Binding>, index: map<Binding, int>, i: nat)
    requires i <= |bindings|
  {
    var (edges, last) := ImplicitChain(m, bindings[..i]);
    && (last.Some? ==> last.value in index && index[last.value] < i)
    && (forall e :: e in edges ==> e.0 in index && e.1 in index && index[e.0] < index[e.1] < i)
  }

  /** One step of `createImplicitEdges`: the edge it adds is new and cannot close a cycle. */
  lemma ImplicitChainStep(m: BiMap, bindings: seq<Binding>, index: map<Binding, int>, i: nat)
    requires i < |bindings| && Distinct(bindings) && index == PositionsOf(bindings)
    requires ImplicitChainForward(m, bindings, index, i)
    ensures ImplicitChainForward(m, bindings, index, i + 1)
    ensures ImplicitChain(m, bindings[..i + 1]) == ImplicitStep(m, ImplicitChain(m, bindings[..i]), bindings[i])
    ensures var (edges, last) := ImplicitChain(m, bindings[..i]);
      Candidate(m, bindings[i]) && last.Some? ==>
        (last.value, bindings[i]) !in edges && !Reaches(edges, bindings[i], last.value)
  {
    PositionsOfDistinct(bindings);
    assert bindings[..i + 1][..i] == bindings[..i];
    var (edges, last) := ImplicitChain(m, bindings[..i]);
    assert index[bindings[i]] == i;
    if last.Some? {
      ForwardUnreachable(edges, index, bindings[i], last.value);
    }
  }

  /** With every edge pointing forward, nothing earlier can be reached from a later vertex. */
  lemma ForwardUnreachable(edges: set<Edge>, index: map<Binding, int>, a: Binding, b: Binding)
    requires forall e :: e in edges ==> e.0 in index && e.1 in index && index[e.0] < index[e.1]
    requires a in index && b in index && index[b] < index[a]
    ensures !Reaches(edges, a, b)
  {
    if Reaches(edges, a, b) {
      var path :| IsPath(edges, path) && path[0] == a && path[|path| - 1] == b;
      ForwardWalk(edges, index, path);
    }
  }

  /** `findByClassOrHandle`: the binding identified by the class, or the configured handling. */
  method FindByClassOrHandle(config: SortingConfiguration, context: SortContext, clazz: ClassName)
    returns (r: Result<Option<Binding>, SortError>)
    requires context.WellFormed()
    ensures r == match Resolve(context.orderedBindings, clazz)
      case Some(b) => Success(Some(b))
      case None => if config.unresolvableClassHandling == THROW then Failure(UnableToResolveClassAsBinding(clazz)) else Success(None)
    ensures r.Success? && r.value.Some? ==>
      r.value.value in context.bindings && IdentifierIn(context.orderedBindings, r.value.value) == ClassType(clazz)
  {
    ResolveFindsIdentifier(context.orderedBindings, clazz);
    var binding := InverseGet(context.orderedBindings, EqualityToken(ClassType(clazz)));
    if binding.Some? {
      return Success(binding);
    }
    match config.unresolvableClassHandling
    case THROW => return Failure(UnableToResolveClassAsBinding(clazz));
    case IGNORE => return Success(None);
  }

  /** `addExplicitEdge`: jgrapht's `IllegalArgumentException` becomes `CycleDetected` naming both identifiers. */
  method AddExplicitEdge(context: SortContext, graph: DirectedAcyclicGraph<Binding>, binding: Binding, succeeding: Binding)
    returns (thrown: Option<SortError>)
    requires context.WellFormed()
    requires graph.Valid() && graph.vertices == Elements(context.bindings)
    requires binding in context.bindings && succeeding in context.bindings
    modifies graph
    ensures graph.Valid() && graph.vertices == old(graph.vertices)
    ensures thrown.None? ==> AddLink(context.orderedBindings, old(graph.edges), binding, succeeding) == Success(graph.edges)
    ensures thrown.Some? ==> AddLink(context.orderedBindings, old(graph.edges), binding, succeeding) == Failure(thrown.value)
  {
    var outcome := graph.AddEdge(binding, succeeding);
    if outcome == WouldCycle {
      var m := context.orderedBindings;
      return Some(CycleDetected(m.forward[binding].identifier, m.forward[succeeding].identifier));
    }
    thrown := None;
  }

  /**
   * The loop over one binding's `before` classes (`before == true`) or its
   * `after` classes: resolve each class, then add the edge.
   */
  method AddConstraintEdges(config: SortingConfiguration, context: SortContext, graph: DirectedAcyclicGraph<Binding>,
                            binding: Binding, classes: seq<ClassName>, before: bool)
    returns (thrown: Option<SortError>)
    requires context.WellFormed()
    requires graph.Valid() && graph.vertices == Elements(context.bindings)
    requires binding in context.bindings
    modifies graph
    ensures graph.Valid() && graph.vertices == old(graph.vertices)
    ensures thrown.None? ==>
      ApplyRequests(config, context.orderedBindings, old(graph.edges), ClassRequests(context.orderedBindings, binding, classes, before)) == Success(graph.edges)
    ensures thrown.Some? ==>
      ApplyRequests(config, context.orderedBindings, old(graph.edges), ClassRequests(context.orderedBindings, binding, classes, before)) == Failure(thrown.value)
  {
    var m := context.orderedBindings;
    ghost var requests := ClassRequests(m, binding, classes, before);
    for j := 0 to |classes|
      invariant graph.Valid() && graph.vertices == old(graph.vertices)
      invariant ApplyRequests(config, m, old(graph.edges), requests[..j]) == Success(graph.edges)
    {
      assert requests[..j + 1][..j] == requests[..j];
      assert requests[j] == ClassRequest(m, binding, classes[j], before);
      var found := FindByClassOrHandle(config, context, classes[j]);
      if found.Failure? {
        ApplyRequestsAppend(config, m, old(graph.edges), requests[..j + 1], requests[j + 1..]);
        assert requests[..j + 1] + requests[j + 1..] == requests;
        return Some(found.error);
      }
      if found.value.Some? {
        var other := found.value.value;
        if before {
          thrown := AddExplicitEdge(context, graph, binding, other);
        } else {
          thrown := AddExplicitEdge(context, graph, other, binding);
        }
        if thrown.Some? {
          ApplyRequestsAppend(config, m, old(graph.edges), requests[..j + 1], requests[j + 1..]);
          assert requests[..j + 1] + requests[j + 1..] == requests;
          return;
        }
      }
    }
    assert requests[..|classes|] == requests;
    thrown := None;
  }

  /** The requests of one more binding are applied to the edges the earlier ones left. */
  lemma RequestsStep(config: SortingConfiguration, m: BiMap, start: set<Edge>, bindings: seq<Binding>, i: nat, current: set<Edge>)
    requires i < |bindings| && ApplyRequests(config, m, start, Requests(m, bindings[..i])) == Success(current)
    ensures ApplyRequests(config, m, start, Requests(m, bindings[..i + 1])) == ApplyRequests(config, m, current, RequestsOf(m, bindings[i]))
  {
    assert bindings[..i + 1][..i] == bindings[..i];
    ApplyRequestsAppend(config, m, start, Requests(m, bindings[..i]), RequestsOf(m, bindings[i]));
  }

  /** An exception raised for the first bindings is the exception for the whole list. */
  lemma {:induction false} RequestsFailurePersists(config: SortingConfiguration, m: BiMap, start: set<Edge>, bindings: seq<Binding>, k: nat)
    requires k <= |bindings| && ApplyRequests(config, m, start, Requests(m, bindings[..k])).Failure?
    ensures ApplyRequests(config, m, start, Requests(m, bindings)) == ApplyRequests(config, m, start, Requests(m, bindings[..k]))
    decreases |bindings| - k
  {
    if k < |bindings| {
      assert bindings[..k + 1][..k] == bindings[..k];
      ApplyRequestsAppend(config, m, start, Requests(m, bindings[..k]), RequestsOf(m, bindings[k]));
      RequestsFailurePersists(config, m, start, bindings, k + 1);
    } else {
      assert bindings[..k] == bindings;
    }
  }

  /**
   * One iteration of `createExplicitEdges`: nothing for a binding without
   * `@Order`, otherwise its `before` classes, then its `after` classes.
   */
  method AddOrderEdges(config: SortingConfiguration, context: SortContext, graph: DirectedAcyclicGraph<Binding>, binding: Binding)
    returns (thrown: Option<SortError>)
    requires context.WellFormed()
    requires graph.Valid() && graph.vertices == Elements(context.bindings)
    requires binding in context.bindings
    modifies graph
    ensures graph.Valid() && graph.vertices == old(graph.vertices)
    ensures thrown.None? ==>
      ApplyRequests(config, context.orderedBindings, old(graph.edges), RequestsOf(context.orderedBindings, binding)) == Success(graph.edges)
    ensures thrown.Some? ==>
      ApplyRequests(config, context.orderedBindings, old(graph.edges), RequestsOf(context.orderedBindings, binding)) == Failure(thrown.value)
  {
    var m := context.orderedBindings;
    var order := m.forward[binding].order;
    if order.None? {
      return None;
    }
    ghost var befores := ClassRequests(m, binding, order.value.before, true);
    ghost var afters := ClassRequests(m, binding, order.value.after, false);
    thrown := AddConstraintEdges(config, context, graph, binding, order.value.before, true);
    if thrown.None? {
      thrown := AddConstraintEdges(config, context, graph, binding, order.value.after, false);
    }
    ApplyRequestsAppend(config, m, old(graph.edges), befores, afters);
  }

  /** `createExplicitEdges`: every binding with an `@Order`, in list order, `before` classes first. */
  method CreateExplicitEdges(config: SortingConfiguration, context: SortContext, graph: DirectedAcyclicGraph<Binding>)
    returns (thrown: Option<SortError>)
    requires context.WellFormed()
    requires graph.Valid() && graph.vertices == Elements(context.bindings)
    modifies graph
    ensures graph.Valid() && graph.vertices == old(graph.vertices)
    ensures thrown.None? ==>
      ApplyRequests(config, context.orderedBindings, old(graph.edges), Requests(context.orderedBindings, context.bindings)) == Success(graph.edges)
    ensures thrown.Some? ==>
      ApplyRequests(config, context.orderedBindings, old(graph.edges), Requests(context.orderedBindings, context.bindings)) == Failure(thrown.value)
  {
    var bindings := context.bindings;
    ghost var m := context.orderedBindings;
    ghost var start := graph.edges;
    for i := 0 to |bindings|
      invariant graph.Valid() && graph.vertices == old(graph.vertices)
      invariant ApplyRequests(config, m, start, Requests(m, bindings[..i])) == Success(graph.edges)
    {
      ghost var current := graph.edges;
      thrown := AddOrderEdges(config, context, graph, bindings[i]);
      RequestsStep(config, m, start, bindings, i, current);
      if thrown.Some? {
        RequestsFailurePersists(config, m, start, bindings, i + 1);
        return;
      }
    }
    assert bindings[..|bindings|] == bindings;
    thrown := None;
  }

  /** `createGraph`: vertices, then implicit edges, then explicit edges. */
  method CreateGraph(config: SortingConfiguration, context: SortContext) returns (r: Result<DirectedAcyclicGraph<Binding>, SortError>)
    requires context.WellFormed()
    ensures r.Success? ==> fresh(r.value) && r.value.Valid() && r.value.vertices == Elements(context.bindings)
    ensures r.Success? ==> BuildGraph(config, context.orderedBindings, context.bindings) == Success(r.value.edges)
    ensures r.Failure? ==> BuildGraph(config, context.orderedBindings, context.bindings) == Failure(r.error)
  {
    var graph := new DirectedAcyclicGraph<Binding>();
    AddVertexes(context, graph);
    CreateImplicitEdges(context, graph);
    var thrown := CreateExplicitEdges(config, context, graph);
    if thrown.Some? {
      return Failure(thrown.value);
    }
    r := Success(graph);
  }

  /** `sortElements`: under two bindings there is nothing to order; otherwise the comparator-driven topological order. */
  method SortElements(config: SortingConfiguration, context: SortContext) returns (r: seq<Binding>)
    requires context.graph != null && context.graph.Valid() && context.graph.vertices == Elements(context.bindings)
    ensures r == if |context.bindings| < 2 then context.bindings
      else KahnOrder(context.graph.edges, context.bindings,
                     Ranking(config, context.orderedBindings, context.bindingPositions), Elements(context.bindings))
  {
    if |context.bindings| < 2 {
      return context.bindings;
    }
    var comparator := Ranking(config, context.orderedBindings, context.bindingPositions);
    r := TopologicalOrderIterator(context.graph, context.bindings, comparator);
  }

  /** `sort`, from the content bindings of the multibinder on. */
  method Sort(config: SortingConfiguration, factory: DefaultOrderedBindingFactory, bindings: seq<Binding>)
    returns (r: Result<seq<Binding>, SortError>)
    ensures r == SortSpec(config, factory, bindings)
  {
    if |bindings| == 0 {
      return Success(bindings);
    }
    var orderedBindings := CreateOrderedBindings(factory, bindings);
    if orderedBindings.Failure? {
      return Failure(orderedBindings.error);
    }
    if !(Elements(bindings) <= orderedBindings.value.forward.Keys) {
      // `createImplicitEdges` dereferences the missing ordered binding.
      return Failure(NullOrderedBinding);
    }
    RegistryCoversBindings(factory, bindings);
    var context := new SortContext(bindings, orderedBindings.value);
    var graph := CreateGraph(config, context);
    if graph.Failure? {
      return Failure(graph.error);
    }
    context.graph := graph.value;
    var sorted := SortElements(config, context);
    r := Success(sorted);
  }
}
