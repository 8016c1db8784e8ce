# Ordered multibinders, modelled in Dafny

This project models the ordering engine of *OrderedMultibinders*. The library
reorders the bindings of Guice multibinders. Each bound class may carry
`@Order(before = ..., after = ..., position = ...)`, and the engine turns these
annotations into a directed acyclic graph over the multibinder's content
bindings. It then emits the bindings in a deterministic topological order.

The model covers these stages:

- **Identifier registry.** Every content binding gets an *ordered binding*: an
  identifier type, the binding and its order. `OrderedBinding.fromType` produces
  it, and the `@IdentifiedAs` and `@RedirectedByGenericParameter` transformers
  may rewrite it. The ordered bindings are collected into a bidirectional map
  keyed by identifier, which rejects shared identifiers.
- **Graph.**
  - *Implicit edges* chain the bindings that constrain nothing, in list order.
  - *Explicit edges* come from `before`/`after`. Each class is resolved through
    the registry. A class that names no binding throws under `THROW` and is
    skipped under `IGNORE`.
  - An edge that would close a cycle throws `CycleDetectedException`.
- **Sequencer.** The topological iterator always emits the ready binding that
  the comparator ranks lowest. The comparator orders by *effective position*
  first and list index second. The effective position is the `@Order` position,
  or the configured default position (`ZERO` or `CLOSEST`) when that is 0.
- **Module sorter.** For each multibinder of a module, the sorted content
  bindings are removed from the module's element list and appended again. The
  element list is shared and updated in place.

Each module mirrors one part of the source:

| module | source |
|---|---|
| `Guice` | the abstract Guice types |
| `Annotations`, `Errors` | the annotations and exceptions |
| `OrderedBindings` | `OrderedBinding` and its `Builder` |
| `Config` | `DefaultPositionProvider` and the configuration |
| `Transformers` | the two built-in transformers |
| `OrderedBindingFactory` | `DefaultOrderedBindingFactory` |
| `OrderedBindingBiMapFactory` | the registry |
| `Dag` | the directed acyclic graph, as a class |
| `TopologicalOrder` | the comparator-driven Kahn iteration |
| `MultibinderSorter` | the per-multibinder sort and the graph factory, with methods proved against the specification function `SortSpec` |
| `SorterProperties` | what `SortSpec` guarantees |
| `ModuleMultibinderSorter` | the remove/append loop over an in-place element list |
| `Scenarios` | the repository's multibinder test cases, proved for any distinct bindings |

## Model

| member | source | states |
|---|---|---|
| OrderedBindings.New | ordered-multibinders-core/src/main/java/com/github/jeuxjeux20/orderedmultibinders/binding/OrderedBinding.java:57-61 | the constructor succeeds exactly when identifier and binding are both present and then holds the three given fields; a missing identifier is reported before a missing binding |
| OrderedBindings.FromType | ordered-multibinders-core/src/main/java/com/github/jeuxjeux20/orderedmultibinders/binding/OrderedBinding.java:106-108 | keeps identifier and binding, and takes the order from the `@Order` of the identifier's raw class |
| OrderedBindings.EqualityToken | ordered-multibinders-core/src/main/java/com/github/jeuxjeux20/orderedmultibinders/binding/OrderedBinding.java:131-133 | the token has no order and the null binding, and it equals exactly the ordered bindings that have the given identifier |
| OrderedBindings.EqualsIsIdentifierEquality | ordered-multibinders-core/src/main/java/com/github/jeuxjeux20/orderedmultibinders/binding/OrderedBinding.java:193-199 | equality looks at the identifier only (changing binding or order never changes it) and is reflexive, symmetric and transitive |
| OrderedBindings.HashCodeConsistentWithEquals | ordered-multibinders-core/src/main/java/com/github/jeuxjeux20/orderedmultibinders/binding/OrderedBinding.java:206-209 | equal ordered bindings have equal hash codes |
| OrderedBindings.ChangedNothing | ordered-multibinders-core/src/main/java/com/github/jeuxjeux20/orderedmultibinders/binding/OrderedBinding.java:175-181 | a change whose consumer does nothing gives back an equal copy |
| OrderedBindings.ChangedByTransformerConsumers | ordered-multibinders-core/src/main/java/com/github/jeuxjeux20/orderedmultibinders/binding/OrderedBinding.java:175-181 | the two consumers the transformers pass to `change` replace the identifier, or the identifier and the order, and nothing else |
| OrderedBindings.ChangedKeepsUnsetFields | ordered-multibinders-core/src/main/java/com/github/jeuxjeux20/orderedmultibinders/binding/OrderedBinding.java:175-181 | a field no edit of the consumer sets keeps its old value |
| OrderedBindings.ChangedLastEditWins | ordered-multibinders-core/src/main/java/com/github/jeuxjeux20/orderedmultibinders/binding/OrderedBinding.java:175-181 | each field of the result holds the value of the last edit that set it |
| OrderedBindings.Change | ordered-multibinders-core/src/main/java/com/github/jeuxjeux20/orderedmultibinders/binding/OrderedBinding.java:175-181 | copying into a builder, running the edits on it and building gives the specified `Changed` value |
| OrderedBindings.Builder.FromOrderedBinding | ordered-multibinders-core/src/main/java/com/github/jeuxjeux20/orderedmultibinders/binding/OrderedBinding.java:245-249 | the builder starts with the three fields of the given ordered binding |
| OrderedBindings.Builder.ForType | ordered-multibinders-core/src/main/java/com/github/jeuxjeux20/orderedmultibinders/binding/OrderedBinding.java:235-237 | the builder starts with the fields of `fromType(identifier, binding)` |
| OrderedBindings.Builder.SetIdentifierClass | ordered-multibinders-core/src/main/java/com/github/jeuxjeux20/orderedmultibinders/binding/OrderedBinding.java:257-261 | the identifier becomes the plain type of the class; binding and order are unchanged |
| OrderedBindings.Builder.SetIdentifier | ordered-multibinders-core/src/main/java/com/github/jeuxjeux20/orderedmultibinders/binding/OrderedBinding.java:269-273 | the identifier becomes the given type literal; binding and order are unchanged |
| OrderedBindings.Builder.SetBinding | ordered-multibinders-core/src/main/java/com/github/jeuxjeux20/orderedmultibinders/binding/OrderedBinding.java:281-285 | the binding is replaced; identifier and order are unchanged |
| OrderedBindings.Builder.SetOrder | ordered-multibinders-core/src/main/java/com/github/jeuxjeux20/orderedmultibinders/binding/OrderedBinding.java:293-297 | the order is replaced (it may become absent); identifier and binding are unchanged |
| OrderedBindings.Builder.Apply | ordered-multibinders-core/src/main/java/com/github/jeuxjeux20/orderedmultibinders/binding/OrderedBinding.java:257-297 | one builder call moves the state exactly as the edit it stands for |
| OrderedBindings.Builder.Build | ordered-multibinders-core/src/main/java/com/github/jeuxjeux20/orderedmultibinders/binding/OrderedBinding.java:304-306 | the built ordered binding holds the builder's identifier, binding and order |
| Config.DefaultPosition | ordered-multibinders-core/src/main/java/com/github/jeuxjeux20/orderedmultibinders/config/DefaultPositionProvider.java:14-41 | `ZERO` gives 0; `CLOSEST` gives a value in -1..1 that is 0 exactly when there is no order or it is not one-sided, and 1 exactly for a before-only order; a custom provider gives its own value |
| Config.ClosestCases | ordered-multibinders-core/src/main/java/com/github/jeuxjeux20/orderedmultibinders/config/DefaultPositionProvider.java:25-39 | the four cases of `CLOSEST` (none, both, before only, after only) and its indifference to the order's `position` |
| Transformers.TransformIdentifiedAs | ordered-multibinders-core/src/main/java/com/github/jeuxjeux20/orderedmultibinders/internal/binding/IdentifiedAsOrderedBindingTransformer.java:11-20 | without `@IdentifiedAs` the ordered binding is returned unchanged; with it only the identifier changes, to the annotated class, and the order read from the original class is kept |
| Transformers.TransformGenericParameter | ordered-multibinders-core/src/main/java/com/github/jeuxjeux20/orderedmultibinders/internal/binding/GenericParameterOrderedBindingTransformer.java:21-51 | without the annotation the input is returned; it fails exactly when the identifier is not parameterised or has no argument at the index, naming both; otherwise the identifier becomes that argument and the order is re-read from its class; the binding never changes |
| OrderedBindingFactory.ApplyAllEmpty | ordered-multibinders-core/src/main/java/com/github/jeuxjeux20/orderedmultibinders/internal/binding/DefaultOrderedBindingFactory.java:37-42 | with no transformers the ordered binding is unchanged |
| OrderedBindingFactory.ApplyAllComposes | ordered-multibinders-core/src/main/java/com/github/jeuxjeux20/orderedmultibinders/internal/binding/DefaultOrderedBindingFactory.java:37-42 | running two transformer lists one after the other is running their concatenation, the first exception ending the run |
| OrderedBindingFactory.ApplyAllKeepsBinding | ordered-multibinders-core/src/main/java/com/github/jeuxjeux20/orderedmultibinders/internal/binding/DefaultOrderedBindingFactory.java:37-42 | no transformer changes which binding the ordered binding belongs to |
| OrderedBindingFactory.ApplyAllTransformers | ordered-multibinders-core/src/main/java/com/github/jeuxjeux20/orderedmultibinders/internal/binding/DefaultOrderedBindingFactory.java:37-42 | the loop applies the transformers in list order, each to the previous one's result |
| OrderedBindingFactory.OrderedBindingOfCases | ordered-multibinders-core/src/main/java/com/github/jeuxjeux20/orderedmultibinders/internal/binding/DefaultOrderedBindingFactory.java:22-35 | `create` returns null exactly when no target type is found, otherwise an ordered binding of the same binding, which without transformers is `fromType(targetType, binding)` |
| OrderedBindingFactory.Create | ordered-multibinders-core/src/main/java/com/github/jeuxjeux20/orderedmultibinders/internal/binding/DefaultOrderedBindingFactory.java:22-35 | `create` returns null exactly when the target-type finder does, and otherwise the transformed `fromType` value |
| OrderedBindingBiMapFactory.InverseGet | ordered-multibinders-core/src/main/java/com/github/jeuxjeux20/orderedmultibinders/MultibinderSorter.java:251 | the inverse lookup finds the one binding whose ordered binding equals the key, and nothing when there is none |
| OrderedBindingBiMapFactory.Build | ordered-multibinders-core/src/main/java/com/github/jeuxjeux20/orderedmultibinders/internal/binding/OrderedBindingBiMapFactory.java:41-45 | a successful build is a consistent bidirectional map whose keys are the bindings put, whose inverse keys are their identifiers, and which maps each binding to what was put for it |
| OrderedBindingBiMapFactory.CreateOrderedBindings | ordered-multibinders-core/src/main/java/com/github/jeuxjeux20/orderedmultibinders/internal/binding/OrderedBindingBiMapFactory.java:30-46 | the loop and the build give the registry, or the first exception |
| OrderedBindingBiMapFactory.EntriesFailurePersists | ordered-multibinders-core/src/main/java/com/github/jeuxjeux20/orderedmultibinders/internal/binding/OrderedBindingBiMapFactory.java:33-39 | once a call of the factory throws, the loop ends with that exception |
| OrderedBindingBiMapFactory.EntriesContents | ordered-multibinders-core/src/main/java/com/github/jeuxjeux20/orderedmultibinders/internal/binding/OrderedBindingBiMapFactory.java:33-39 | when the factory never throws, the entries put are exactly the bindings it maps to a non-null ordered binding, each with that ordered binding |
| OrderedBindingBiMapFactory.EntriesKeysAndIdentifiers | ordered-multibinders-core/src/main/java/com/github/jeuxjeux20/orderedmultibinders/internal/binding/OrderedBindingBiMapFactory.java:33-39 | the keys put are the bindings with an ordered binding, and the identifiers put are their identifiers |
| OrderedBindingBiMapFactory.BuildRefusesClash | ordered-multibinders-core/src/main/java/com/github/jeuxjeux20/orderedmultibinders/internal/binding/OrderedBindingBiMapFactory.java:41-45 | the build fails exactly when two positions of the list get the same identifier |
| OrderedBindingBiMapFactory.RegistryDuplicates | ordered-multibinders-core/src/main/java/com/github/jeuxjeux20/orderedmultibinders/internal/binding/OrderedBindingBiMapFactory.java:41-45 | when the factory never throws, `DuplicateIdentifiersException` is raised exactly when two bindings share an identifier, and the registry is built exactly when none do |
| OrderedBindingBiMapFactory.RegistryContents | ordered-multibinders-core/src/main/java/com/github/jeuxjeux20/orderedmultibinders/internal/binding/OrderedBindingBiMapFactory.java:30-46 | a built registry holds exactly the bindings with a non-null ordered binding, each with the factory's ordered binding, and no two equal ordered bindings |
| OrderedBindingBiMapFactory.EntriesSucceedOnlyIfFactoryDoes | ordered-multibinders-core/src/main/java/com/github/jeuxjeux20/orderedmultibinders/internal/binding/OrderedBindingBiMapFactory.java:33-39 | the loop completes only when no call of the factory throws |
| OrderedBindingBiMapFactory.ApplyAllErrors | ordered-multibinders-core/src/main/java/com/github/jeuxjeux20/orderedmultibinders/internal/binding/GenericParameterOrderedBindingTransformer.java:38-49 | the transformers only ever throw the missing-generic-argument exception, only when the generic-parameter transformer is in the list, and for an identifier whose class redirects to an argument index it is not parameterised for or has no argument at |
| OrderedBindingBiMapFactory.DuplicateIdentifiersMeansClash | ordered-multibinders-core/src/main/java/com/github/jeuxjeux20/orderedmultibinders/internal/binding/OrderedBindingBiMapFactory.java:41-45 | the registry reports duplicate identifiers exactly when the factory succeeds on every binding and two of them share an identifier |
| OrderedBindingBiMapFactory.EntriesErrors | ordered-multibinders-core/src/main/java/com/github/jeuxjeux20/orderedmultibinders/internal/binding/OrderedBindingBiMapFactory.java:33-39 | the `put` loop fails only with the missing-generic-argument exception, which is the exception the factory throws for one of the bindings, naming an identifier that lacks the redirected argument |
| Dag.DirectedAcyclicGraph.constructor | ordered-multibinders-core/src/main/java/com/github/jeuxjeux20/orderedmultibinders/MultibinderSorter.java:102-106 | a new graph is empty |
| Dag.DirectedAcyclicGraph.AddVertex | ordered-multibinders-core/src/main/java/com/github/jeuxjeux20/orderedmultibinders/MultibinderSorter.java:189-193 | adds the vertex and leaves the edges alone |
| Dag.DirectedAcyclicGraph.AddEdge | ordered-multibinders-core/src/main/java/com/github/jeuxjeux20/orderedmultibinders/MultibinderSorter.java:242-248 | refuses the edge exactly when its target already reaches its source (a loop included) and then changes nothing; reports an edge already present; otherwise adds it, so the graph stays acyclic |
| Dag.ReachableFrom | ordered-multibinders-core/src/main/java/com/github/jeuxjeux20/orderedmultibinders/MultibinderSorter.java:242-248 | the search returns exactly the vertices reachable from the start |
| Dag.AddKeepsAcyclic | ordered-multibinders-core/src/main/java/com/github/jeuxjeux20/orderedmultibinders/MultibinderSorter.java:242-248 | adding an edge to an acyclic graph keeps it acyclic exactly when the target does not reach the source |
| Dag.ForwardIsAcyclic | ordered-multibinders-core/src/main/java/com/github/jeuxjeux20/orderedmultibinders/MultibinderSorter.java:195-209 | edges that all point forward in some numbering form no cycle |
| Dag.SourceExists | ordered-multibinders-core/src/main/java/com/github/jeuxjeux20/orderedmultibinders/MultibinderSorter.java:69-82 | every non-empty set of vertices of an acyclic graph has a vertex with no predecessor inside it |
| TopologicalOrder.MinReady | ordered-multibinders-core/src/main/java/com/github/jeuxjeux20/orderedmultibinders/MultibinderSorter.java:69-80 | picks a ready vertex that no ready vertex ranks below, and picks nothing exactly when no vertex is ready |
| TopologicalOrder.FindMinReady | ordered-multibinders-core/src/main/java/com/github/jeuxjeux20/orderedmultibinders/MultibinderSorter.java:69-80 | the scan computes `MinReady` |
| TopologicalOrder.TopologicalOrderIterator | ordered-multibinders-core/src/main/java/com/github/jeuxjeux20/orderedmultibinders/MultibinderSorter.java:69-82 | the iterator emits the vertices in the order `KahnOrder` specifies |
| TopologicalOrder.ReadyExists | ordered-multibinders-core/src/main/java/com/github/jeuxjeux20/orderedmultibinders/MultibinderSorter.java:69-82 | while vertices remain in an acyclic graph one of them is ready |
| TopologicalOrder.KahnIsPermutation | ordered-multibinders-core/src/main/java/com/github/jeuxjeux20/orderedmultibinders/MultibinderSorter.java:69-82 | every vertex is emitted exactly once |
| TopologicalOrder.KahnElements | ordered-multibinders-core/src/main/java/com/github/jeuxjeux20/orderedmultibinders/MultibinderSorter.java:69-82 | the emitted order has no repetition and holds exactly the vertices |
| TopologicalOrder.KahnRespectsEdges | ordered-multibinders-core/src/main/java/com/github/jeuxjeux20/orderedmultibinders/MultibinderSorter.java:69-82 | for every edge the source is emitted before the target |
| TopologicalOrder.KahnIsGreedy | ordered-multibinders-core/src/main/java/com/github/jeuxjeux20/orderedmultibinders/MultibinderSorter.java:69-80 | each emitted vertex is the lowest-ranked among those whose predecessors are already out |
| TopologicalOrder.ForwardEdgesKeepOrder | ordered-multibinders-core/src/main/java/com/github/jeuxjeux20/orderedmultibinders/MultibinderSorter.java:62-83 | when every edge points forward in the list and ranks increase along it, the list comes back unchanged |
| MultibinderSorter.PositionsOfDistinct | ordered-multibinders-core/src/main/java/com/github/jeuxjeux20/orderedmultibinders/MultibinderSorter.java:162-169 | each binding of a list without repetition is mapped to its index |
| MultibinderSorter.CreateBindingPositions | ordered-multibinders-core/src/main/java/com/github/jeuxjeux20/orderedmultibinders/MultibinderSorter.java:162-169 | the loop builds the binding-to-index map |
| MultibinderSorter.SortContext.constructor | ordered-multibinders-core/src/main/java/com/github/jeuxjeux20/orderedmultibinders/MultibinderSorter.java:155-160 | the context keeps the bindings and the registry and computes the positions |
| MultibinderSorter.RegistryCoversBindings | ordered-multibinders-core/src/main/java/com/github/jeuxjeux20/orderedmultibinders/MultibinderSorter.java:55-60 | a registry with an entry for every binding lists each binding once and has no other key |
| MultibinderSorter.RegisteredIffCovered | ordered-multibinders-core/src/main/java/com/github/jeuxjeux20/orderedmultibinders/MultibinderSorter.java:211-213 | every binding has a registry entry exactly when the factory maps none of them to null, so the null dereference happens exactly otherwise |
| MultibinderSorter.ResolveFindsIdentifier | ordered-multibinders-core/src/main/java/com/github/jeuxjeux20/orderedmultibinders/MultibinderSorter.java:250-254 | looking up the equality token of a class finds the one binding whose identifier is that class, and nothing when none has it |
| MultibinderSorter.AddVertexes | ordered-multibinders-core/src/main/java/com/github/jeuxjeux20/orderedmultibinders/MultibinderSorter.java:189-193 | the graph gains one vertex per binding and no edge |
| MultibinderSorter.CreateImplicitEdges | ordered-multibinders-core/src/main/java/com/github/jeuxjeux20/orderedmultibinders/MultibinderSorter.java:195-209 | the graph gets exactly the implicit edges, from each candidate to the next one in the list |
| MultibinderSorter.FindByClassOrHandle | ordered-multibinders-core/src/main/java/com/github/jeuxjeux20/orderedmultibinders/MultibinderSorter.java:250-267 | returns the binding identified by the class; when none is, throws under `THROW` and returns nothing under `IGNORE` |
| MultibinderSorter.AddExplicitEdge | ordered-multibinders-core/src/main/java/com/github/jeuxjeux20/orderedmultibinders/MultibinderSorter.java:242-248 | adds the edge, keeps an existing one, or throws `CycleDetected` naming both identifiers when the edge would close a cycle |
| MultibinderSorter.AddConstraintEdges | ordered-multibinders-core/src/main/java/com/github/jeuxjeux20/orderedmultibinders/MultibinderSorter.java:220-238 | one binding's `before` classes, then its `after` classes, in order, each resolved and added or failing as specified |
| MultibinderSorter.AddOrderEdges | ordered-multibinders-core/src/main/java/com/github/jeuxjeux20/orderedmultibinders/MultibinderSorter.java:220-237 | one loop iteration: a binding without `@Order` adds nothing; otherwise its `before` then `after` requests are applied to the graph, and the graph holds exactly the resulting edges or the first exception is returned |
| MultibinderSorter.CreateExplicitEdges | ordered-multibinders-core/src/main/java/com/github/jeuxjeux20/orderedmultibinders/MultibinderSorter.java:219-240 | the requests of all bindings in list order, applied to the graph, first exception ending the loop |
| MultibinderSorter.CreateGraph | ordered-multibinders-core/src/main/java/com/github/jeuxjeux20/orderedmultibinders/MultibinderSorter.java:179-187 | a fresh acyclic graph over the bindings whose edges are the specified graph, or the specified exception |
| MultibinderSorter.SortElements | ordered-multibinders-core/src/main/java/com/github/jeuxjeux20/orderedmultibinders/MultibinderSorter.java:62-83 | under two bindings the list is returned as it is; otherwise the comparator-driven topological order |
| MultibinderSorter.Sort | ordered-multibinders-core/src/main/java/com/github/jeuxjeux20/orderedmultibinders/MultibinderSorter.java:40-53 | the result or exception of `sort` is the specified one |
| SorterProperties.ImplicitChainCharacterised | ordered-multibinders-core/src/main/java/com/github/jeuxjeux20/orderedmultibinders/MultibinderSorter.java:195-209 | the implicit edges join exactly the consecutive implicit candidates, and the last implicit binding is the last candidate |
| SorterProperties.ImplicitEdgesAcyclic | ordered-multibinders-core/src/main/java/com/github/jeuxjeux20/orderedmultibinders/MultibinderSorter.java:195-209 | the implicit edges never form a cycle |
| SorterProperties.ApplyRequestsSound | ordered-multibinders-core/src/main/java/com/github/jeuxjeux20/orderedmultibinders/MultibinderSorter.java:219-248 | applying requests only adds the resolved links and keeps the graph acyclic |
| SorterProperties.ApplyRequestsExact | ordered-multibinders-core/src/main/java/com/github/jeuxjeux20/orderedmultibinders/MultibinderSorter.java:219-248 | applying requests succeeds exactly when no class is unresolved under `THROW` and the links leave the graph acyclic, and then adds exactly the links |
| SorterProperties.ApplyRequestsErrors | ordered-multibinders-core/src/main/java/com/github/jeuxjeux20/orderedmultibinders/MultibinderSorter.java:219-248 | the only exceptions are an unresolved class under `THROW` and a cycle |
| SorterProperties.AddLinkPresent | ordered-multibinders-core/src/main/java/com/github/jeuxjeux20/orderedmultibinders/MultibinderSorter.java:242-248 | adding an edge already there changes nothing and throws nothing |
| SorterProperties.AddLinkSelf | ordered-multibinders-core/src/main/java/com/github/jeuxjeux20/orderedmultibinders/MultibinderSorter.java:269-276 | a binding ordered against itself throws `CycleDetected` naming its identifier twice |
| SorterProperties.ClassRequestsMembers | ordered-multibinders-core/src/main/java/com/github/jeuxjeux20/orderedmultibinders/MultibinderSorter.java:226-238 | a class list yields, per class, a link towards or from the binding it resolves to, or an unresolved request |
| SorterProperties.RequestsOfCharacterised | ordered-multibinders-core/src/main/java/com/github/jeuxjeux20/orderedmultibinders/MultibinderSorter.java:219-240 | a binding's links are exactly its resolved `before` successors and `after` predecessors, and its unresolved requests exactly its unresolved classes |
| SorterProperties.RequestsMembers | ordered-multibinders-core/src/main/java/com/github/jeuxjeux20/orderedmultibinders/MultibinderSorter.java:219-240 | the requests of a list are exactly the requests of its bindings |
| SorterProperties.BuildGraphExact | ordered-multibinders-core/src/main/java/com/github/jeuxjeux20/orderedmultibinders/MultibinderSorter.java:179-240 | the graph is built exactly when no class is unresolved under `THROW` and implicit plus explicit edges are acyclic, and its edges are then exactly those |
| SorterProperties.IgnoreOnlyFailsOnCycles | ordered-multibinders-core/src/main/java/com/github/jeuxjeux20/orderedmultibinders/MultibinderSorter.java:256-262 | under `IGNORE` the graph can fail only on a cycle |
| SorterProperties.SelfReferenceFails | ordered-multibinders-core/src/main/java/com/github/jeuxjeux20/orderedmultibinders/MultibinderSorter.java:242-248 | a binding whose `before` or `after` names its own class always makes the graph fail |
| SorterProperties.ThrowRejectsUnresolved | ordered-multibinders-core/src/main/java/com/github/jeuxjeux20/orderedmultibinders/MultibinderSorter.java:256-260 | under `THROW` a class that resolves to no binding always makes the graph fail |
| SorterProperties.FindPositionCases | ordered-multibinders-core/src/main/java/com/github/jeuxjeux20/orderedmultibinders/MultibinderSorter.java:85-100 | a non-zero `@Order` position is used as it is; otherwise the default provider decides (0 for `ZERO`, 0 for an implicit candidate under `CLOSEST`) |
| SorterProperties.CompareIsRankOrder | ordered-multibinders-core/src/main/java/com/github/jeuxjeux20/orderedmultibinders/MultibinderSorter.java:70-80 | the comparator orders by effective position, then by list index, is antisymmetric, and is 0 exactly on equal keys |
| SorterProperties.CompareIsTotal | ordered-multibinders-core/src/main/java/com/github/jeuxjeux20/orderedmultibinders/MultibinderSorter.java:136-147 | two bindings of a list without repetition compare equal only when they are the same binding |
| SorterProperties.CompareIsTransitive | ordered-multibinders-core/src/main/java/com/github/jeuxjeux20/orderedmultibinders/MultibinderSorter.java:70-80 | the comparator is transitive, so with antisymmetry and totality it is a strict total order |
| SorterProperties.ShortListIsKahn | ordered-multibinders-core/src/main/java/com/github/jeuxjeux20/orderedmultibinders/MultibinderSorter.java:63-66 | returning lists under two bindings as they are agrees with the topological order |
| SorterProperties.SortSpecIsKahn | ordered-multibinders-core/src/main/java/com/github/jeuxjeux20/orderedmultibinders/MultibinderSorter.java:40-83 | a successful sort of a non-empty list has a registry covering each binding once, and returns the topological order of the acyclic graph of implicit and explicit edges |
| SorterProperties.SortResult | ordered-multibinders-core/src/main/java/com/github/jeuxjeux20/orderedmultibinders/MultibinderSorter.java:40-83 | a successful sort returns a permutation of the bindings in which every edge points forward and each binding is the lowest-ranked ready one |
| SorterProperties.ForwardLinksGiveForwardEdges | ordered-multibinders-core/src/main/java/com/github/jeuxjeux20/orderedmultibinders/MultibinderSorter.java:195-240 | when every explicit link points forward in the list, so does every edge |
| SorterProperties.NonDecreasingPositionsRankForward | ordered-multibinders-core/src/main/java/com/github/jeuxjeux20/orderedmultibinders/MultibinderSorter.java:70-80 | effective positions that never decrease along the list make the comparator order equal the list order |
| SorterProperties.KahnKeepsOrderedInput | ordered-multibinders-core/src/main/java/com/github/jeuxjeux20/orderedmultibinders/MultibinderSorter.java:62-83 | forward links and non-decreasing positions leave the topological order equal to the input |
| SorterProperties.LinkEndsRegistered | ordered-multibinders-core/src/main/java/com/github/jeuxjeux20/orderedmultibinders/MultibinderSorter.java:250-254 | both ends of an explicit link are registered bindings |
| SorterProperties.ForwardLinksAreAcyclic | ordered-multibinders-core/src/main/java/com/github/jeuxjeux20/orderedmultibinders/MultibinderSorter.java:179-240 | forward-only links never close a cycle |
| SorterProperties.SortKeepsOrderedInput | ordered-multibinders-core/src/main/java/com/github/jeuxjeux20/orderedmultibinders/MultibinderSorter.java:40-83 | a list whose explicit constraints all point forward, whose classes all resolve under `THROW`, and whose positions never decrease comes back unchanged |
| SorterProperties.SortErrors | ordered-multibinders-core/src/main/java/com/github/jeuxjeux20/orderedmultibinders/MultibinderSorter.java:40-60 | every exception of `sort`: shared identifier (with a clash present), missing generic argument (thrown by the factory for one of the bindings, for an identifier lacking the redirected argument), null ordered binding (with a binding mapped to null), under `THROW` an unresolved class that some binding names in `before` or `after` and no binding carries as identifier, or a cycle naming the identifiers of the two ends of a requested edge |
| SorterProperties.GraphErrors | ordered-multibinders-core/src/main/java/com/github/jeuxjeux20/orderedmultibinders/MultibinderSorter.java:219-267 | building the graph fails only with an unresolved class under `THROW` that some binding names, or a cycle naming the identifiers of a requested edge's ends |
| ModuleMultibinderSorter.Without | ordered-multibinders-core/src/main/java/com/github/jeuxjeux20/orderedmultibinders/ModuleMultibinderSorter.java:38 | keeps exactly the elements not in the removed list, every occurrence of a removed element going |
| ModuleMultibinderSorter.WithoutAppend | ordered-multibinders-core/src/main/java/com/github/jeuxjeux20/orderedmultibinders/ModuleMultibinderSorter.java:38 | removal distributes over concatenation, so the kept elements stay in their relative order |
| ModuleMultibinderSorter.WithoutCounts | ordered-multibinders-core/src/main/java/com/github/jeuxjeux20/orderedmultibinders/ModuleMultibinderSorter.java:38 | an element removed loses all its occurrences; any other keeps its count |
| ModuleMultibinderSorter.WithoutNothing | ordered-multibinders-core/src/main/java/com/github/jeuxjeux20/orderedmultibinders/ModuleMultibinderSorter.java:38 | removing elements that are absent leaves the list unchanged |
| ModuleMultibinderSorter.WithoutEverything | ordered-multibinders-core/src/main/java/com/github/jeuxjeux20/orderedmultibinders/ModuleMultibinderSorter.java:38 | removing every element present leaves the list empty |
| ModuleMultibinderSorter.SpliceShape | ordered-multibinders-core/src/main/java/com/github/jeuxjeux20/orderedmultibinders/ModuleMultibinderSorter.java:38-39 | after remove-then-append the list ends with the sorted block, preceded by the rest of the list in its old order |
| ModuleMultibinderSorter.SpliceIdempotent | ordered-multibinders-core/src/main/java/com/github/jeuxjeux20/orderedmultibinders/ModuleMultibinderSorter.java:38-39 | splicing the same sorted block twice is the same as once |
| ModuleMultibinderSorter.SpliceIsPermutation | ordered-multibinders-core/src/main/java/com/github/jeuxjeux20/orderedmultibinders/ModuleMultibinderSorter.java:38-39 | splicing a block whose elements occur once each in the list only reorders the list |
| ModuleMultibinderSorter.ElementList.constructor | ordered-multibinders-core/src/main/java/com/github/jeuxjeux20/orderedmultibinders/ModuleMultibinderSorter.java:31 | the list starts as the module's elements |
| ModuleMultibinderSorter.ElementList.RemoveAll | ordered-multibinders-core/src/main/java/com/github/jeuxjeux20/orderedmultibinders/ModuleMultibinderSorter.java:38 | removes every occurrence of every given element, keeping the rest in order |
| ModuleMultibinderSorter.ElementList.AddAll | ordered-multibinders-core/src/main/java/com/github/jeuxjeux20/orderedmultibinders/ModuleMultibinderSorter.java:39 | appends the given elements in order |
| ModuleMultibinderSorter.ContentBindings | ordered-multibinders-core/src/main/java/com/github/jeuxjeux20/orderedmultibinders/MultibinderSorter.java:41 | holds exactly the elements of the current list that are content of the multibinder |
| ModuleMultibinderSorter.ContentCounts | ordered-multibinders-core/src/main/java/com/github/jeuxjeux20/orderedmultibinders/MultibinderSorter.java:41 | the content bindings carry every occurrence of a content element and nothing else |
| ModuleMultibinderSorter.SortAllFailurePersists | ordered-multibinders-core/src/main/java/com/github/jeuxjeux20/orderedmultibinders/ModuleMultibinderSorter.java:34-40 | an exception for one multibinder ends the whole loop with it |
| ModuleMultibinderSorter.Sort | ordered-multibinders-core/src/main/java/com/github/jeuxjeux20/orderedmultibinders/ModuleMultibinderSorter.java:30-43 | the loop leaves the list, or the first exception, that `SortAll` specifies, each multibinder sorted against the list as the previous ones left it |
| ModuleMultibinderSorter.SortStepIsPermutation | ordered-multibinders-core/src/main/java/com/github/jeuxjeux20/orderedmultibinders/ModuleMultibinderSorter.java:35-39 | one successful sort-and-splice step neither loses nor duplicates an element |
| ModuleMultibinderSorter.SortAllIsPermutation | ordered-multibinders-core/src/main/java/com/github/jeuxjeux20/orderedmultibinders/ModuleMultibinderSorter.java:30-43 | a successful run only reorders the module's elements |
| ModuleMultibinderSorter.SortAllWithoutContent | ordered-multibinders-core/src/test/java/com/github/jeuxjeux20/orderedmultibinders/OrderedMultibinderTests.java:109-116 | multibinders with no content (`no_items_with_0`) leave the element list exactly as it was |
| Scenarios.BackOrdered | ordered-multibinders-core/src/test/java/com/github/jeuxjeux20/orderedmultibinders/OrderedMultibinderTests.java:176-186 | `back_ordered`: `First before Second`, `Second before Last` keeps `[First, Second, Last]` |
| Scenarios.FrontOrdered | ordered-multibinders-core/src/test/java/com/github/jeuxjeux20/orderedmultibinders/OrderedMultibinderTests.java:188-198 | `front_ordered`: `Second after First`, `Last after Second` keeps the list |
| Scenarios.BothWaysOrdered | ordered-multibinders-core/src/test/java/com/github/jeuxjeux20/orderedmultibinders/OrderedMultibinderTests.java:200-211 | `both_ways_ordered`: constraints given from both sides keep the list |
| Scenarios.PositionConflict | ordered-multibinders-core/src/test/java/com/github/jeuxjeux20/orderedmultibinders/OrderedMultibinderTests.java:213-223 | `uses_multibinder_set_position_on_conflict`: two bindings after `First` keep their list order |
| Scenarios.BeforeFirstWithNegativePosition | ordered-multibinders-core/src/test/java/com/github/jeuxjeux20/orderedmultibinders/OrderedMultibinderTests.java:225-237 | `[First, Last, PutMeFirst]` with `PutMeFirst` before `Last` at position -1 sorts to `[PutMeFirst, First, Last]` |
| Scenarios.BeforeInBetweenWithPositivePosition | ordered-multibinders-core/src/test/java/com/github/jeuxjeux20/orderedmultibinders/OrderedMultibinderTests.java:239-251 | `[First, Last, PutMeInBetween]` with before `Last` at position 1 sorts to `[First, PutMeInBetween, Last]` |
| Scenarios.AfterInBetweenWithNegativePosition | ordered-multibinders-core/src/test/java/com/github/jeuxjeux20/orderedmultibinders/OrderedMultibinderTests.java:253-265 | `[First, Last, PutMeInBetween]` with after `First` at position -1 sorts to `[First, PutMeInBetween, Last]` |
| Scenarios.AfterLastWithPositivePosition | ordered-multibinders-core/src/test/java/com/github/jeuxjeux20/orderedmultibinders/OrderedMultibinderTests.java:267-279 | `[First, PutMeLast, Last]` with after `Last` at position 1 sorts to `[First, Last, PutMeLast]` |
| Scenarios.CircularReference | ordered-multibinders-core/src/test/java/com/github/jeuxjeux20/orderedmultibinders/OrderedMultibinderTests.java:283-291 | `First after Second` and `Second after First` throw `CycleDetected` between `First` and `Second` |
| Scenarios.SelfReference | ordered-multibinders-core/src/test/java/com/github/jeuxjeux20/orderedmultibinders/OrderedMultibinderTests.java:293-298 | `First after First` throws `CycleDetected` between `First` and itself |
| Scenarios.IrresolvableIdentifier | ordered-multibinders-core/src/test/java/com/github/jeuxjeux20/orderedmultibinders/OrderedMultibinderTests.java:74-91 | an `after` class bound nowhere throws `UnableToResolveClassAsBinding` under `THROW` and is skipped under `IGNORE` |
| Scenarios.DuplicateIdentifiersRejected | ordered-multibinders-core/src/test/java/com/github/jeuxjeux20/orderedmultibinders/OrderedMultibinderTests.java:309-317 | two classes both `@IdentifiedAs(First)` throw `DuplicateIdentifiers` |
| Scenarios.SameItemWithOne | ordered-multibinders-core/src/test/java/com/github/jeuxjeux20/orderedmultibinders/OrderedMultibinderTests.java:98-107 | `same_item_with_1`: one binding without `@Order` comes back alone, in any configuration |

## Left out

- **Guice plumbing.** `Elements.getElements`, `Elements.getModule`, the injector
  and `MultibinderFinder` are not modelled. The multibinders of a module are a
  parameter. Whether an element is a content binding of a multibinder is a
  function parameter `isContent`.
- **`BindingTargetTypeFinder`** is a function parameter of the factory.
  Returning nothing stands for the `null` it gives on an exposed binding.
- **`AnnotationsOrderedBindingTransformer`** is not modelled. The default
  factory's transformer list is a parameter. It holds the two built-in
  transformers, so the duplicate-identifier scenario uses the `@IdentifiedAs`
  transformer directly.
- **Graph normalisation.** No pass re-routes implicit edges around explicit
  ones. The code has no such pass, and the model follows the code: implicit
  edges stay as `createImplicitEdges` adds them.
- **jgrapht internals.** Only what `addVertex`, `addEdge` and
  `TopologicalOrderIterator` promise is modelled: the cycle refusal, the
  already-present edge, and the comparator-minimal ready vertex.
- **Edge flag and messages.** The `isExplicit` flag of `BindingEdge`,
  `toString`, and exception messages are left out. Only each exception's kind
  and the identifiers it names are kept.
- **Null arguments to the builder.** Values in the model cannot be null, so the
  `requireNonNull` checks of `Builder.identifier`/`Builder.binding` cannot fail.
  Only the constructor's null checks are modelled (`OrderedBindings.New`).
- **Unknown `UnresolvableClassHandling` value.** The `default` branch that
  throws `UnsupportedOperationException` is unreachable with a two-valued enum.
- **Integer width.** `Order.position` is an unbounded integer. Positions are
  only compared (`Integer.compare`), so no overflow arises in the source either.
- **Registry entries for `CycleDetected`.** `IdentifierIn` is used for the
  identifiers named by `CycleDetected`. It falls back to an arbitrary identifier
  for a binding with no registry entry, which `sort` never reaches because it
  fails with `NullOrderedBinding` first.
- **Proof scope.** Orderings are proved for the orders the tests use and, in
  general, for forward-only constraints (`SorterProperties.SortKeepsOrderedInput`).
- **Test harness.** Resolving the sorted module through an injector into a
  `Set` (`OrderedMultibinderTests.resolveSet`) is not modelled. The scenarios
  state the sorted binding list instead.
