/**
 * `OrderedBindingBiMapFactory`: the identifier registry of one multibinder.
 * It pairs every binding with its ordered binding in a bidirectional map and
 * rejects two entries that share an identifier.
 */
module OrderedBindingBiMapFactory {
  import opened Wrappers
  import opened Guice
  import opened Errors
  import opened OrderedBindings
  import opened Transformers
  import opened OrderedBindingFactory

  /**
   * An `ImmutableBiMap<Binding, OrderedBinding>`. Ordered bindings are equal
   * exactly when their identifiers are, so the inverse direction is keyed by
   * identifier.
   */
  datatype BiMap = BiMap(forward: map<Binding, OrderedBinding>, inverse: map<TypeLiteral, Binding>)

  /** The two directions agree: each is the inverse of the other. */
  ghost predicate ValidBiMap(m: BiMap) {
    && (forall b :: b in m.forward ==> m.forward[b].identifier in m.inverse && m.inverse[m.forward[b].identifier] == b)
    && (forall t :: t in m.inverse ==> m.inverse[t] in m.forward && m.forward[m.inverse[t]].identifier == t)
  }

  /** `inverse().get(key)`: the binding whose ordered binding equals `key`, if any. */
  function InverseGet(m: BiMap, key: OrderedBinding): (r: Option<Binding>)
    requires ValidBiMap(m)
    ensures r.Some? <==> exists b :: b in m.forward && Equals(m.forward[b], key)
    ensures r.Some? ==> r.value in m.forward && Equals(m.forward[r.value], key)
    ensures r.Some? ==> forall b :: b in m.forward && Equals(m.forward[b], key) ==> b == r.value
  {
    if key.identifier in m.inverse then Some(m.inverse[key.identifier]) else None
  }

  /** One `put` into the bimap builder. */
  type Entry = (Binding, OrderedBinding)

  function Keys(entries: seq<Entry>): set<Binding> {
    set e | e in entries :: e.0
  }

  function Identifiers(entries: seq<Entry>): set<TypeLiteral> {
    set e | e in entries :: e.1.identifier
  }

  /**
   * `ImmutableBiMap.Builder.build()` over the `put`s made so far: `None` stands
   * for its `IllegalArgumentException`, raised when a key or a value (that is,
   * an identifier) occurs twice.
   */
  function Build(entries: seq<Entry>): (r: Option<BiMap>)
    ensures r.Some? ==> ValidBiMap(r.value)
    ensures r.Some? ==> r.value.forward.Keys == Keys(entries) && r.value.inverse.Keys == Identifiers(entries)
    ensures r.Some? ==> forall e :: e in entries ==> r.value.forward[e.0] == e.1
  {
    if entries == [] then Some(BiMap(map[], map[]))
    else
      var prefix := entries[..|entries| - 1];
      var last := entries[|entries| - 1];
      assert entries == prefix + [last];
      match Build(prefix)
      case None => None
      case Some(m) =>
        if last.0 in m.forward || last.1.identifier in m.inverse then None
        else Some(BiMap(m.forward[last.0 := last.1], m.inverse[last.1.identifier := last.0]))
  }

  /** The `put`s the loop makes: one per binding whose ordered binding is not null, in list order. */
  function Entries(factory: DefaultOrderedBindingFactory, bindings: seq<Binding>): Result<seq<Entry>, SortError> {
    if bindings == [] then Success([])
    else
      match Entries(factory, bindings[..|bindings| - 1])
      case Failure(e) => Failure(e)
      case Success(entries) =>
        var last := bindings[|bindings| - 1];
        match OrderedBindingOf(factory, last)
        case Failure(e) => Failure(e)
        case Success(None) => Success(entries)
        case Success(Some(ob)) => Success(entries + [(last, ob)])
  }

  /** What `createOrderedBindings` returns or throws. */
  function Registry(factory: DefaultOrderedBindingFactory, bindings: seq<Binding>): Result<BiMap, SortError> {
    match Entries(factory, bindings)
    case Failure(e) => Failure(e)
    case Success(entries) =>
      match Build(entries)
      case None => Failure(DuplicateIdentifiers)
      case Some(m) => Success(m)
  }

  /** `createOrderedBindings`: calls the factory once per binding, in order, then builds. */
  method CreateOrderedBindings(factory: DefaultOrderedBindingFactory, bindings: seq<Binding>)
    returns (r: Result<BiMap, SortError>)
    ensures r == Registry(factory, bindings)
  {
    var entries: seq<Entry> := [];
    for i := 0 to |bindings|
      invariant Entries(factory, bindings[..i]) == Success(entries)
    {
      assert bindings[..i + 1][..i] == bindings[..i];
      var ob := Create(factory, bindings[i]);
      if ob.Failure? {
        EntriesFailurePersists(factory, bindings, i + 1);
        return Failure(ob.error);
      }
      if ob.value.Some? {
        entries := entries + [(bindings[i], ob.value.value)];
      }
    }
    assert bindings[..|bindings|] == bindings;
    var built := Build(entries);
    if built.None? {
      return Failure(DuplicateIdentifiers);
    }
    r := Success(built.value);
  }

  /** An exception thrown for some binding is thrown for the whole list. */
  lemma {:induction false} EntriesFailurePersists(factory: DefaultOrderedBindingFactory, bindings: seq<Binding>, k: nat)
    requires k <= |bindings| && Entries(factory, bindings[..k]).Failure?
    ensures Entries(factory, bindings) == Entries(factory, bindings[..k])
    decreases |bindings| - k
  {
    if k < |bindings| {
      assert bindings[..k + 1][..k] == bindings[..k];
      EntriesFailurePersists(factory, bindings, k + 1);
    } else {
      assert bindings[..k] == bindings;
    }
  }

  /** The factory succeeds on every binding of the list. */
  ghost predicate FactorySucceeds(factory: DefaultOrderedBindingFactory, bindings: seq<Binding>) {
    forall i :: 0 <= i < |bindings| ==> OrderedBindingOf(factory, bindings[i]).Success?
  }

  /** The identifier the factory gives a binding, if it gives it an ordered binding. */
  function IdentifierOf(factory: DefaultOrderedBindingFactory, b: Binding): Option<TypeLiteral> {
    match OrderedBindingOf(factory, b)
    case Success(Some(ob)) => Some(ob.identifier)
    case _ => None
  }

  /** Two positions of the list whose bindings get the same identifier. */
  ghost predicate IdentifierClash(factory: DefaultOrderedBindingFactory, bindings: seq<Binding>) {
    exists i, j :: 0 <= i < j < |bindings| && IdentifierOf(factory, bindings[i]).Some? &&
      IdentifierOf(factory, bindings[i]) == IdentifierOf(factory, bindings[j])
  }

  /** When the factory never throws, the entries are exactly the bindings it does not map to null. */
  lemma {:induction false} EntriesContents(factory: DefaultOrderedBindingFactory, bindings: seq<Binding>)
    requires FactorySucceeds(factory, bindings)
    ensures Entries(factory, bindings).Success?
    ensures forall x :: x in Entries(factory, bindings).value <==>
      x.0 in bindings && OrderedBindingOf(factory, x.0) == Success(Some(x.1))
  {
    if bindings != [] {
      var prefix := bindings[..|bindings| - 1];
      var last := bindings[|bindings| - 1];
      assert bindings == prefix + [last];
      assert forall i :: 0 <= i < |prefix| ==> prefix[i] == bindings[i];
      EntriesContents(factory, prefix);
    }
  }

  /** Keys and identifiers of the entries, in terms of the bindings. */
  lemma EntriesKeysAndIdentifiers(factory: DefaultOrderedBindingFactory, bindings: seq<Binding>)
    requires FactorySucceeds(factory, bindings)
    ensures Entries(factory, bindings).Success?
    ensures forall b :: b in Keys(Entries(factory, bindings).value) <==> b in bindings && IdentifierOf(factory, b).Some?
    ensures forall t :: t in Identifiers(Entries(factory, bindings).value) <==>
      exists p :: 0 <= p < |bindings| && IdentifierOf(factory, bindings[p]) == Some(t)
  {
    EntriesContents(factory, bindings);
    var entries := Entries(factory, bindings).value;
    forall b | b in bindings && IdentifierOf(factory, b).Some?
      ensures b in Keys(entries)
    {
      assert (b, OrderedBindingOf(factory, b).value.value) in entries;
    }
    forall t | exists p :: 0 <= p < |bindings| && IdentifierOf(factory, bindings[p]) == Some(t)
      ensures t in Identifiers(entries)
    {
      var p :| 0 <= p < |bindings| && IdentifierOf(factory, bindings[p]) == Some(t);
      assert (bindings[p], OrderedBindingOf(factory, bindings[p]).value.value) in entries;
    }
    forall t | t in Identifiers(entries)
      ensures exists p :: 0 <= p < |bindings| && IdentifierOf(factory, bindings[p]) == Some(t)
    {
      var e :| e in entries && e.1.identifier == t;
      var p :| 0 <= p < |bindings| && bindings[p] == e.0;
      assert IdentifierOf(factory, bindings[p]) == Some(t);
    }
  }

  /** A clash in a longer list is one in its prefix or one with its last binding. */
  lemma ClashStep(factory: DefaultOrderedBindingFactory, bindings: seq<Binding>)
    requires bindings != []
    ensures var prefix := bindings[..|bindings| - 1];
      var lastId := IdentifierOf(factory, bindings[|bindings| - 1]);
      IdentifierClash(factory, bindings) <==>
        IdentifierClash(factory, prefix) ||
        (lastId.Some? && exists p :: 0 <= p < |prefix| && IdentifierOf(factory, prefix[p]) == lastId)
  {
    var prefix := bindings[..|bindings| - 1];
    var lastId := IdentifierOf(factory, bindings[|bindings| - 1]);
    assert forall k :: 0 <= k < |prefix| ==> prefix[k] == bindings[k];
    if IdentifierClash(factory, bindings) {
      var i, j :| 0 <= i < j < |bindings| && IdentifierOf(factory, bindings[i]).Some? &&
        IdentifierOf(factory, bindings[i]) == IdentifierOf(factory, bindings[j]);
      if j == |prefix| {
        assert IdentifierOf(factory, prefix[i]) == lastId;
      }
    }
    if lastId.Some? && exists p :: 0 <= p < |prefix| && IdentifierOf(factory, prefix[p]) == lastId {
      var p :| 0 <= p < |prefix| && IdentifierOf(factory, prefix[p]) == lastId;
      assert IdentifierOf(factory, bindings[p]) == IdentifierOf(factory, bindings[|prefix|]);
    }
  }

  /** One more `put` makes the builder refuse exactly when it repeats a key or an identifier already put. */
  lemma BuildAppend(entries: seq<Entry>, e: Entry)
    ensures Build(entries + [e]).None? <==>
      Build(entries).None? || e.0 in Keys(entries) || e.1.identifier in Identifiers(entries)
  {
    var all := entries + [e];
    assert all[..|all| - 1] == entries && all[|all| - 1] == e;
  }

  /** When the factory never throws, the builder refuses the `put`s exactly when two bindings share an identifier. */
  lemma {:induction false} BuildRefusesClash(factory: DefaultOrderedBindingFactory, bindings: seq<Binding>)
    requires FactorySucceeds(factory, bindings)
    ensures Entries(factory, bindings).Success?
    ensures Build(Entries(factory, bindings).value).None? <==> IdentifierClash(factory, bindings)
  {
    EntriesContents(factory, bindings);
    if bindings != [] {
      var prefix := bindings[..|bindings| - 1];
      var last := bindings[|bindings| - 1];
      assert forall i :: 0 <= i < |prefix| ==> prefix[i] == bindings[i];
      BuildRefusesClash(factory, prefix);
      EntriesKeysAndIdentifiers(factory, prefix);
      ClashStep(factory, bindings);
      var entries := Entries(factory, prefix).value;
      if IdentifierOf(factory, last).Some? {
        var ob := OrderedBindingOf(factory, last).value.value;
        BuildAppend(entries, (last, ob));
        if last in Keys(entries) {
          var p :| 0 <= p < |prefix| && prefix[p] == last;
          assert IdentifierOf(factory, prefix[p]) == IdentifierOf(factory, last);
        }
      }
    }
  }

  /**
   * The registry's outcome when the factory never throws: it fails with
   * `DuplicateIdentifiers`, and builds no map at all, exactly when two
   * bindings get the same identifier.
   */
  lemma RegistryDuplicates(factory: DefaultOrderedBindingFactory, bindings: seq<Binding>)
    requires FactorySucceeds(factory, bindings)
    ensures Registry(factory, bindings) == Failure(DuplicateIdentifiers) <==> IdentifierClash(factory, bindings)
    ensures Registry(factory, bindings).Success? <==> !IdentifierClash(factory, bindings)
  {
    BuildRefusesClash(factory, bindings);
  }

  /**
   * On success the registry has exactly one entry per binding the factory does
   * not map to null, holding the factory's ordered binding, and no two entries
   * are equal ordered bindings.
   */
  lemma RegistryContents(factory: DefaultOrderedBindingFactory, bindings: seq<Binding>)
    requires Registry(factory, bindings).Success?
    ensures FactorySucceeds(factory, bindings)
    ensures var m := Registry(factory, bindings).value;
      && ValidBiMap(m)
      && (forall b :: b in m.forward <==> b in bindings && IdentifierOf(factory, b).Some?)
      && (forall b :: b in m.forward ==> OrderedBindingOf(factory, b) == Success(Some(m.forward[b])))
      && (forall b1, b2 :: b1 in m.forward && b2 in m.forward && Equals(m.forward[b1], m.forward[b2]) ==> b1 == b2)
  {
    EntriesSucceedOnlyIfFactoryDoes(factory, bindings);
    EntriesContents(factory, bindings);
    EntriesKeysAndIdentifiers(factory, bindings);
    var entries := Entries(factory, bindings).value;
    var m := Registry(factory, bindings).value;
    forall b | b in m.forward
      ensures OrderedBindingOf(factory, b) == Success(Some(m.forward[b]))
    {
      var e :| e in entries && e.0 == b;
    }
  }

  /** The `put`s are collected only when no call of the factory throws. */
  lemma {:induction false} EntriesSucceedOnlyIfFactoryDoes(factory: DefaultOrderedBindingFactory, bindings: seq<Binding>)
    requires Entries(factory, bindings).Success?
    ensures FactorySucceeds(factory, bindings)
  {
    if bindings != [] {
      var prefix := bindings[..|bindings| - 1];
      EntriesSucceedOnlyIfFactoryDoes(factory, prefix);
      assert forall i :: 0 <= i < |prefix| ==> prefix[i] == bindings[i];
    }
  }

  /**
   * A transformer only ever throws the generic-argument exception, never
   * `DuplicateIdentifiers`, and only the generic-parameter transformer throws
   * it, for an identifier that lacks the redirected argument.
   */
  lemma {:induction false} ApplyAllErrors(reflection: Annotations.Reflection, transformers: seq<Transformer>, ob: OrderedBinding)
    ensures ApplyAll(reflection, transformers, ob).Failure? ==>
      var e := ApplyAll(reflection, transformers, ob).error;
      && e.CannotFindGenericArgument?
      && MissingGenericArgument(reflection, e.identifier, e.argumentIndex)
      && GenericParameterTransformer in transformers
  {
    if transformers != [] {
      ApplyAllErrors(reflection, transformers[..|transformers| - 1], ob);
    }
  }

  /** The registry fails with `DuplicateIdentifiers` only because of an identifier clash. */
  lemma {:induction false} DuplicateIdentifiersMeansClash(factory: DefaultOrderedBindingFactory, bindings: seq<Binding>)
    ensures Registry(factory, bindings) == Failure(DuplicateIdentifiers) <==>
      FactorySucceeds(factory, bindings) && IdentifierClash(factory, bindings)
  {
    if Entries(factory, bindings).Success? {
      EntriesSucceedOnlyIfFactoryDoes(factory, bindings);
      RegistryDuplicates(factory, bindings);
    } else {
      EntriesErrors(factory, bindings);
      if FactorySucceeds(factory, bindings) {
        EntriesContents(factory, bindings);
      }
    }
  }

  /**
   * The loop fails only with the generic-argument exception, raised by the
   * factory for one of the bindings, for an identifier that lacks the
   * redirected argument.
   */
  lemma {:induction false} EntriesErrors(factory: DefaultOrderedBindingFactory, bindings: seq<Binding>)
    ensures Entries(factory, bindings).Failure? ==>
      var e := Entries(factory, bindings).error;
      && e.CannotFindGenericArgument?
      && MissingGenericArgument(factory.reflection, e.identifier, e.argumentIndex)
      && exists b :: b in bindings && OrderedBindingOf(factory, b) == Failure(e)
  {
    if bindings != [] {
      var prefix := bindings[..|bindings| - 1];
      var last := bindings[|bindings| - 1];
      EntriesErrors(factory, prefix);
      if Entries(factory, prefix).Failure? {
        var b :| b in prefix && OrderedBindingOf(factory, b) == Failure(Entries(factory, prefix).error);
        assert b in bindings;
      } else if factory.bindingTargetTypeFinder(last).Some? {
        var t := factory.bindingTargetTypeFinder(last).value;
        ApplyAllErrors(factory.reflection, factory.transformers, FromType(factory.reflection, t, last));
      }
    }
  }
}
