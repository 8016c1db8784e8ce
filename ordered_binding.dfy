/**
 * `OrderedBinding`: a binding together with the identifier other bindings use
 * to refer to it and its optional `@Order` annotation. The value is immutable;
 * its `Builder` is the one mutable object, used to derive modified copies.
 */
module OrderedBindings {
  import opened Wrappers
  import opened Guice
  import opened Annotations
  import opened Errors

  datatype OrderedBinding = OrderedBinding(identifier: TypeLiteral, binding: Binding, order: Option<Order>)

  /**
   * The public constructor: `requireNonNull` on the identifier, then on the
   * binding; the order may be absent. Java's null is `None` here.
   */
  function New(identifier: Option<TypeLiteral>, binding: Option<Binding>, order: Option<Order>)
    : (r: Result<OrderedBinding, SortError>)
    ensures r.Success? <==> identifier.Some? && binding.Some?
    ensures r.Success? ==> r.value.identifier == identifier.value && r.value.binding == binding.value
    ensures r.Success? ==> r.value.order == order
    ensures identifier.None? ==> r == Failure(NullArgument("identifier"))
    ensures identifier.Some? && binding.None? ==> r == Failure(NullArgument("binding"))
  {
    if identifier.None? then Failure(NullArgument("identifier"))
    else if binding.None? then Failure(NullArgument("binding"))
    else Success(OrderedBinding(identifier.value, binding.value, order))
  }

  /** `fromType`: the order is the `@Order` annotation of the identifier's raw class. */
  function FromType(reflection: Reflection, identifier: TypeLiteral, binding: Binding): (r: OrderedBinding)
    ensures r.identifier == identifier && r.binding == binding
    ensures r.order == reflection.orderOf(RawType(identifier))
  {
    OrderedBinding(identifier, binding, reflection.orderOf(RawType(identifier)))
  }

  /** `equals`: two ordered bindings are equal when their identifiers are. */
  predicate Equals(a: OrderedBinding, b: OrderedBinding) {
    a.identifier == b.identifier
  }

  /** `hashCode`: the hash of the identifier, for a given hash of type literals. */
  function HashCode(ob: OrderedBinding, typeHash: TypeLiteral -> int): int {
    typeHash(ob.identifier)
  }

  /** `equalityToken`: a lookup key carrying only an identifier. */
  function EqualityToken(identifier: TypeLiteral): (token: OrderedBinding)
    ensures token.order.None? && token.binding == NullBinding
    ensures forall ob :: Equals(token, ob) <==> ob.identifier == identifier
  {
    OrderedBinding(identifier, NullBinding, None)
  }

  /** Equality ignores the binding and the order, and is an equivalence. */
  lemma EqualsIsIdentifierEquality(a: OrderedBinding, b: OrderedBinding, binding: Binding, order: Option<Order>)
    ensures Equals(a, b) <==> Equals(a, b.(binding := binding, order := order))
    ensures Equals(a, a)
    ensures Equals(a, b) ==> Equals(b, a)
    ensures forall c :: Equals(a, b) && Equals(b, c) ==> Equals(a, c)
  {
  }

  /** `hashCode` is consistent with `equals`. */
  lemma HashCodeConsistentWithEquals(a: OrderedBinding, b: OrderedBinding, typeHash: TypeLiteral -> int)
    requires Equals(a, b)
    ensures HashCode(a, typeHash) == HashCode(b, typeHash)
  {
  }

  /** One call a `change` consumer makes on the builder. */
  datatype BuilderEdit =
    | SetIdentifier(identifier: TypeLiteral)
    | SetBinding(binding: Binding)
    | SetOrder(order: Option<Order>)

  /** The effect of one setter on the values the builder holds. */
  function Edit(ob: OrderedBinding, e: BuilderEdit): OrderedBinding {
    match e
    case SetIdentifier(t) => ob.(identifier := t)
    case SetBinding(b) => ob.(binding := b)
    case SetOrder(o) => ob.(order := o)
  }

  /** What `change` builds: the receiver's values after the consumer's setter calls, in order. */
  function Changed(ob: OrderedBinding, edits: seq<BuilderEdit>): OrderedBinding {
    if edits == [] then ob else Edit(Changed(ob, edits[..|edits| - 1]), edits[|edits| - 1])
  }

  /** A consumer that calls no setter gives back an equal copy: `builder(ob).build()` reproduces `ob`. */
  lemma ChangedNothing(ob: OrderedBinding)
    ensures Changed(ob, []) == ob
  {
  }

  /** The two consumers the transformers pass to `change`. */
  lemma ChangedByTransformerConsumers(ob: OrderedBinding, t: TypeLiteral, o: Option<Order>)
    ensures Changed(ob, [SetIdentifier(t)]) == ob.(identifier := t)
    ensures Changed(ob, [SetIdentifier(t), SetOrder(o)]) == ob.(identifier := t, order := o)
  {
    assert [SetIdentifier(t)][..0] == [];
    assert [SetIdentifier(t), SetOrder(o)][..1] == [SetIdentifier(t)];
  }

  /**
   * Each setter touches only its own field: a field that no edit sets keeps
   * the receiver's value, and a field's final value is the one the last edit
   * of that kind set.
   */
  lemma {:induction false} ChangedKeepsUnsetFields(ob: OrderedBinding, edits: seq<BuilderEdit>)
    ensures (forall i :: 0 <= i < |edits| ==> !edits[i].SetIdentifier?) ==> Changed(ob, edits).identifier == ob.identifier
    ensures (forall i :: 0 <= i < |edits| ==> !edits[i].SetBinding?) ==> Changed(ob, edits).binding == ob.binding
    ensures (forall i :: 0 <= i < |edits| ==> !edits[i].SetOrder?) ==> Changed(ob, edits).order == ob.order
  {
    if edits != [] {
      var prefix := edits[..|edits| - 1];
      ChangedKeepsUnsetFields(ob, prefix);
      assert forall i :: 0 <= i < |prefix| ==> prefix[i] == edits[i];
    }
  }

  lemma {:induction false} ChangedLastEditWins(ob: OrderedBinding, edits: seq<BuilderEdit>, k: nat)
    requires k < |edits|
    ensures edits[k].SetIdentifier? && (forall i :: k < i < |edits| ==> !edits[i].SetIdentifier?)
      ==> Changed(ob, edits).identifier == edits[k].identifier
    ensures edits[k].SetBinding? && (forall i :: k < i < |edits| ==> !edits[i].SetBinding?)
      ==> Changed(ob, edits).binding == edits[k].binding
    ensures edits[k].SetOrder? && (forall i :: k < i < |edits| ==> !edits[i].SetOrder?)
      ==> Changed(ob, edits).order == edits[k].order
  {
    var prefix := edits[..|edits| - 1];
    assert forall i :: 0 <= i < |prefix| ==> prefix[i] == edits[i];
    if k < |edits| - 1 {
      ChangedLastEditWins(ob, prefix, k);
    }
  }

  /** `OrderedBinding.Builder`: mutable holder of the three fields. */
  class Builder {
    var identifier: TypeLiteral
    var binding: Binding
    var order: Option<Order>

    /** The ordered binding `build()` would return now. */
    function State(): OrderedBinding
      reads this
    {
      OrderedBinding(identifier, binding, order)
    }

    /** `new Builder(orderedBinding)` / `builder(orderedBinding)`: copies every field. */
    constructor FromOrderedBinding(ob: OrderedBinding)
      ensures State() == ob
    {
      identifier := ob.identifier;
      binding := ob.binding;
      order := ob.order;
    }

    /** `new Builder(identifier, binding)`: starts from `fromType`, so the order is read from the identifier. */
    constructor ForType(reflection: Reflection, identifier: TypeLiteral, binding: Binding)
      ensures State() == FromType(reflection, identifier, binding)
    {
      this.identifier := identifier;
      this.binding := binding;
      this.order := reflection.orderOf(RawType(identifier));
    }

    method SetIdentifier(t: TypeLiteral)
      modifies this
      ensures identifier == t && binding == old(binding) && order == old(order)
    {
      identifier := t;
    }

    /** `identifier(Class)`: the class is wrapped by `TypeLiteral.get`. */
    method SetIdentifierClass(c: ClassName)
      modifies this
      ensures identifier == ClassType(c) && binding == old(binding) && order == old(order)
    {
      identifier := ClassType(c);
    }

    method SetBinding(b: Binding)
      modifies this
      ensures binding == b && identifier == old(identifier) && order == old(order)
    {
      binding := b;
    }

    method SetOrder(o: Option<Order>)
      modifies this
      ensures order == o && identifier == old(identifier) && binding == old(binding)
    {
      order := o;
    }

    /** Performs one setter call of a `change` consumer. */
    method Apply(e: BuilderEdit)
      modifies this
      ensures State() == Edit(old(State()), e)
    {
      match e
      case SetIdentifier(t) => SetIdentifier(t);
      case SetBinding(b) => SetBinding(b);
      case SetOrder(o) => SetOrder(o);
    }

    /**
     * `build()`: a new ordered binding holding the builder's current values; the
     * builder is untouched. Its contract matters through `Change`, whose result the
     * `Changed` lemmas (`ChangedKeepsUnsetFields`, `ChangedLastEditWins`) describe.
     */
    method Build() returns (r: OrderedBinding)
      ensures r.identifier == identifier && r.binding == binding && r.order == order
    {
      r := OrderedBinding(identifier, binding, order);
    }
  }

  /**
   * `change(consumer)`: copies the receiver into a fresh builder, lets the
   * consumer run its setters, and builds. The receiver is a value, so it is
   * left as it was.
   */
  method Change(ob: OrderedBinding, edits: seq<BuilderEdit>) returns (r: OrderedBinding)
    ensures r == Changed(ob, edits)
  {
    var builder := new Builder.FromOrderedBinding(ob);
    for i := 0 to |edits|
      invariant builder.State() == Changed(ob, edits[..i])
    {
      assert edits[..i + 1][..i] == edits[..i];
      builder.Apply(edits[i]);
    }
    assert edits[..|edits|] == edits;
    r := builder.Build();
  }
}
