/**
 * `DefaultOrderedBindingFactory`: finds a binding's target type, builds the
 * starting ordered binding from it and runs every transformer over it.
 */
module OrderedBindingFactory {
  import opened Wrappers
  import opened Guice
  import opened Annotations
  import opened Errors
  import opened OrderedBindings
  import opened Transformers

  /**
   * The factory's configuration. The Java constructor copies the transformer
   * list; a Dafny sequence is a value, so later changes to the caller's list
   * cannot reach it either. The target-type finder is Guice's visitor over
   * binding kinds, given here as a function (`None` is Java's null).
   */
  datatype DefaultOrderedBindingFactory = DefaultOrderedBindingFactory(
    reflection: Reflection,
    bindingTargetTypeFinder: Binding -> Option<TypeLiteral>,
    transformers: seq<Transformer>)

  /** Applies the transformers left to right, each to the previous result; the first exception stops the chain. */
  function ApplyAll(reflection: Reflection, transformers: seq<Transformer>, ob: OrderedBinding)
    : Result<OrderedBinding, SortError>
  {
    if transformers == [] then Success(ob)
    else
      match ApplyAll(reflection, transformers[..|transformers| - 1], ob)
      case Failure(e) => Failure(e)
      case Success(previous) => Transform(reflection, transformers[|transformers| - 1], previous)
  }

  /** With no transformer the starting value comes back unchanged. */
  lemma ApplyAllEmpty(reflection: Reflection, ob: OrderedBinding)
    ensures ApplyAll(reflection, [], ob) == Success(ob)
  {
  }

  /** The chain is a fold: running `first + second` is running `first`, then `second` on its result. */
  lemma {:induction false} ApplyAllComposes(reflection: Reflection, first: seq<Transformer>, second: seq<Transformer>, ob: OrderedBinding)
    ensures ApplyAll(reflection, first + second, ob) ==
      match ApplyAll(reflection, first, ob)
      case Failure(e) => Failure(e)
      case Success(middle) => ApplyAll(reflection, second, middle)
  {
    if second == [] {
      assert first + second == first;
    } else {
      var init := second[..|second| - 1];
      assert (first + second)[..|first + second| - 1] == first + init;
      ApplyAllComposes(reflection, first, init, ob);
    }
  }

  /** No transformer changes the binding an ordered binding stands for. */
  lemma {:induction false} ApplyAllKeepsBinding(reflection: Reflection, transformers: seq<Transformer>, ob: OrderedBinding)
    ensures ApplyAll(reflection, transformers, ob).Success? ==> ApplyAll(reflection, transformers, ob).value.binding == ob.binding
  {
    if transformers != [] {
      ApplyAllKeepsBinding(reflection, transformers[..|transformers| - 1], ob);
    }
  }

  /** `applyAllTransformers`: reassigns the ordered binding once per transformer. */
  method ApplyAllTransformers(factory: DefaultOrderedBindingFactory, ob: OrderedBinding)
    returns (r: Result<OrderedBinding, SortError>)
    ensures r == ApplyAll(factory.reflection, factory.transformers, ob)
  {
    var transformers := factory.transformers;
    var current := ob;
    for i := 0 to |transformers|
      invariant ApplyAll(factory.reflection, transformers[..i], ob) == Success(current)
    {
      assert transformers[..i + 1][..i] == transformers[..i];
      var next := Transform(factory.reflection, transformers[i], current);
      if next.Failure? {
        ApplyAllComposes(factory.reflection, transformers[..i + 1], transformers[i + 1..], ob);
        assert transformers[..i + 1] + transformers[i + 1..] == transformers;
        return Failure(next.error);
      }
      current := next.value;
    }
    assert transformers[..|transformers|] == transformers;
    r := Success(current);
  }

  /** What `create` returns: null when no target type is found, else the transformed `fromType` value. */
  function OrderedBindingOf(factory: DefaultOrderedBindingFactory, binding: Binding)
    : Result<Option<OrderedBinding>, SortError>
  {
    match factory.bindingTargetTypeFinder(binding)
    case None => Success(None)
    case Some(targetType) =>
      match ApplyAll(factory.reflection, factory.transformers, FromType(factory.reflection, targetType, binding))
      case Failure(e) => Failure(e)
      case Success(ob) => Success(Some(ob))
  }

  /**
   * `create` returns null exactly when the target-type finder does, and
   * otherwise an ordered binding for the same binding; with no transformers it
   * is `fromType(targetType, binding)` itself.
   */
  lemma OrderedBindingOfCases(factory: DefaultOrderedBindingFactory, binding: Binding)
    ensures OrderedBindingOf(factory, binding) == Success(None) <==> factory.bindingTargetTypeFinder(binding).None?
    ensures OrderedBindingOf(factory, binding).Success? && OrderedBindingOf(factory, binding).value.Some? ==>
      OrderedBindingOf(factory, binding).value.value.binding == binding
    ensures factory.transformers == [] && factory.bindingTargetTypeFinder(binding).Some? ==>
      var targetType := factory.bindingTargetTypeFinder(binding).value;
      OrderedBindingOf(factory, binding) == Success(Some(OrderedBinding(targetType, binding, factory.reflection.orderOf(RawType(targetType)))))
  {
    if factory.bindingTargetTypeFinder(binding).Some? {
      var targetType := factory.bindingTargetTypeFinder(binding).value;
      ApplyAllKeepsBinding(factory.reflection, factory.transformers, FromType(factory.reflection, targetType, binding));
    }
  }

  /** `DefaultOrderedBindingFactory.create`. */
  method Create(factory: DefaultOrderedBindingFactory, binding: Binding) returns (r: Result<Option<OrderedBinding>, SortError>)
    ensures r == OrderedBindingOf(factory, binding)
    ensures factory.bindingTargetTypeFinder(binding).None? <==> r == Success(None)
  {
    var targetType := factory.bindingTargetTypeFinder(binding);
    if targetType.None? {
      return Success(None);
    }
    var ob := FromType(factory.reflection, targetType.value, binding);
    var transformed := ApplyAllTransformers(factory, ob);
    if transformed.Failure? {
      return Failure(transformed.error);
    }
    r := Success(Some(transformed.value));
  }
}
