/**
 * The two identifier-rewriting transformers: `@IdentifiedAs` replaces the
 * identifier by another class, `@RedirectedByGenericParameter` replaces it by
 * one of its own type arguments.
 */
module Transformers {
  import opened Wrappers
  import opened Guice
  import opened Annotations
  import opened Errors
  import opened OrderedBindings

  /** The transformers a factory can chain. */
  datatype Transformer = IdentifiedAsTransformer | GenericParameterTransformer

  /**
   * `IdentifiedAsOrderedBindingTransformer.transform`. Only the identifier
   * changes; the order read from the original identifier is kept.
   */
  function TransformIdentifiedAs(reflection: Reflection, ob: OrderedBinding): (r: OrderedBinding)
    ensures reflection.identifiedAs(RawType(ob.identifier)).None? ==> r == ob
    ensures reflection.identifiedAs(RawType(ob.identifier)).Some? ==>
      r.identifier == ClassType(reflection.identifiedAs(RawType(ob.identifier)).value)
    ensures r.binding == ob.binding && r.order == ob.order
  {
    match reflection.identifiedAs(RawType(ob.identifier))
    case None => ob
    case Some(c) =>
      ChangedByTransformerConsumers(ob, ClassType(c), None);
      Changed(ob, [SetIdentifier(ClassType(c))])
  }

  /**
   * `GenericParameterOrderedBindingTransformer.transform`. Without the
   * annotation the input is returned; otherwise the identifier must be a
   * parameterised type with an argument at the annotated index, which becomes
   * the identifier, and the order is re-read from that argument's class.
   */
  function TransformGenericParameter(reflection: Reflection, ob: OrderedBinding): (r: Result<OrderedBinding, SortError>)
    ensures reflection.redirectedByGenericParameter(RawType(ob.identifier)).None? ==> r == Success(ob)
    ensures r.Failure? <==>
      && reflection.redirectedByGenericParameter(RawType(ob.identifier)).Some?
      && (ob.identifier.ClassType?
          || |ob.identifier.arguments| <= reflection.redirectedByGenericParameter(RawType(ob.identifier)).value)
    ensures r.Failure? ==> r.error == CannotFindGenericArgument(ob.identifier, reflection.redirectedByGenericParameter(RawType(ob.identifier)).value)
    ensures r.Success? && reflection.redirectedByGenericParameter(RawType(ob.identifier)).Some? ==>
      var index := reflection.redirectedByGenericParameter(RawType(ob.identifier)).value;
      && ob.identifier.ParameterizedType?
      && index < |ob.identifier.arguments|
      && r.value.identifier == ob.identifier.arguments[index]
      && r.value.order == reflection.orderOf(RawType(r.value.identifier))
    ensures r.Success? ==> r.value.binding == ob.binding
  {
    match reflection.redirectedByGenericParameter(RawType(ob.identifier))
    case None => Success(ob)
    case Some(index) =>
      match ob.identifier
      case ClassType(_) => Failure(CannotFindGenericArgument(ob.identifier, index))
      case ParameterizedType(_, arguments) =>
        if |arguments| <= index then Failure(CannotFindGenericArgument(ob.identifier, index))
        else
          var argument := arguments[index];
          ChangedByTransformerConsumers(ob, argument, reflection.orderOf(RawType(argument)));
          Success(Changed(ob, [SetIdentifier(argument), SetOrder(reflection.orderOf(RawType(argument)))]))
  }

  /**
   * The cause of `CannotFindGenericArgument(identifier, index)`: the class of
   * `identifier` redirects to its argument at `index`, and `identifier` is not
   * parameterised or has no argument there.
   */
  ghost predicate MissingGenericArgument(reflection: Reflection, identifier: TypeLiteral, index: nat) {
    && reflection.redirectedByGenericParameter(RawType(identifier)) == Some(index)
    && (identifier.ClassType? || |identifier.arguments| <= index)
  }

  /** `OrderedBindingTransformer.transform`, dispatched on the transformer. */
  function Transform(reflection: Reflection, t: Transformer, ob: OrderedBinding): Result<OrderedBinding, SortError> {
    match t
    case IdentifiedAsTransformer => Success(TransformIdentifiedAs(reflection, ob))
    case GenericParameterTransformer => TransformGenericParameter(reflection, ob)
  }
}
