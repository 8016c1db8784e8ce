/**
 * The parts of Guice and of Java reflection that the ordering engine consumes,
 * reduced to what the engine can observe of them.
 */
module Guice {

  /** A Guice module element. Its identity is all the engine ever compares. */
  type Element(==, 0, !new)

  /** Every binding is a Guice element; the model does not tell the other kinds of element apart. */
  type Binding = Element

  /** A multibinder found among the elements of the modules being sorted. */
  type MultibinderBinding(==, !new)

  /** The placeholder binding carried by equality tokens (`OrderedBinding.NULL_BINDING`). */
  const NullBinding: Binding

  /** The name of a Java class, as written in `@Order(before = ...)` and friends. */
  type ClassName = string

  /**
   * An identifier: a Guice `TypeLiteral`. It is either a plain class or a
   * parameterised type such as `GenericType<Argument>`, whose type arguments are
   * themselves type literals.
   */
  datatype TypeLiteral =
    | ClassType(raw: ClassName)
    | ParameterizedType(raw: ClassName, arguments: seq<TypeLiteral>)

  /** `TypeLiteral.getRawType()`: the class that carries the annotations. */
  function RawType(t: TypeLiteral): ClassName {
    t.raw
  }
}

/** The annotations the engine reads, and the reflective lookup that reads them. */
module Annotations {
  import opened Wrappers
  import opened Guice

  /**
   * `@Order`: the classes this binding must precede (`before`), those it must
   * follow (`after`), and its tie-break `position` (0 means "use the default").
   */
  datatype Order = Order(before: seq<ClassName>, after: seq<ClassName>, position: int)

  /**
   * `Class.getAnnotation(...)` for the three annotations the engine uses, as
   * total functions of the raw class: `@Order`, the value of `@IdentifiedAs`,
   * and the index given by `@RedirectedByGenericParameter`.
   */
  datatype Reflection = Reflection(
    orderOf: ClassName -> Option<Order>,
    identifiedAs: ClassName -> Option<ClassName>,
    redirectedByGenericParameter: ClassName -> Option<nat>)
}

/** The exceptions the engine raises, as error values. */
module Errors {
  import opened Guice

  datatype SortError =
    /** `DuplicateIdentifiersException`: two entries of one registry share a binding or an identifier. */
    | DuplicateIdentifiers
    /** `CycleDetectedException`, naming the identifiers of both endpoints of the rejected edge. */
    | CycleDetected(from: TypeLiteral, to: TypeLiteral)
    /** `UnableToResolveClassAsBindingException` for a class named in `before` or `after`. */
    | UnableToResolveClassAsBinding(clazz: ClassName)
    /** The `IllegalArgumentException` of the generic-parameter redirect. */
    | CannotFindGenericArgument(identifier: TypeLiteral, argumentIndex: nat)
    /** The `NullPointerException` of `requireNonNull` in the ordered binding constructor. */
    | NullArgument(name: string)
    /**
     * The `NullPointerException` the sorter raises when it looks up the ordered
     * binding of a content binding the factory mapped to null.
     */
    | NullOrderedBinding
}
