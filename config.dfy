/** The sorting configuration: what to do with unresolvable classes and how to default positions. */
module Config {
  import opened Wrappers
  import opened Annotations
  import opened OrderedBindings

  /** What happens when a class named in `before`/`after` is not the identifier of any binding. */
  datatype UnresolvableClassHandling = IGNORE | THROW

  /**
   * `DefaultPositionProvider`: the position used when a binding has no order or
   * an order whose `position` is 0. `Custom` stands for a user-supplied lambda.
   */
  datatype DefaultPositionProvider =
    | Zero
    | Closest
    | Custom(get: OrderedBinding -> int)

  /** True when the binding has an order and exactly one of its `before`/`after` lists is empty. */
  predicate OneSided(ob: OrderedBinding) {
    ob.order.Some? && ((|ob.order.value.before| == 0) != (|ob.order.value.after| == 0))
  }

  /**
   * `DefaultPositionProvider.get`. `ZERO` gives 0; `CLOSEST` pulls a binding
   * towards the side its constraints name: +1 with only `before`, -1 with
   * only `after`, 0 otherwise.
   */
  function DefaultPosition(provider: DefaultPositionProvider, ob: OrderedBinding): (r: int)
    ensures provider.Zero? ==> r == 0
    ensures provider.Closest? ==> -1 <= r <= 1
    ensures provider.Closest? ==> (r == 0 <==> !OneSided(ob))
    ensures provider.Closest? && OneSided(ob) ==> (r == 1 <==> |ob.order.value.before| != 0)
    ensures provider.Custom? ==> r == provider.get(ob)
  {
    match provider
    case Zero => 0
    case Closest =>
      if ob.order.None? then 0
      else
        var order := ob.order.value;
        if (|order.before| != 0 && |order.after| != 0) || (|order.before| == 0 && |order.after| == 0) then 0
        else if |order.before| != 0 then 1
        else -1
    case Custom(get) => get(ob)
  }

  /** `CLOSEST`, case by case, and its indifference to `Order.position`. */
  lemma ClosestCases(ob: OrderedBinding, position: int)
    requires ob.order.Some?
    ensures var o := ob.order.value;
      && (|o.before| == 0 && |o.after| == 0 ==> DefaultPosition(Closest, ob) == 0)
      && (|o.before| != 0 && |o.after| != 0 ==> DefaultPosition(Closest, ob) == 0)
      && (|o.before| != 0 && |o.after| == 0 ==> DefaultPosition(Closest, ob) == 1)
      && (|o.before| == 0 && |o.after| != 0 ==> DefaultPosition(Closest, ob) == -1)
    ensures DefaultPosition(Closest, ob) == DefaultPosition(Closest, ob.(order := Some(ob.order.value.(position := position))))
  {
  }

  /** `SortingConfiguration`. */
  datatype SortingConfiguration = SortingConfiguration(
    unresolvableClassHandling: UnresolvableClassHandling,
    defaultPosition: DefaultPositionProvider)

  /** `SortingConfiguration.DEFAULT`: throw on unresolvable classes, default position 0. */
  const DefaultConfiguration := SortingConfiguration(THROW, Zero)
}
