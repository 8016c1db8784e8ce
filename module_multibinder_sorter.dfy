/**
 * `ModuleMultibinderSorter`: sorts every multibinder of a module's element
 * list, one after the other, against the same list. After each sort the
 * multibinder's bindings are removed from the list and appended again in
 * sorted order.
 */
module ModuleMultibinderSorter {
  import opened Wrappers
  import opened Guice
  import opened Errors
  import opened Config
  import opened OrderedBindingFactory
  import opened TopologicalOrder
  import MultibinderSorter
  import SorterProperties

  // ---------------------------------------------------------------------------
  // `removeAll` and `addAll`

  /** `List.removeAll`: every occurrence of every element of `s` is dropped; the rest keeps its order. */
  function Without(l: seq<Element>, s: seq<Element>): (r: seq<Element>)
    ensures |r| <= |l|
    ensures forall x :: x in r <==> x in l && x !in s
  {
    if l == [] then []
    else
      var last := l[|l| - 1];
      Without(l[..|l| - 1], s) + (if last in s then [] else [last])
  }

  /** Removing distributes over concatenation, so the elements kept stay in their relative order. */
  lemma {:induction false} WithoutAppend(l1: seq<Element>, l2: seq<Element>, s: seq<Element>)
    ensures Without(l1 + l2, s) == Without(l1, s) + Without(l2, s)
  {
    if l2 == [] {
      assert l1 + l2 == l1;
    } else {
      var init := l2[..|l2| - 1];
      assert (l1 + l2)[..|l1 + l2| - 1] == l1 + init;
      WithoutAppend(l1, init, s);
    }
  }

  /** A kept element keeps all its occurrences; a removed one has none. */
  lemma {:induction false} WithoutCounts(l: seq<Element>, s: seq<Element>, x: Element)
    ensures multiset(Without(l, s))[x] == if x in s then 0 else multiset(l)[x]
  {
    if l != [] {
      var init := l[..|l| - 1];
      assert l == init + [l[|l| - 1]];
      WithoutCounts(init, s, x);
    }
  }

  /** Removing what is already absent changes nothing. */
  lemma {:induction false} WithoutNothing(l: seq<Element>, s: seq<Element>)
    requires forall x :: x in l ==> x !in s
    ensures Without(l, s) == l
  {
    if l != [] {
      var init := l[..|l| - 1];
      assert l == init + [l[|l| - 1]];
      WithoutNothing(init, s);
    }
  }

  /** One splice step: remove the sorted bindings, then append them. */
  function Splice(l: seq<Element>, sorted: seq<Element>): (r: seq<Element>)
    ensures |r| == |Without(l, sorted)| + |sorted|
  {
    Without(l, sorted) + sorted
  }

  /**
   * After a splice the list ends with the sorted bindings in sorted order, no
   * copy of them is left before that block, and what comes before it is the
   * rest of the list in its old order.
   */
  lemma SpliceShape(l: seq<Element>, sorted: seq<Element>)
    ensures var r := Splice(l, sorted);
      && r[|r| - |sorted|..] == sorted
      && r[..|r| - |sorted|] == Without(l, sorted)
      && (forall i :: 0 <= i < |r| - |sorted| ==> r[i] !in sorted && r[i] in l)
  {
    var r := Splice(l, sorted);
    assert r[..|r| - |sorted|] == Without(l, sorted);
    forall i | 0 <= i < |r| - |sorted|
      ensures r[i] !in sorted && r[i] in l
    {
      assert r[i] == Without(l, sorted)[i];
    }
  }

  /** Splicing the same bindings twice is splicing them once. */
  lemma SpliceIdempotent(l: seq<Element>, sorted: seq<Element>)
    ensures Splice(Splice(l, sorted), sorted) == Splice(l, sorted)
  {
    var kept := Without(l, sorted);
    assert Splice(l, sorted) == kept + sorted;
    WithoutAppend(kept, sorted, sorted);
    WithoutNothing(kept, sorted);
    WithoutEverything(sorted, sorted);
    assert Without(kept + sorted, sorted) == kept;
  }

  lemma {:induction false} WithoutEverything(l: seq<Element>, s: seq<Element>)
    requires forall x :: x in l ==> x in s
    ensures Without(l, s) == []
  {
    if l != [] {
      var init := l[..|l| - 1];
      assert l == init + [l[|l| - 1]];
      WithoutEverything(init, s);
    }
  }

  lemma {:induction false} DistinctCounts(s: seq<Element>, x: Element)
    requires MultibinderSorter.Distinct(s)
    ensures multiset(s)[x] == if x in s then 1 else 0
  {
    if s != [] {
      var init := s[..|s| - 1];
      assert s == init + [s[|s| - 1]];
      assert MultibinderSorter.Distinct(init);
      DistinctCounts(init, x);
    }
  }

  /**
   * When the sorted bindings are distinct and each occurs exactly once in the
   * list, the splice only moves elements: the list keeps the same multiset.
   */
  lemma SpliceIsPermutation(l: seq<Element>, sorted: seq<Element>)
    requires MultibinderSorter.Distinct(sorted)
    requires forall x :: x in sorted ==> multiset(l)[x] == 1
    ensures multiset(Splice(l, sorted)) == multiset(l)
  {
    forall x
      ensures multiset(Splice(l, sorted))[x] == multiset(l)[x]
    {
      WithoutCounts(l, sorted, x);
      DistinctCounts(sorted, x);
    }
  }

  /** The module's element list, mutated in place as Java's `ArrayList`. */
  class ElementList {
    var elements: seq<Element>

    constructor (elements: seq<Element>)
      ensures this.elements == elements
    {
      this.elements := elements;
    }

    /** `removeAll`: keeps, in order, the elements that are not in `s`. */
    method RemoveAll(s: seq<Element>)
      modifies this
      ensures elements == Without(old(elements), s)
    {
      var kept: seq<Element> := [];
      for i := 0 to |elements|
        invariant kept == Without(elements[..i], s)
      {
        assert elements[..i + 1][..i] == elements[..i];
        if elements[i] !in s {
          kept := kept + [elements[i]];
        }
      }
      assert elements[..|elements|] == elements;
      elements := kept;
    }

    /** `addAll`: appends `s`. */
    method AddAll(s: seq<Element>)
      modifies this
      ensures elements == old(elements) + s
    {
      elements := elements + s;
    }
  }

  // ---------------------------------------------------------------------------
  // The loop over multibinders

  /**
   * `findMultibinderContentBindings`: the bindings of the list that belong to
   * the multibinder, in list order. Which elements those are is decided by
   * Guice (`containsElement`, minus the set keys) and given here as
   * `isContent`.
   */
  function ContentBindings(isContent: (MultibinderBinding, Element) -> bool, elements: seq<Element>, multibinder: MultibinderBinding)
    : (r: seq<Binding>)
    ensures forall x :: x in r <==> x in elements && isContent(multibinder, x)
  {
    if elements == [] then []
    else
      var last := elements[|elements| - 1];
      ContentBindings(isContent, elements[..|elements| - 1], multibinder) + (if isContent(multibinder, last) then [last] else [])
  }

  /** The content bindings carry every occurrence of a content element and nothing else. */
  lemma {:induction false} ContentCounts(isContent: (MultibinderBinding, Element) -> bool, elements: seq<Element>, multibinder: MultibinderBinding, x: Element)
    ensures multiset(ContentBindings(isContent, elements, multibinder))[x] == if isContent(multibinder, x) then multiset(elements)[x] else 0
  {
    if elements != [] {
      var init := elements[..|elements| - 1];
      assert elements == init + [elements[|elements| - 1]];
      ContentCounts(isContent, init, multibinder, x);
    }
  }

  /**
   * What `sort` leaves in the list after the given multibinders, each sorted
   * against the list as the previous ones left it; the first exception stops
   * the loop.
   */
  ghost function SortAll(config: SortingConfiguration, factory: DefaultOrderedBindingFactory,
                         isContent: (MultibinderBinding, Element) -> bool,
                         multibinders: seq<MultibinderBinding>, elements: seq<Element>): Result<seq<Element>, SortError>
  {
    if multibinders == [] then Success(elements)
    else
      match SortAll(config, factory, isContent, multibinders[..|multibinders| - 1], elements)
      case Failure(e) => Failure(e)
      case Success(current) =>
        var bindings := ContentBindings(isContent, current, multibinders[|multibinders| - 1]);
        match MultibinderSorter.SortSpec(config, factory, bindings)
        case Failure(e) => Failure(e)
        case Success(sorted) => Success(Splice(current, sorted))
  }

  lemma {:induction false} SortAllFailurePersists(config: SortingConfiguration, factory: DefaultOrderedBindingFactory,
                                                  isContent: (MultibinderBinding, Element) -> bool,
                                                  multibinders: seq<MultibinderBinding>, elements: seq<Element>, k: nat)
    requires k <= |multibinders| && SortAll(config, factory, isContent, multibinders[..k], elements).Failure?
    ensures SortAll(config, factory, isContent, multibinders, elements) == SortAll(config, factory, isContent, multibinders[..k], elements)
    decreases |multibinders|
  {
    if k == |multibinders| {
      assert multibinders[..k] == multibinders;
    } else {
      var init := multibinders[..|multibinders| - 1];
      assert init[..k] == multibinders[..k];
      SortAllFailurePersists(config, factory, isContent, init, elements, k);
    }
  }

  /** `ModuleMultibinderSorter.sort`, from the element list and the multibinders found in it. */
  method Sort(config: SortingConfiguration, factory: DefaultOrderedBindingFactory,
              isContent: (MultibinderBinding, Element) -> bool,
              multibinders: seq<MultibinderBinding>, elements: seq<Element>)
    returns (r: Result<seq<Element>, SortError>)
    ensures r == SortAll(config, factory, isContent, multibinders, elements)
  {
    var allElements := new ElementList(elements);
    for i := 0 to |multibinders|
      invariant SortAll(config, factory, isContent, multibinders[..i], elements) == Success(allElements.elements)
    {
      assert multibinders[..i + 1][..i] == multibinders[..i];
      var bindings := ContentBindings(isContent, allElements.elements, multibinders[i]);
      var sortedBindings := MultibinderSorter.Sort(config, factory, bindings);
      if sortedBindings.Failure? {
        SortAllFailurePersists(config, factory, isContent, multibinders, elements, i + 1);
        return Failure(sortedBindings.error);
      }
      allElements.RemoveAll(sortedBindings.value);
      allElements.AddAll(sortedBindings.value);
    }
    assert multibinders[..|multibinders|] == multibinders;
    r := Success(allElements.elements);
  }

  /** A permutation of a list without repetitions has none either. */
  lemma PermutationKeepsDistinct(a: seq<Element>, b: seq<Element>)
    requires multiset(a) == multiset(b) && MultibinderSorter.Distinct(b)
    ensures MultibinderSorter.Distinct(a)
  {
    forall i, j | 0 <= i < j < |a|
      ensures a[i] != a[j]
    {
      if a[i] == a[j] {
        assert a == a[..i] + [a[i]] + a[i + 1..j] + [a[j]] + a[j + 1..];
        assert multiset(a)[a[i]] >= 2;
        DistinctCounts(b, a[i]);
      }
    }
  }

  /** The content bindings, when they have no repetitions, occur once each in the list. */
  lemma DistinctContentOccursOnce(isContent: (MultibinderBinding, Element) -> bool, current: seq<Element>,
                                  multibinder: MultibinderBinding, x: Element)
    requires MultibinderSorter.Distinct(ContentBindings(isContent, current, multibinder))
    requires x in ContentBindings(isContent, current, multibinder)
    ensures multiset(current)[x] == 1
  {
    ContentCounts(isContent, current, multibinder, x);
    DistinctCounts(ContentBindings(isContent, current, multibinder), x);
  }

  /**
   * One successful sort-and-splice step moves elements without losing or
   * duplicating any: the multibinder's bindings occur once each in the list.
   */
  lemma SortStepIsPermutation(config: SortingConfiguration, factory: DefaultOrderedBindingFactory,
                              isContent: (MultibinderBinding, Element) -> bool,
                              current: seq<Element>, multibinder: MultibinderBinding)
    requires MultibinderSorter.SortSpec(config, factory, ContentBindings(isContent, current, multibinder)).Success?
    ensures var sorted := MultibinderSorter.SortSpec(config, factory, ContentBindings(isContent, current, multibinder)).value;
      multiset(Splice(current, sorted)) == multiset(current)
  {
    var bindings := ContentBindings(isContent, current, multibinder);
    var sorted := MultibinderSorter.SortSpec(config, factory, bindings).value;
    SorterProperties.SortResult(config, factory, bindings);
    if bindings != [] {
      SorterProperties.SortSpecIsKahn(config, factory, bindings);
      PermutationKeepsDistinct(sorted, bindings);
      forall x | x in sorted
        ensures multiset(current)[x] == 1
      {
        assert x in multiset(bindings);
        DistinctContentOccursOnce(isContent, current, multibinder, x);
      }
      SpliceIsPermutation(current, sorted);
    } else {
      assert sorted == [];
      WithoutNothing(current, sorted);
    }
  }

  /** The whole loop only reorders the module's elements: nothing is lost or duplicated. */
  lemma {:induction false} SortAllIsPermutation(config: SortingConfiguration, factory: DefaultOrderedBindingFactory,
                                                isContent: (MultibinderBinding, Element) -> bool,
                                                multibinders: seq<MultibinderBinding>, elements: seq<Element>)
    requires SortAll(config, factory, isContent, multibinders, elements).Success?
    ensures multiset(SortAll(config, factory, isContent, multibinders, elements).value) == multiset(elements)
  {
    if multibinders != [] {
      var init := multibinders[..|multibinders| - 1];
      var mb := multibinders[|multibinders| - 1];
      SortAllIsPermutation(config, factory, isContent, init, elements);
      var current := SortAll(config, factory, isContent, init, elements).value;
      SortStepIsPermutation(config, factory, isContent, current, mb);
    }
  }

  /** A multibinder with no content has no content bindings in any list. */
  lemma {:induction false} NoContentBindings(isContent: (MultibinderBinding, Element) -> bool, elements: seq<Element>,
                                             multibinder: MultibinderBinding)
    requires forall e :: !isContent(multibinder, e)
    ensures ContentBindings(isContent, elements, multibinder) == []
  {
    if elements != [] {
      NoContentBindings(isContent, elements[..|elements| - 1], multibinder);
    }
  }

  /**
   * Multibinders with no content in the module (no items bound) leave the
   * module's element list exactly as it was, in every configuration.
   */
  lemma {:induction false} SortAllWithoutContent(config: SortingConfiguration, factory: DefaultOrderedBindingFactory,
                                                 isContent: (MultibinderBinding, Element) -> bool,
                                                 multibinders: seq<MultibinderBinding>, elements: seq<Element>)
    requires forall mb, e :: mb in multibinders ==> !isContent(mb, e)
    ensures SortAll(config, factory, isContent, multibinders, elements) == Success(elements)
  {
    if multibinders != [] {
      var init := multibinders[..|multibinders| - 1];
      var mb := multibinders[|multibinders| - 1];
      SortAllWithoutContent(config, factory, isContent, init, elements);
      var bindings := ContentBindings(isContent, elements, mb);
      NoContentBindings(isContent, elements, mb);
      var noBindings: seq<Element> := [];
      WithoutNothing(elements, noBindings);
      assert Splice(elements, noBindings) == elements;
    }
  }
}
