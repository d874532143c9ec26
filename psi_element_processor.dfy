/**
 * Element processors (com.intellij.psi.search.PsiElementProcessor): a search
 * hands each element to `execute`, which answers whether the search should go
 * on. Elements are opaque values; an element filter is a predicate on them.
 */
module PsiElementProcessor {
  import opened Wrappers

  /** `CollectElements`: keeps every element it is given. */
  class CollectElements<T> {
    var collection: seq<T>

    /** `CollectElements(Collection)`: collects after what the given collection already holds. */
    constructor (initial: seq<T>)
      ensures collection == initial
    {
      collection := initial;
    }

    /** `CollectElements()`: collects into a new, empty list. */
    constructor Empty()
      ensures collection == []
    {
      collection := [];
    }

    method Execute(element: T) returns (goOn: bool)
      modifies this
      ensures goOn
      ensures collection == old(collection) + [element]
    {
      collection := collection + [element];
      goOn := true;
    }

    /** `toArray` / `getCollection`: the elements in the order they were collected. */
    method ToArray() returns (elements: seq<T>)
      ensures elements == collection
    {
      elements := collection;
    }
  }

  /** `CollectFilteredElements`: keeps the elements the filter accepts. */
  class CollectFilteredElements<T> {
    const filter: T -> bool
    var collection: seq<T>

    constructor (filter: T -> bool, initial: seq<T>)
      ensures this.filter == filter && collection == initial
    {
      this.filter := filter;
      collection := initial;
    }

    constructor Empty(filter: T -> bool)
      ensures this.filter == filter && collection == []
    {
      this.filter := filter;
      collection := [];
    }

    /** Never stops the search; a rejected element changes nothing. */
    method Execute(element: T) returns (goOn: bool)
      modifies this
      ensures goOn
      ensures collection == old(collection) + (if filter(element) then [element] else [])
    {
      if filter(element) {
        collection := collection + [element];
      }
      goOn := true;
    }
  }

  /** The state of a `CollectElementsWithLimit`: what it collected, `myCount`, `myOverflow`. */
  datatype LimitState<T> = LimitState(collected: seq<T>, count: int, overflow: bool)

  /** One `execute` of `CollectElementsWithLimit`: the new state and the answer. */
  function LimitStep<T>(limit: int, s: LimitState<T>, element: T): (LimitState<T>, bool)
  {
    if s.count == limit then (s.(overflow := true), false)
    else (LimitState(s.collected + [element], s.count + 1, s.overflow), true)
  }

  /** A fresh collector given `elements` one after the other, whatever each call answers. */
  function LimitRun<T>(limit: int, elements: seq<T>): LimitState<T>
    decreases |elements|
  {
    if elements == [] then LimitState([], 0, false)
    else LimitStep(limit, LimitRun(limit, elements[..|elements| - 1]), elements[|elements| - 1]).0
  }

  /**
   * With a limit `n >= 0`, a collector keeps exactly the first `n` elements it
   * is given and reports overflow exactly when it was given more; with a
   * negative limit it keeps everything and never overflows.
   */
  lemma {:induction false} LimitRunKeepsPrefix<T>(limit: int, elements: seq<T>)
    ensures var s := LimitRun(limit, elements);
            s.count == |s.collected| &&
            s.collected == (if 0 <= limit < |elements| then elements[..limit] else elements) &&
            s.overflow == (0 <= limit < |elements|)
  {
    if elements != [] {
      var init := elements[..|elements| - 1];
      LimitRunKeepsPrefix(limit, init);
      if 0 <= limit < |init| {
        assert init[..limit] == elements[..limit];
      }
    }
  }

  /**
   * The answer of `execute` is false exactly once the limit was reached
   * before the call: a search that stops at the first false has handed over
   * `limit + 1` elements.
   */
  lemma LimitStepAnswer<T>(limit: int, elements: seq<T>, element: T)
    ensures LimitStep(limit, LimitRun(limit, elements), element).1 <==> !(0 <= limit <= |elements|)
  {
    LimitRunKeepsPrefix(limit, elements);
  }

  /** `CollectElementsWithLimit`: collects at most `limit` elements and remembers that more came. */
  class CollectElementsWithLimit<T> {
    const limit: int
    var collection: seq<T>
    var count: int
    var overflow: bool

    ghost predicate Valid()
      reads this
    {
      && count == |collection|
      && (limit >= 0 ==> count <= limit)
      && (overflow ==> count == limit)
    }

    function State(): LimitState<T>
      reads this
    {
      LimitState(collection, count, overflow)
    }

    constructor (limit: int)
      ensures Valid() && this.limit == limit
      ensures State() == LimitRun(limit, [])
    {
      this.limit := limit;
      collection := [];
      count := 0;
      overflow := false;
    }

    /**
     * Once `limit` elements are collected, answers false, raises the overflow
     * flag and leaves the collection alone; until then collects the element.
     */
    method Execute(element: T) returns (goOn: bool)
      requires Valid()
      modifies this
      ensures Valid()
      ensures (State(), goOn) == LimitStep(limit, old(State()), element)
      ensures old(count) == limit ==> !goOn && overflow && collection == old(collection)
      ensures old(count) != limit ==> goOn && collection == old(collection) + [element] && overflow == old(overflow)
    {
      if count == limit {
        overflow := true;
        return false;
      }
      count := count + 1;
      collection := collection + [element];
      goOn := true;
    }

    method IsOverflow() returns (b: bool)
      ensures b == overflow
    {
      b := overflow;
    }
  }

  /** One `execute` of `FindFilteredElement`: the new found element and the answer. */
  function FindStep<T>(filter: T -> bool, found: Option<T>, element: T): (Option<T>, bool)
  {
    if filter(element) then (Some(element), false) else (found, true)
  }

  /** A search driving a fresh `FindFilteredElement` over `elements`, stopping at the first false. */
  function FindRun<T>(filter: T -> bool, found: Option<T>, elements: seq<T>): Option<T>
    decreases |elements|
  {
    if elements == [] then found
    else
      var (f, goOn) := FindStep(filter, found, elements[0]);
      if goOn then FindRun(filter, f, elements[1..]) else f
  }

  /** Such a search finds the first accepted element, and finds nothing when none is accepted. */
  lemma {:induction false} FindRunFindsFirst<T>(filter: T -> bool, elements: seq<T>)
    ensures var r := FindRun(filter, None, elements);
            (r.None? <==> forall k :: 0 <= k < |elements| ==> !filter(elements[k])) &&
            (r.Some? ==> exists i :: 0 <= i < |elements| && elements[i] == r.value && filter(r.value) &&
                                     forall k :: 0 <= k < i ==> !filter(elements[k]))
  {
    if elements != [] && !filter(elements[0]) {
      FindRunFindsFirst(filter, elements[1..]);
      var r := FindRun(filter, None, elements);
      if r.Some? {
        var i :| 0 <= i < |elements[1..]| && elements[1..][i] == r.value && filter(r.value) &&
                 forall k :: 0 <= k < i ==> !filter(elements[1..][k]);
        assert elements[i + 1] == r.value;
        assert forall k :: 0 <= k < i + 1 ==> !filter(elements[k]) by {
          forall k | 0 <= k < i + 1 ensures !filter(elements[k]) {
            if k > 0 { assert elements[k] == elements[1..][k - 1]; }
          }
        }
      } else {
        forall k | 0 <= k < |elements| ensures !filter(elements[k]) {
          if k > 0 { assert elements[k] == elements[1..][k - 1]; }
        }
      }
    }
  }

  /** `FindElement`: records the element it is given and stops the search. */
  class FindElement<T> {
    var found: Option<T>

    constructor ()
      ensures found == None
    {
      found := None;
    }

    method IsFound() returns (b: bool)
      ensures b <==> found.Some?
    {
      b := found.Some?;
    }

    method GetFoundElement() returns (e: Option<T>)
      ensures e == found
    {
      e := found;
    }

    method Execute(element: T) returns (goOn: bool)
      modifies this
      ensures !goOn && found == Some(element)
    {
      found := Some(element);
      goOn := false;
    }
  }

  /** `FindFilteredElement`: passes over rejected elements and behaves like `FindElement` for accepted ones. */
  class FindFilteredElement<T> {
    const filter: T -> bool
    var found: Option<T>

    constructor (filter: T -> bool)
      ensures this.filter == filter && found == None
    {
      this.filter := filter;
      found := None;
    }

    method IsFound() returns (b: bool)
      ensures b <==> found.Some?
    {
      b := found.Some?;
    }

    method GetFoundElement() returns (e: Option<T>)
      ensures e == found
    {
      e := found;
    }

    method Execute(element: T) returns (goOn: bool)
      modifies this
      ensures (found, goOn) == FindStep(filter, old(found), element)
      ensures !filter(element) ==> goOn && found == old(found)
      ensures filter(element) ==> !goOn && found == Some(element)
    {
      if filter(element) {
        found := Some(element);
        return false;
      }
      goOn := true;
    }
  }
}
