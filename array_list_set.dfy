/**
 * A set kept as a list (com.intellij.util.containers.ArrayListSet): elements
 * are only inserted by `add`, which refuses one already present, so the list
 * never holds a duplicate and iterates in insertion order.
 */
module ArrayListSet {
  import opened Seqs

  class ArrayListSet<E(==)> {
    /** The backing `ArrayList`. */
    var list: seq<E>

    ghost predicate Valid()
      reads this
    {
      NoDuplicates(list)
    }

    constructor ()
      ensures Valid() && list == []
    {
      list := [];
    }

    /** `add`: appends `e` when it is absent; answers whether it did. */
    method Add(e: E) returns (added: bool)
      requires Valid()
      modifies this
      ensures Valid()
      ensures added <==> e !in old(list)
      ensures list == if added then old(list) + [e] else old(list)
    {
      if e !in list {
        list := list + [e];
        return true;
      } else {
        return false;
      }
    }

    /** `remove`: answers whether `o` was present and removes its only occurrence. */
    method Remove(o: E) returns (removed: bool)
      requires Valid()
      modifies this
      ensures Valid()
      ensures removed <==> o in old(list)
      ensures list == RemoveFirst(old(list), o)
      ensures forall y :: y in list <==> y in old(list) && y != o
    {
      removed := o in list;
      RemoveFirstNoDuplicates(list, o);
      list := RemoveFirst(list, o);
    }

    /** `contains`: list membership. */
    method Contains(o: E) returns (r: bool)
      ensures r <==> o in list
    {
      r := o in list;
    }

    /** `size`: the length of the list, which is the number of distinct elements. */
    method Size() returns (n: int)
      requires Valid()
      ensures n == |list| == |Elements(list)|
    {
      NoDuplicatesCardinality(list);
      n := |list|;
    }

    /** `clear`: the set becomes empty. */
    method Clear()
      modifies this
      ensures Valid() && list == []
    {
      list := [];
    }

    /** `iterator`: the elements in the order they were added. */
    method Iterator() returns (elements: seq<E>)
      ensures elements == list
    {
      elements := list;
    }
  }
}
