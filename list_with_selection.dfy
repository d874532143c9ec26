/**
 * A list with one selected element (com.intellij.util.ListWithSelection): the
 * selection can only be set to a member of the list. A null selection is
 * `None`; the list's elements are not null.
 */
module ListWithSelection {
  import opened Wrappers
  import opened Seqs

  class ListWithSelection<T(==)> {
    /** The inherited `ArrayList` contents. */
    var items: seq<T>
    var selection: Option<T>

    /** `ListWithSelection(Collection)`: a copy of the collection, nothing selected. */
    constructor (collection: seq<T>)
      ensures items == collection && selection == None
    {
      items := collection;
      selection := None;
    }

    /** `ListWithSelection(Collection, Object)`: the selection is taken only if it is a member. */
    constructor WithSelection(collection: seq<T>, selected: T)
      ensures items == collection
      ensures selection == if selected in collection then Some(selected) else None
    {
      items := collection;
      selection := None;
      new;
      var _ := Select(selected);
    }

    /** `ListWithSelection()`: an empty list, nothing selected. */
    constructor Empty()
      ensures items == [] && selection == None
    {
      items := [];
      selection := None;
    }

    /** `select`: refuses a non-member and leaves the selection alone; otherwise selects it. */
    method Select(x: T) returns (ok: bool)
      modifies this`selection
      ensures ok <==> x in items
      ensures selection == if ok then Some(x) else old(selection)
    {
      if x !in items {
        return false;
      }
      selection := Some(x);
      return true;
    }

    /** `getSelection`. */
    method GetSelection() returns (s: Option<T>)
      ensures s == selection
    {
      s := selection;
    }

    /**
     * `selectFirst`: selects element 0, so that the selected index becomes 0.
     * The source reads element 0 unconditionally, so the list must not be empty.
     */
    method SelectFirst()
      requires |items| > 0
      modifies this`selection
      ensures selection == Some(items[0])
      ensures IndexOf(items, selection.value) == 0
    {
      var _ := Select(items[0]);
    }

    /** `getSelectedIndex`: the first index holding the selection, or -1. */
    method GetSelectedIndex() returns (index: int)
      ensures selection.None? ==> index == -1
      ensures selection.Some? ==> index == IndexOf(items, selection.value)
      ensures selection.Some? && selection.value in items ==>
                0 <= index < |items| && items[index] == selection.value
    {
      index := if selection.None? then -1 else IndexOf(items, selection.value);
    }
  }
}
