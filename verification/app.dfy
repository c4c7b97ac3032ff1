/**
  The app screen's list state and the handlers that change it.
 */
module App {
  import opened Items

  /**
    The loop of markCheck over its copy of the list: every record whose key
    is `k` is set done in place; the others are left alone.
   */
  method MarkAll(a: array<Item>, k: string)
    modifies a
    ensures a[..] == Marked(old(a[..]), k)
  {
    ghost var before := a[..];
    var i := 0;
    while i < a.Length
      invariant 0 <= i <= a.Length
      invariant forall j :: 0 <= j < i ==>
        a[j] == if before[j].key == k then before[j].(isDone := true) else before[j]
      invariant forall j :: i <= j < a.Length ==> a[j] == before[j]
    {
      if a[i].key == k {
        a[i] := a[i].(isDone := true);
      }
      i := i + 1;
    }
    ghost var marked := Marked(before, k);
    forall j | 0 <= j < a.Length
      ensures a[j] == marked[j]
    {
      assert a[j].key == marked[j].key && a[j].item == marked[j].item;
    }
    assert a[..] == marked;
  }

  /** The list state of the app screen. */
  class ShoppingList {
    var listItems: seq<Item>

    /** The list starts empty, before anything is read from the store. */
    constructor ()
      ensures listItems == []
    {
      listItems := [];
    }

    /** Replaces the list with the stored one when the store holds one. */
    method RetrieveItems(stored: Option<seq<Item>>)
      modifies this
      ensures listItems == if stored.Some? then stored.value else old(listItems)
    {
      if stored.Some? {
        listItems := stored.value;
      }
    }

    /** Adds the entered text as a new record unless it is the empty string. */
    method HandleAdd(text: string)
      modifies this
      ensures listItems == Added(old(listItems), text)
      ensures text == "" ==> listItems == old(listItems)
      ensures text != "" ==> listItems == old(listItems) + [Item(text, text, false)]
    {
      if text == "" {
        return;
      }
      var data := Item(text, text, false);
      listItems := listItems + [data];
    }

    /** Copies the list into an array, marks it and makes the copy the new list. */
    method MarkCheck(data: Item)
      modifies this
      ensures listItems == Marked(old(listItems), data.key)
    {
      var s := listItems;
      var newState := new Item[|s|](i requires 0 <= i < |s| => s[i]);
      assert newState[..] == s;
      MarkAll(newState, data.key);
      listItems := newState[..];
    }

    /** Keeps only the records whose key differs from the pressed record's key. */
    method DeleteItem(data: Item)
      modifies this
      ensures listItems == Removed(old(listItems), data.key)
    {
      listItems := Removed(listItems, data.key);
    }

    /** Carries out one request from the screen. */
    method Dispatch(op: Intent)
      modifies this
      ensures listItems == Apply(old(listItems), op)
    {
      match op
      case Add(text) => HandleAdd(text);
      case Check(data) => MarkCheck(data);
      case Delete(data) => DeleteItem(data);
    }
  }
}
