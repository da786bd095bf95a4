/**
 The list manager object: the ordered items, the rows of the visual list
 (each with the index its remove button is bound to) and the outcomes
 reported to the user, changed in place by `addItem`, `removeItem` and
 `clear`.
 */
module ListManager {
  import opened JsString
  import opened ListRules

  /** The hard failure `removeItem` throws; `Message()` is the text of the
      thrown error. */
  datatype Error = IndexOutOfRange {
    function Message(): string {
      "ListManager: invalid index."
    }
  }

  /** How a call that can throw ended. */
  datatype Status = Ok | Failed(error: Error)

  class ListManager {
    /** The stored items, in insertion order. */
    var items: seq<string>
    /** The rows of the visual list, in display order. */
    var rows: seq<Row>
    /** Every outcome shown to the user so far, oldest first. */
    var notices: seq<Outcome>

    /** The items keep their invariant and every row shows the item at its
        own position, with its remove button bound to that position. */
    ghost predicate Valid()
      reads this
    {
      WellFormed(items) && BoundTo(rows, items)
    }

    /** A new manager holds no items and shows no rows. */
    constructor ()
      ensures Valid()
      ensures items == [] && rows == [] && notices == []
    {
      items := [];
      rows := [];
      notices := [];
    }

    /** Appends a row showing `item` whose remove button is bound to `index`. */
    method AppendListItem(item: string, index: int)
      modifies this
      ensures rows == old(rows) + [Row(item, index)]
      ensures items == old(items) && notices == old(notices)
    {
      rows := rows + [Row(item, index)];
    }

    /** Adds the trimmed `item` unless it is empty or already stored under
        another spelling. */
    method AddItem(item: string)
      requires Valid()
      modifies this
      ensures Valid()
      ensures items == AfterAdd(old(items), item)
      ensures var t := Trim(item);
        if t == [] then
          items == old(items) && rows == old(rows) && notices == old(notices)
        else if IsDuplicate(old(items), t) then
          items == old(items) && rows == old(rows) && notices == old(notices) + [AlreadyExists(t)]
        else
          items == old(items) + [t] && rows == old(rows) + [Row(t, |old(items)|)] &&
          notices == old(notices) + [Added(t)]
    {
      var trimmed := Trim(item);
      if trimmed == [] {
        return;
      }
      var isDuplicate := IsDuplicate(items, trimmed);
      if isDuplicate {
        notices := notices + [AlreadyExists(trimmed)];
        return;
      }
      AddPreservesWellFormed(items, item);
      AppendKeepsBound(rows, items, trimmed);
      items := items + [trimmed];
      AppendListItem(trimmed, |items| - 1);
      notices := notices + [Added(trimmed)];
    }

    /** Removes the item at `index`, drops its row and re-binds every
        remaining row's remove button to that row's new position; an index
        outside the list fails with `IndexOutOfRange`, the error whose
        `Message()` is "ListManager: invalid index.", and changes nothing. */
    method RemoveItem(index: int) returns (status: Status)
      requires Valid()
      modifies this
      ensures Valid()
      ensures status == Ok || status == Failed(IndexOutOfRange)
      ensures status.Failed? <==> index < 0 || index >= |old(items)|
      ensures status.Failed? ==>
        items == old(items) && rows == old(rows) && notices == old(notices)
      ensures status.Ok? ==>
        items == RemoveAt(old(items), index) &&
        notices == old(notices) + [Removed(old(items)[index])]
      ensures status.Ok? ==>
        forall k :: 0 <= k < |rows| ==>
          rows[k].text == RemoveAt(old(rows), index)[k].text && rows[k].boundIndex == k
    {
      if index < 0 || index >= |items| {
        return Failed(IndexOutOfRange);
      }
      var itemName := items[index];
      RemovePreservesWellFormed(items, index);
      items := RemoveAt(items, index);
      rows := RemoveAt(rows, index);
      RebindRemoveButtons();
      notices := notices + [Removed(itemName)];
      return Ok;
    }

    /** Re-binds the remove button of every row to that row's position,
        leaving the text of each row as it is. */
    method RebindRemoveButtons()
      modifies this
      ensures |rows| == |old(rows)|
      ensures forall k :: 0 <= k < |rows| ==> rows[k] == Row(old(rows)[k].text, k)
      ensures items == old(items) && notices == old(notices)
    {
      var i := 0;
      while i < |rows|
        invariant 0 <= i <= |rows| == |old(rows)|
        invariant forall k :: 0 <= k < i ==> rows[k] == Row(old(rows)[k].text, k)
        invariant forall k :: i <= k < |rows| ==> rows[k] == old(rows)[k]
        invariant items == old(items) && notices == old(notices)
      {
        rows := rows[i := Row(rows[i].text, i)];
        i := i + 1;
      }
    }

    /** A copy of the stored items. */
    method GetItems() returns (snapshot: seq<string>)
      ensures snapshot == items
    {
      snapshot := items;
    }

    /** Empties the list; on an empty list it only reports so. */
    method Clear()
      requires Valid()
      modifies this
      ensures Valid()
      ensures items == [] && rows == []
      ensures old(items) == [] ==> notices == old(notices) + [AlreadyEmpty]
      ensures old(items) != [] ==> notices == old(notices) + [Cleared]
    {
      if |items| == 0 {
        notices := notices + [AlreadyEmpty];
        return;
      }
      items := [];
      rows := [];
      notices := notices + [Cleared];
    }

    /** A click on the remove button of row `k`: whatever happened before,
        it removes the item that row shows. */
    method ClickRemove(k: int) returns (status: Status)
      requires Valid() && 0 <= k < |rows|
      modifies this
      ensures Valid() && status == Ok
      ensures items == RemoveAt(old(items), k)
      ensures notices == old(notices) + [Removed(old(rows)[k].text)]
    {
      status := RemoveItem(rows[k].boundIndex);
    }
  }
}
