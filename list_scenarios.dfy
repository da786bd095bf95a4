/**
 Whole sessions with one list manager, driven only through the contracts of
 its methods: they show that a caller can predict the items, the rows and the
 outcomes after a sequence of calls.
 */
module ListScenarios {
  import opened ListRules
  import LM = ListManager

  /** `addItem` of a value that is already trimmed and not stored yet. */
  method AddFresh(m: LM.ListManager, a: string)
    requires m.Valid() && Storable(a) && !IsDuplicate(m.items, a)
    modifies m
    ensures m.Valid()
    ensures m.items == old(m.items) + [a]
    ensures m.rows == old(m.rows) + [Row(a, |old(m.items)|)]
    ensures m.notices == old(m.notices) + [Added(a)]
  {
    StorableIsTrimmed(a);
    m.AddItem(a);
  }

  /** `removeItem(1)` on a list of three: the last row is re-bound to 1. */
  method RemoveMiddle(m: LM.ListManager)
    requires m.Valid() && |m.items| == 3
    modifies m
    ensures m.Valid()
    ensures m.items == [old(m.items)[0], old(m.items)[2]]
    ensures m.rows == [Row(old(m.items)[0], 0), Row(old(m.items)[2], 1)]
    ensures m.notices == old(m.notices) + [Removed(old(m.items)[1])]
  {
    var status := m.RemoveItem(1);
  }

  /** `removeItem(0)` on a list of two: the remaining row is re-bound to 0. */
  method RemoveFirstOfTwo(m: LM.ListManager)
    requires m.Valid() && |m.items| == 2
    modifies m
    ensures m.Valid()
    ensures m.items == [old(m.items)[1]]
    ensures m.rows == [Row(old(m.items)[1], 0)]
    ensures m.notices == old(m.notices) + [Removed(old(m.items)[0])]
  {
    var status := m.RemoveItem(0);
  }

  /** Adding three distinct values and removing the middle one leaves the
      outer two, each row bound to its new position, and reports each step. */
  method AddThreeRemoveMiddle(a: string, b: string, c: string)
    returns (items: seq<string>, rows: seq<Row>, notices: seq<Outcome>)
    requires Storable(a) && Storable(b) && Storable(c)
    requires !SameIgnoringCase(a, b) && !SameIgnoringCase(a, c) && !SameIgnoringCase(b, c)
    ensures items == [a, c]
    ensures rows == [Row(a, 0), Row(c, 1)]
    ensures notices == [Added(a), Added(b), Added(c), Removed(b)]
  {
    var m := new LM.ListManager();
    AddFresh(m, a);
    AddFresh(m, b);
    AddFresh(m, c);
    RemoveMiddle(m);
    items := m.GetItems();
    rows, notices := m.rows, m.notices;
  }

  /** Adding two distinct values and removing index 0 leaves the second,
      shown in the one row left, bound to 0. */
  method AddTwoRemoveFirst(a: string, b: string)
    returns (items: seq<string>, rows: seq<Row>, notices: seq<Outcome>)
    requires Storable(a) && Storable(b) && !SameIgnoringCase(a, b)
    ensures items == [b]
    ensures rows == [Row(b, 0)]
    ensures notices == [Added(a), Added(b), Removed(a)]
  {
    var m := new LM.ListManager();
    AddFresh(m, a);
    AddFresh(m, b);
    RemoveFirstOfTwo(m);
    items := m.GetItems();
    rows, notices := m.rows, m.notices;
  }
}
