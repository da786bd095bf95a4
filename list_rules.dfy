/**
 The rules of the list manager stated on values: what a stored list of items
 must satisfy, how a visual row is bound to an item, which outcomes are
 reported, and what adding and removing do to the list.
 */
module ListRules {
  import opened JsString

  /** One visual row of the list: the text it shows and the index its remove
      button passes to `removeItem` when clicked. */
  datatype Row = Row(text: string, boundIndex: int)

  /** The toast types the manager can show. */
  datatype Severity = Success | Info | Warning | Danger

  /** What an operation reports to the user. */
  datatype Outcome =
    | Added(value: string)
    | AlreadyExists(value: string)
    | Removed(value: string)
    | Cleared
    | AlreadyEmpty

  /** The toast type each outcome is shown with: danger for a rejected
      duplicate, info for clearing an empty list, success for every change;
      warning belongs to the input handler only and no outcome here has it. */
  function SeverityOf(o: Outcome): (r: Severity)
    ensures r == Danger <==> o.AlreadyExists?
    ensures r == Info <==> o.AlreadyEmpty?
    ensures r == Success <==> !o.AlreadyExists? && !o.AlreadyEmpty?
  {
    match o
    case AlreadyExists(_) => Danger
    case AlreadyEmpty => Info
    case _ => Success
  }

  /** The message string each outcome passes to `showToast`. */
  function MessageOf(o: Outcome): string {
    match o
    case Added(v) => "Item \"" + v + "\" added."
    case AlreadyExists(v) => "\"" + v + "\" already exists."
    case Removed(v) => "Item \"" + v + "\" removed."
    case Cleared => "List has been cleared."
    case AlreadyEmpty => "List is already empty."
  }

  /** `p + v + s` holds `p`, `v` and `s` in that order, at known positions. */
  lemma Framed(p: string, v: string, s: string)
    ensures |p + v + s| == |p| + |v| + |s|
    ensures (p + v + s)[..|p|] == p
    ensures (p + v + s)[|p|..|p| + |v|] == v
    ensures (p + v + s)[|p| + |v|..] == s
  {
    var m := p + v + s;
    assert m[|p|..|p| + |v|] == v by {
      forall k | 0 <= k < |v| ensures m[|p| + k] == v[k] { }
    }
  }

  /** Where each message string keeps its marks and the value it quotes. */
  lemma MessageShape(o: Outcome)
    ensures var m := MessageOf(o);
      match o
      case Added(v) =>
        |m| == |v| + 14 && m[0] == 'I' && m[|m| - 4] == 'd' && m[6..6 + |v|] == v
      case Removed(v) =>
        |m| == |v| + 16 && m[0] == 'I' && m[|m| - 4] == 'v' && m[6..6 + |v|] == v
      case AlreadyExists(v) =>
        |m| == |v| + 18 && m[0] == '"' && m[1..1 + |v|] == v
      case Cleared => |m| > 5 && m[0] == 'L' && m[5] == 'h'
      case AlreadyEmpty => |m| > 5 && m[0] == 'L' && m[5] == 'i'
  {
    var m := MessageOf(o);
    match o
    case Added(v) =>
      Framed("Item \"", v, "\" added.");
      assert m[|m| - 4] == "\" added."[4];
    case Removed(v) =>
      Framed("Item \"", v, "\" removed.");
      assert m[|m| - 4] == "\" removed."[6];
    case AlreadyExists(v) =>
      Framed("\"", v, "\" already exists.");
    case Cleared =>
    case AlreadyEmpty =>
  }

  /** The message string passed to `showToast` tells the outcomes apart: two
      outcomes passing the same string are the same outcome, value included. */
  lemma MessageIdentifiesOutcome(o1: Outcome, o2: Outcome)
    requires MessageOf(o1) == MessageOf(o2)
    ensures o1 == o2
  {
    MessageShape(o1);
    MessageShape(o2);
  }

  /** Equal once both sides are lower-cased. */
  predicate SameIgnoringCase(a: string, b: string) {
    LowerStr(a) == LowerStr(b)
  }

  /** A value the list can hold: non-empty, with no white space at either
      end (so, by `StorableIsTrimmed`, a non-empty string that is its own trim). */
  predicate Storable(x: string) {
    x != [] && !IsSpace(x[0]) && !IsSpace(x[|x| - 1])
  }

  /** The invariant of the stored items: each is non-empty and already
      trimmed, and no two are equal ignoring case. */
  predicate WellFormed(items: seq<string>) {
    (forall i :: 0 <= i < |items| ==> Storable(items[i])) &&
    (forall i, j :: 0 <= i < j < |items| ==> !SameIgnoringCase(items[i], items[j]))
  }

  /** Row k shows item k and its remove button is bound to index k. */
  predicate BoundTo(rows: seq<Row>, items: seq<string>) {
    |rows| == |items| && forall k :: 0 <= k < |rows| ==> rows[k] == Row(items[k], k)
  }

  /** `items.some(item => item.toLowerCase() === value.toLowerCase())`. */
  function IsDuplicate(items: seq<string>, value: string): (r: bool)
    ensures r <==> exists i :: 0 <= i < |items| && SameIgnoringCase(items[i], value)
  {
    if items == [] then false
    else if SameIgnoringCase(items[0], value) then true
    else
      var rest := IsDuplicate(items[1..], value);
      assert forall i :: 1 <= i < |items| ==> items[i] == items[1..][i - 1];
      rest
  }

  /** The items after `addItem(raw)`. */
  function AfterAdd(items: seq<string>, raw: string): seq<string> {
    var t := Trim(raw);
    if t == [] || IsDuplicate(items, t) then items else items + [t]
  }

  /** The items after a series of `addItem` calls, in order. */
  function AfterAdds(items: seq<string>, raws: seq<string>): seq<string>
    decreases |raws|
  {
    if raws == [] then items else AfterAdds(AfterAdd(items, raws[0]), raws[1..])
  }

  /** The trimmed form of each input, in order. */
  function Trims(raws: seq<string>): seq<string> {
    seq(|raws|, i requires 0 <= i < |raws| => Trim(raws[i]))
  }

  /** `splice(i, 1)`: the element at `i` goes and every later one moves one
      place to the left. */
  function RemoveAt<T>(s: seq<T>, i: int): (r: seq<T>)
    requires 0 <= i < |s|
    ensures |r| == |s| - 1
    ensures forall k :: 0 <= k < i ==> r[k] == s[k]
    ensures forall k :: i <= k < |r| ==> r[k] == s[k + 1]
    ensures multiset(r) + multiset{s[i]} == multiset(s)
  {
    assert s == s[..i] + [s[i]] + s[i + 1..];
    s[..i] + s[i + 1..]
  }

  /** Storable values are exactly the non-empty strings that are their own trim. */
  lemma StorableIsTrimmed(x: string)
    ensures Storable(x) <==> x != [] && Trim(x) == x
  {
    TrimFixpoint(x);
  }

  /** Adding keeps the invariant of the stored items. */
  lemma AddPreservesWellFormed(items: seq<string>, raw: string)
    requires WellFormed(items)
    ensures WellFormed(AfterAdd(items, raw))
  {
    var t := Trim(raw);
    if t != [] && !IsDuplicate(items, t) {
      TrimShape(raw);
      var r := items + [t];
      forall i | 0 <= i < |r| ensures Storable(r[i]) {
        if i < |items| { assert r[i] == items[i]; }
      }
      forall i, j | 0 <= i < j < |r| ensures !SameIgnoringCase(r[i], r[j]) {
        assert r[i] == items[i];
        if j == |items| {
          assert r[j] == t;
        } else {
          assert r[j] == items[j];
        }
      }
    }
  }

  /** Appending an item together with a row bound to the old length, as
      `addItem` does, keeps every row bound to its own position. */
  lemma AppendKeepsBound(rows: seq<Row>, items: seq<string>, t: string)
    requires BoundTo(rows, items)
    ensures BoundTo(rows + [Row(t, |items|)], items + [t])
  {
    var rows', items' := rows + [Row(t, |items|)], items + [t];
    forall k | 0 <= k < |rows'| ensures rows'[k] == Row(items'[k], k) {
      if k < |rows| {
        assert rows'[k] == rows[k] && items'[k] == items[k];
      }
    }
  }

  /** Removing keeps the invariant of the stored items. */
  lemma RemovePreservesWellFormed(items: seq<string>, i: int)
    requires WellFormed(items) && 0 <= i < |items|
    ensures WellFormed(RemoveAt(items, i))
  {
    var r := RemoveAt(items, i);
    forall p, q | 0 <= p < q < |r| ensures !SameIgnoringCase(r[p], r[q]) {
      var p', q' := if p < i then p else p + 1, if q < i then q else q + 1;
      assert r[p] == items[p'] && r[q] == items[q'] && p' < q';
    }
  }

  /** Adding grows the list by the trimmed value, or leaves it as it was:
      it is left as it was exactly when the trimmed value is empty or equals
      a stored item ignoring case. */
  lemma AddOutcomes(items: seq<string>, raw: string)
    ensures AfterAdd(items, raw) == items || AfterAdd(items, raw) == items + [Trim(raw)]
    ensures AfterAdd(items, raw) == items <==>
      IsBlank(raw) ||
      (exists i :: 0 <= i < |items| && SameIgnoringCase(items[i], Trim(raw)))
  {
    TrimShape(raw);
  }

  /** The first spelling wins: adding a value that equals a stored item
      ignoring case changes nothing. */
  lemma DuplicateRejected(items: seq<string>, raw: string, i: int)
    requires 0 <= i < |items| && SameIgnoringCase(items[i], Trim(raw))
    ensures AfterAdd(items, raw) == items
  {
  }

  /** Adding the same input twice is adding it once: the second call meets
      the first call's item as a duplicate. */
  lemma {:induction false} AddIdempotent(items: seq<string>, raw: string)
    ensures AfterAdd(AfterAdd(items, raw), raw) == AfterAdd(items, raw)
  {
    var t := Trim(raw);
    var once := AfterAdd(items, raw);
    if once != items {
      assert once[|items|] == t;
      assert IsDuplicate(once, t);
    }
  }

  /** Removing the item an add appended gives back the list before the add. */
  lemma AddRemoveRoundTrip(items: seq<string>, raw: string)
    requires AfterAdd(items, raw) != items
    ensures |AfterAdd(items, raw)| == |items| + 1
    ensures RemoveAt(AfterAdd(items, raw), |items|) == items
  {
    assert AfterAdd(items, raw) == items + [Trim(raw)];
  }

  /** Adding inputs whose trimmed forms are non-empty and distinct ignoring
      case, among themselves and from what is stored, appends exactly those
      trimmed forms, in order. */
  lemma {:induction false} AddsInOrder(items: seq<string>, raws: seq<string>)
    requires WellFormed(items + Trims(raws))
    ensures AfterAdds(items, raws) == items + Trims(raws)
    decreases |raws|
  {
    if raws != [] {
      var t := Trim(raws[0]);
      var grown := items + [t];
      assert Trims(raws) == [t] + Trims(raws[1..]);
      assert grown + Trims(raws[1..]) == items + Trims(raws);
      assert AfterAdd(items, raws[0]) == grown by {
        AppendFresh(items, raws);
      }
      AddsInOrder(grown, raws[1..]);
    }
  }

  /** The trimmed first of `raws` is appended when `items + Trims(raws)` is
      well formed. */
  lemma AppendFresh(items: seq<string>, raws: seq<string>)
    requires WellFormed(items + Trims(raws)) && raws != []
    ensures AfterAdd(items, raws[0]) == items + [Trim(raws[0])]
  {
    var all, t := items + Trims(raws), Trim(raws[0]);
    assert all[|items|] == t;
    assert t != [];
    assert !IsDuplicate(items, t) by {
      forall i | 0 <= i < |items| ensures !SameIgnoringCase(items[i], t) {
        assert all[i] == items[i];
      }
    }
  }

  /** A value followed by a different spelling of it stores the value only. */
  lemma {:induction false} AddThenRespelled(first: string, second: string)
    requires Storable(first)
    requires SameIgnoringCase(first, Trim(second))
    ensures AfterAdds([], [first, second]) == [first]
  {
    StorableIsTrimmed(first);
    assert AfterAdd([], first) == [first];
    DuplicateRejected([first], second, 0);
    assert [first, second][1..] == [second];
    assert AfterAdds([first], [second]) == AfterAdds([first], []);
  }

  /** The duplicate scenario: adding "Milk" and then "milk" stores "Milk" only.
      The two literals come in as parameters pinned by the precondition, so
      the proof works on names and unfolds the literals only where it
      compares their lower-cased forms. */
  lemma MilkScenario(first: string, second: string)
    requires first == "Milk" && second == "milk"
    ensures AfterAdds([], [first, second]) == [first]
  {
    TrimFixpoint(second);
    assert LowerStr(first) == "milk" == LowerStr(second);
    AddThenRespelled(first, second);
  }
}
