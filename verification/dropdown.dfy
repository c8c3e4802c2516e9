/**
 * The selection engine behind the searchable single/multi-select dropdown:
 * the candidate list, the search text, the list currently displayed and the
 * selection, and the three handlers that change them (typing, a key press in
 * the search box, a click on a displayed item).
 */
module DropDown {
  import opened Wrappers
  import Seqs
  import Text

  /** A candidate: identity is `id`; two items may share a title. */
  datatype Item = Item(id: string, title: string, icon: Option<string>)

  /**
   * The widget's state. `shown` is the displayed (filtered) list, kept as state
   * of its own and recomputed only when `input` changes; `multi` is the
   * multi-select flag, held at its mount-time value.
   */
  datatype State = State(
    input: string,
    total: seq<Item>,
    shown: seq<Item>,
    selected: seq<Item>,
    multi: bool)

  /** The key that submits the typed text as a new entry. */
  const EnterKey: string := "Enter"

  /** The search box's test for one item: its title contains the query, ignoring ASCII case. */
  predicate Matches(item: Item, query: string) {
    Text.ContainsIgnoringCase(item.title, query)
  }

  /** `Matches` with the query fixed, as a filter criterion. */
  function MatchesQuery(query: string): Item -> bool {
    x => Matches(x, query)
  }

  /** The candidates whose title contains `query`, ignoring case, in candidate-list order. */
  function Filter(total: seq<Item>, query: string): (r: seq<Item>)
    ensures |r| <= |total|
    ensures forall x :: x in r <==> x in total && Matches(x, query)
  {
    Seqs.Keep(total, MatchesQuery(query))
  }

  /**
   * The filter effect's computation: one pass over the candidates, keeping
   * each one whose title matches, in order.
   */
  method FilterItems(total: seq<Item>, query: string) returns (r: seq<Item>)
    ensures r == Filter(total, query)
  {
    r := [];
    var i := 0;
    while i < |total|
      invariant 0 <= i <= |total|
      invariant r == Filter(total[..i], query)
      decreases |total| - i
    {
      Seqs.KeepConcat(total[..i], [total[i]], MatchesQuery(query));
      assert total[..i + 1] == total[..i] + [total[i]];
      if Matches(total[i], query) {
        r := r + [total[i]];
      }
      i := i + 1;
    }
    assert total[..i] == total;
  }

  /** Some selected item carries `id` (identity is by id, never by title). */
  predicate HasId(items: seq<Item>, id: string) {
    exists i :: 0 <= i < |items| && items[i].id == id
  }

  /** No two items carry the same id. */
  predicate DistinctIds(items: seq<Item>) {
    forall i, j :: 0 <= i < j < |items| ==> items[i].id != items[j].id
  }

  /** The filter criterion of a multi-select toggle-off: the item does not carry `id`. */
  function IdIsNot(id: string): Item -> bool {
    (x: Item) => x.id != id
  }

  /** Every item except those whose id is `id`, in their original order. */
  function RemoveId(items: seq<Item>, id: string): (r: seq<Item>)
    ensures !HasId(r, id)
    ensures forall x :: x in r <==> x in items && x.id != id
    ensures forall x {:trigger multiset(r)[x]} :: multiset(r)[x] == if x.id != id then multiset(items)[x] else 0
    ensures Seqs.IsSubseq(r, items)
  {
    var r := Seqs.Keep(items, IdIsNot(id));
    assert forall i :: 0 <= i < |r| ==> r[i] in r;
    Seqs.KeepMultiset(items, IdIsNot(id));
    Seqs.KeepSubseq(items, IdIsNot(id));
    r
  }

  /**
   * The filter effect: once a handler has run, the displayed list is
   * recomputed from the candidate list if and only if the search text differs
   * from `previousInput`, the text before the handler ran.
   */
  function Refilter(previousInput: string, s: State): (r: State)
    ensures r.input == s.input && r.total == s.total && r.selected == s.selected && r.multi == s.multi
    ensures s.input != previousInput ==>
      && Seqs.IsSubseq(r.shown, s.total)
      && (forall x {:trigger multiset(r.shown)[x]} ::
            multiset(r.shown)[x] == if Matches(x, s.input) then multiset(s.total)[x] else 0)
    ensures s.input != previousInput ==> r.shown == Filter(s.total, s.input)
    ensures s.input == previousInput ==> r.shown == s.shown
  {
    if s.input != previousInput then
      FilterCharacterized(s.total, s.input, Filter(s.total, s.input));
      s.(shown := Filter(s.total, s.input))
    else
      s
  }

  /** A freshly mounted widget: all candidates displayed, nothing typed, nothing selected. */
  function Mount(items: seq<Item>, multi: bool): (s: State)
    ensures s.total == items && s.input == "" && s.selected == [] && s.multi == multi
    ensures s.shown == Filter(s.total, s.input)
  {
    FilterEmptyQuery(items);
    State("", items, items, [], multi)
  }

  /** Typing: the search text becomes `value`; the list is refiltered when the text changed. */
  function Change(s: State, value: string): (r: State)
    ensures r.input == value
    ensures r.total == s.total && r.selected == s.selected && r.multi == s.multi
    ensures value != s.input ==> r.shown == Filter(s.total, value)
  {
    Refilter(s.input, s.(input := value))
  }

  /** The entry that pressing Enter creates from the typed text, with the generated id. */
  function NewItem(s: State, freshId: string): Item {
    Item(freshId, s.input, None)
  }

  /**
   * A key press in the search box. Enter turns the typed text (empty or not)
   * into a new candidate with id `freshId` and no icon, puts it at the head of
   * the candidate list, selects it (appended in multi-select mode, the whole
   * selection in single-select mode) and clears the text. Any other key does
   * nothing.
   */
  function KeyDown(s: State, key: string, freshId: string): (r: State)
    ensures key != EnterKey ==> r == s
    ensures key == EnterKey ==>
      && |r.total| == |s.total| + 1
      && r.total[0] == Item(freshId, s.input, None)
      && r.total[1..] == s.total
      && r.input == ""
      && r.multi == s.multi
      && (s.multi ==> r.selected == s.selected + [r.total[0]])
      && (!s.multi ==> r.selected == [r.total[0]])
  {
    if key == EnterKey then
      var n := NewItem(s, freshId);
      Refilter(s.input, s.(total := [n] + s.total,
                           selected := if s.multi then s.selected + [n] else [n],
                           input := ""))
    else
      s
  }

  /**
   * A click on a displayed item. Single-select: the selection becomes exactly
   * that item. Multi-select: an item whose id is already selected is removed
   * (all items with that id), otherwise the item is appended and the search
   * text cleared. The candidate list is never touched.
   */
  function Click(s: State, item: Item): (r: State)
    ensures r.total == s.total && r.multi == s.multi
    ensures !s.multi ==> r.selected == [item] && r.input == s.input && r.shown == s.shown
    ensures s.multi && HasId(s.selected, item.id) ==>
      && !HasId(r.selected, item.id)
      && (forall x :: x in r.selected <==> x in s.selected && x.id != item.id)
      && (forall x {:trigger multiset(r.selected)[x]} ::
            multiset(r.selected)[x] == if x.id != item.id then multiset(s.selected)[x] else 0)
      && Seqs.IsSubseq(r.selected, s.selected)
      && r.input == s.input
      && r.shown == s.shown
    ensures s.multi && !HasId(s.selected, item.id) ==>
      r.selected == s.selected + [item] && r.input == ""
  {
    if s.multi then
      if HasId(s.selected, item.id) then
        s.(selected := RemoveId(s.selected, item.id))
      else
        Refilter(s.input, s.(selected := s.selected + [item], input := ""))
    else
      s.(selected := [item])
  }

  /** With nothing typed, every candidate is displayed, in order. */
  lemma FilterEmptyQuery(total: seq<Item>)
    ensures Filter(total, "") == total
  {
    forall x | x in total
      ensures Matches(x, "")
    {
      Text.IncludesEmpty(Text.Lower(x.title));
    }
    Seqs.KeepAll(total, MatchesQuery(""));
  }

  /**
   * The displayed list is exactly the matching candidates in candidate-list
   * order: it is a subsequence of the candidates, and it holds every matching
   * candidate as often as the candidate list does and no other candidate.
   * Conversely, any list with those properties is the displayed list.
   */
  lemma FilterCharacterized(total: seq<Item>, query: string, r: seq<Item>)
    ensures r == Filter(total, query) <==>
      && Seqs.IsSubseq(r, total)
      && forall x :: multiset(r)[x] == if Matches(x, query) then multiset(total)[x] else 0
  {
    var p := MatchesQuery(query);
    Seqs.KeepSubseq(total, p);
    Seqs.KeepMultiset(total, p);
    if Seqs.IsSubseq(r, total) && forall x :: multiset(r)[x] == if Matches(x, query) then multiset(total)[x] else 0 {
      Seqs.KeepUnique(total, p, r);
    }
  }

  /** A query that no title contains displays nothing. */
  lemma FilterNoMatch(total: seq<Item>, query: string)
    requires forall x :: x in total ==> !Matches(x, query)
    ensures Filter(total, query) == []
  {
    var r := Filter(total, query);
    Seqs.KeepMultiset(total, MatchesQuery(query));
    assert multiset(r) == multiset{};
  }

  /** Removing an id from a list with distinct ids keeps the ids distinct. */
  lemma RemoveIdKeepsDistinct(items: seq<Item>, id: string)
    requires DistinctIds(items)
    ensures DistinctIds(RemoveId(items, id))
  {
    Seqs.KeepInjective(items, IdIsNot(id), (x: Item) => x.id);
  }

  /** No click, in either mode, can make two selected items share an id. */
  lemma ClickKeepsDistinct(s: State, item: Item)
    requires DistinctIds(s.selected)
    ensures DistinctIds(Click(s, item).selected)
  {
    if s.multi {
      if HasId(s.selected, item.id) {
        RemoveIdKeepsDistinct(s.selected, item.id);
      } else {
        var r := Click(s, item).selected;
        forall i, j | 0 <= i < j < |r|
          ensures r[i].id != r[j].id
        {
          if j == |s.selected| {
            assert r[i] == s.selected[i];
          }
        }
      }
    }
  }

  /** Appending an item whose id is absent, then removing that id, gives back the list. */
  lemma RemoveIdOfAppended(items: seq<Item>, item: Item)
    requires !HasId(items, item.id)
    ensures RemoveId(items + [item], item.id) == items
  {
    var p := IdIsNot(item.id);
    Seqs.KeepConcat(items, [item], p);
    assert forall x :: x in items ==> p(x);
    Seqs.KeepAll(items, p);
    assert Seqs.Keep([item], p) == [];
  }

  /**
   * Multi-select: clicking an unselected item and then clicking it again
   * restores the selection and the candidate list; only the search text stays
   * cleared.
   */
  lemma ClickTwiceRestoresSelection(s: State, item: Item)
    requires s.multi && !HasId(s.selected, item.id)
    ensures Click(Click(s, item), item).selected == s.selected
    ensures Click(Click(s, item), item).total == s.total
    ensures Click(Click(s, item), item).input == ""
  {
    var s1 := Click(s, item);
    assert s1.selected[|s.selected|] == item;
    assert HasId(s1.selected, item.id);
    RemoveIdOfAppended(s.selected, item);
  }
}
