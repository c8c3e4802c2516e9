/**
 * A session of the dropdown: the widget is mounted, then receives a stream of
 * user events, each handled to completion before the next. After every
 * handler that sets the selection, the registered change handler (if any)
 * receives the whole selection.
 */
module Session {
  import opened DropDown
  import Seqs

  /** One user event, as the search box and the list deliver it. */
  datatype Event =
    | Typed(value: string)
    | KeyPressed(key: string, freshId: string)
    | Clicked(item: Item)

  /** Whether the handler of `e` sets the selection (Enter, or any click). */
  predicate SetsSelection(e: Event) {
    (e.KeyPressed? && e.key == EnterKey) || e.Clicked?
  }

  /** The state after handling `e`. */
  function Step(s: State, e: Event): (r: State)
    ensures r.multi == s.multi
    ensures !SetsSelection(e) ==> r.selected == s.selected
    ensures e.Typed? || e.Clicked? ==> r.total == s.total
  {
    match e
    case Typed(value) => Change(s, value)
    case KeyPressed(key, freshId) => KeyDown(s, key, freshId)
    case Clicked(item) => Click(s, item)
  }

  /**
   * The snapshots passed to the change handler while handling `e`: one per
   * handler that sets the selection, when a change handler is registered.
   */
  function Notified(observed: bool, s: State, e: Event): seq<seq<Item>> {
    if observed && SetsSelection(e) then [Step(s, e).selected] else []
  }

  /** The final state and the change-handler snapshots of handling `events` in order. */
  function Run(observed: bool, s: State, events: seq<Event>): (seq<seq<Item>>, State)
    decreases |events|
  {
    if |events| == 0 then ([], s)
    else
      var rest := Run(observed, Step(s, events[0]), events[1..]);
      (Notified(observed, s, events[0]) + rest.0, rest.1)
  }

  /** Mounting notifies the change handler once, with the empty selection. */
  function MountNotified(observed: bool): seq<seq<Item>> {
    if observed then [[]] else []
  }

  /** How many of `events` set the selection. */
  function CountSelecting(events: seq<Event>): nat
    decreases |events|
  {
    if |events| == 0 then 0
    else (if SetsSelection(events[0]) then 1 else 0) + CountSelecting(events[1..])
  }

  /**
   * With a change handler registered, it is called exactly once per event that
   * sets the selection and never otherwise; without one, nothing is emitted.
   */
  lemma {:induction false} RunNotificationCount(observed: bool, s: State, events: seq<Event>)
    ensures |Run(observed, s, events).0| == if observed then CountSelecting(events) else 0
    decreases |events|
  {
    if |events| != 0 {
      RunNotificationCount(observed, Step(s, events[0]), events[1..]);
    }
  }

  /** The last snapshot handed to the change handler is the selection after the run. */
  lemma {:induction false} RunLastNotificationIsFinal(s: State, events: seq<Event>)
    requires |events| > 0 && SetsSelection(events[|events| - 1])
    ensures |Run(true, s, events).0| > 0
    ensures Run(true, s, events).0[|Run(true, s, events).0| - 1] == Run(true, s, events).1.selected
    decreases |events|
  {
    if |events| == 1 {
      assert events[1..] == [];
    } else {
      RunLastNotificationIsFinal(Step(s, events[0]), events[1..]);
    }
  }

  /** One step of `Run`: the first event's snapshots come first, then the rest from the state it leaves. */
  lemma RunUnfold(observed: bool, s: State, events: seq<Event>)
    requires |events| != 0
    ensures Run(observed, s, events).1 == Run(observed, Step(s, events[0]), events[1..]).1
    ensures Run(observed, s, events).0
      == Notified(observed, s, events[0]) + Run(observed, Step(s, events[0]), events[1..]).0
  {
  }

  /** Handling `a` and then `b` ends in the state that handling `a + b` ends in. */
  lemma {:induction false} RunConcatFinal(observed: bool, s: State, a: seq<Event>, b: seq<Event>)
    ensures Run(observed, s, a + b).1 == Run(observed, Run(observed, s, a).1, b).1
    decreases |a|
  {
    if |a| == 0 {
      assert a + b == b;
    } else {
      assert (a + b)[0] == a[0];
      assert (a + b)[1..] == a[1..] + b;
      RunUnfold(observed, s, a + b);
      RunUnfold(observed, s, a);
      RunConcatFinal(observed, Step(s, a[0]), a[1..], b);
    }
  }

  /** The snapshots of handling `a + b` are those of `a` followed by those of `b`. */
  lemma {:induction false} RunConcatSnapshots(observed: bool, s: State, a: seq<Event>, b: seq<Event>)
    ensures Run(observed, s, a + b).0 == Run(observed, s, a).0 + Run(observed, Run(observed, s, a).1, b).0
    decreases |a|
  {
    if |a| == 0 {
      assert a + b == b;
    } else {
      var s1 := Step(s, a[0]);
      assert (a + b)[0] == a[0];
      assert (a + b)[1..] == a[1..] + b;
      RunUnfold(observed, s, a + b);
      RunUnfold(observed, s, a);
      RunConcatSnapshots(observed, s1, a[1..], b);
      var mid := Run(observed, s1, a[1..]).1;
      Seqs.AppendAssoc(Notified(observed, s, a[0]), Run(observed, s1, a[1..]).0, Run(observed, mid, b).0);
    }
  }

  /**
   * Handling `a` and then `b` is handling `a + b`: the final state is the same
   * and the snapshots are those of `a` followed by those of `b`.
   */
  lemma RunConcat(observed: bool, s: State, a: seq<Event>, b: seq<Event>)
    ensures Run(observed, s, a + b).1 == Run(observed, Run(observed, s, a).1, b).1
    ensures Run(observed, s, a + b).0 == Run(observed, s, a).0 + Run(observed, Run(observed, s, a).1, b).0
  {
    RunConcatFinal(observed, s, a, b);
    RunConcatSnapshots(observed, s, a, b);
  }

  /**
   * Each snapshot is the selection right after the event that caused it: when
   * event `n - 1` sets the selection, the change handler's snapshot number
   * `k`, where `k + 1` counts the selection-setting events among the first
   * `n`, is the selection after handling those first `n` events.
   */
  lemma RunSnapshotsAreSelections(s: State, events: seq<Event>, n: nat)
    requires 0 < n <= |events| && SetsSelection(events[n - 1])
    ensures CountSelecting(events[..n]) >= 1
    ensures CountSelecting(events[..n]) - 1 < |Run(true, s, events).0|
    ensures Run(true, s, events).0[CountSelecting(events[..n]) - 1] == Run(true, s, events[..n]).1.selected
  {
    var prefix := events[..n];
    assert prefix[|prefix| - 1] == events[n - 1];
    assert prefix + events[n..] == events;
    RunConcat(true, s, prefix, events[n..]);
    RunNotificationCount(true, s, prefix);
    RunLastNotificationIsFinal(s, prefix);
  }

  /**
   * Over a whole mounted session, a registered change handler is called once
   * at mount with the empty selection and then once per selection-setting
   * event; an absent handler is never called.
   */
  lemma MountedSessionNotifications(observed: bool, items: seq<Item>, multi: bool, events: seq<Event>)
    ensures |MountNotified(observed) + Run(observed, Mount(items, multi), events).0|
      == if observed then 1 + CountSelecting(events) else 0
    ensures observed ==>
      var notes := MountNotified(observed) + Run(observed, Mount(items, multi), events).0;
      |notes| != 0 && notes[0] == []
  {
    RunNotificationCount(observed, Mount(items, multi), events);
  }

  /**
   * The conditions the widget itself guarantees for an event: a click is on
   * an item of the displayed list, and the id generated for Enter is new to
   * the candidate list.
   */
  predicate Admissible(s: State, e: Event) {
    match e
    case Typed(_) => true
    case KeyPressed(key, freshId) => key == EnterKey ==> !HasId(s.total, freshId)
    case Clicked(item) => item in s.shown
  }

  /** Every event of `events` is admissible in the state it is handled in. */
  predicate AllAdmissible(s: State, events: seq<Event>)
    decreases |events|
  {
    |events| == 0 || (Admissible(s, events[0]) && AllAdmissible(Step(s, events[0]), events[1..]))
  }

  /**
   * The state invariant: displayed and selected items are candidates, selected
   * ids are pairwise distinct, and single-select mode holds at most one item.
   */
  predicate Wf(s: State) {
    && (forall x :: x in s.shown ==> x in s.total)
    && (forall x :: x in s.selected ==> x in s.total)
    && DistinctIds(s.selected)
    && (!s.multi ==> |s.selected| <= 1)
  }

  lemma MountWf(items: seq<Item>, multi: bool)
    ensures Wf(Mount(items, multi))
  {
  }

  /** A candidate absent from the list is absent from every part of a well-formed state. */
  lemma FreshIdNotSelected(s: State, id: string)
    requires Wf(s) && !HasId(s.total, id)
    ensures !HasId(s.selected, id)
  {
    forall i | 0 <= i < |s.selected|
      ensures s.selected[i].id != id
    {
      assert s.selected[i] in s.total;
    }
  }

  /** Every admissible event keeps the state invariant. */
  lemma StepWf(s: State, e: Event)
    requires Wf(s) && Admissible(s, e)
    ensures Wf(Step(s, e))
  {
    var r := Step(s, e);
    match e
    case Typed(value) =>
      assert forall x :: x in Filter(s.total, value) ==> x in s.total;
    case KeyPressed(key, freshId) =>
      if key == EnterKey {
        var n := r.total[0];
        assert forall x :: x in s.total ==> x in r.total;
        FreshIdNotSelected(s, freshId);
        if s.multi {
          assert r.selected == s.selected + [n];
          forall i, j | 0 <= i < j < |r.selected|
            ensures r.selected[i].id != r.selected[j].id
          {
            if j == |s.selected| {
              assert r.selected[i] == s.selected[i];
            }
          }
        }
      }
    case Clicked(item) =>
      ClickKeepsDistinct(s, item);
  }

  /** Every session of admissible events keeps the state invariant. */
  lemma {:induction false} RunWf(observed: bool, s: State, events: seq<Event>)
    requires Wf(s) && AllAdmissible(s, events)
    ensures Wf(Run(observed, s, events).1)
    decreases |events|
  {
    if |events| != 0 {
      StepWf(s, events[0]);
      RunWf(observed, Step(s, events[0]), events[1..]);
    }
  }

  /** In single-select mode the selection never holds more than one item, whatever happens. */
  lemma {:induction false} RunSingleSelect(observed: bool, s: State, events: seq<Event>)
    requires !s.multi && |s.selected| <= 1
    ensures |Run(observed, s, events).1.selected| <= 1
    decreases |events|
  {
    if |events| != 0 {
      RunSingleSelect(observed, Step(s, events[0]), events[1..]);
    }
  }

  /** One event leaves the candidate list as a suffix of the new one. */
  lemma StepKeepsCandidates(s: State, e: Event)
    ensures Seqs.IsSuffix(s.total, Step(s, e).total)
  {
  }

  /** The candidate list only grows, by prepending: the original list stays an unchanged suffix. */
  lemma {:induction false} RunKeepsCandidates(observed: bool, s: State, events: seq<Event>)
    ensures Seqs.IsSuffix(s.total, Run(observed, s, events).1.total)
    decreases |events|
  {
    if |events| != 0 {
      var s1 := Step(s, events[0]);
      var last := Run(observed, s1, events[1..]).1;
      assert Run(observed, s, events).1 == last;
      StepKeepsCandidates(s, events[0]);
      RunKeepsCandidates(observed, s1, events[1..]);
      Seqs.SuffixTransitive(s.total, s1.total, last.total);
    }
  }

  /** The displayed list agrees with the candidate list and the search text. */
  predicate Synced(s: State) {
    s.shown == Filter(s.total, s.input)
  }

  /**
   * Every event keeps the displayed list in agreement with the candidates and
   * the search text, except Enter with an empty search box.
   */
  lemma StepSynced(s: State, e: Event)
    requires Synced(s)
    requires !(e.KeyPressed? && e.key == EnterKey && s.input == "")
    ensures Synced(Step(s, e))
  {
  }

  /**
   * Enter with an empty search box adds a candidate but does not refilter
   * (the search text does not change), so the new entry is not displayed.
   */
  lemma EnterOnEmptyInputLeavesViewStale(s: State, freshId: string)
    requires Synced(s) && s.input == "" && !HasId(s.total, freshId)
    ensures !Synced(Step(s, KeyPressed(EnterKey, freshId)))
    ensures Step(s, KeyPressed(EnterKey, freshId)).total[0] !in Step(s, KeyPressed(EnterKey, freshId)).shown
  {
  }

  /**
   * Enter with a non-empty search box refilters with the cleared text, so the
   * new entry is displayed first, followed by every other candidate.
   */
  lemma EnterShowsNewEntryFirst(s: State, freshId: string)
    requires s.input != ""
    ensures Step(s, KeyPressed(EnterKey, freshId)).shown == Step(s, KeyPressed(EnterKey, freshId)).total
    ensures Step(s, KeyPressed(EnterKey, freshId)).shown[0].title == s.input
  {
    FilterEmptyQuery(Step(s, KeyPressed(EnterKey, freshId)).total);
  }

  /**
   * Typing "Custom" and pressing Enter in a multi-select widget mounted with
   * no candidates yields that one entry as the whole candidate list and the
   * whole selection, with the search box cleared, and tells the change handler
   * about the empty selection at mount and the one-item selection after Enter.
   */
  lemma SubmitThenSelect(id: string)
    ensures var (out, s) := Run(true, Mount([], true), [Typed("Custom"), KeyPressed(EnterKey, id)]);
      var n := Item(id, "Custom", Wrappers.None);
      && s.total == [n] && s.selected == [n] && s.input == "" && s.shown == [n]
      && MountNotified(true) + out == [[], [n]]
  {
    var s0 := Mount([], true);
    var s1 := Step(s0, Typed("Custom"));
    var s2 := Step(s1, KeyPressed(EnterKey, id));
    var n := Item(id, "Custom", Wrappers.None);
    assert s2.total == [n] && s2.selected == [n];
    FilterEmptyQuery(s2.total);
    var evs := [Typed("Custom"), KeyPressed(EnterKey, id)];
    var tail := evs[1..];
    assert tail == [KeyPressed(EnterKey, id)] && tail[1..] == [];
    assert Run(true, s2, tail[1..]) == ([], s2);
    assert Run(true, s1, tail).0 == [[n]] + [];
    assert Run(true, s0, evs).0 == [] + [[n]];
    assert Run(true, s0, evs).1 == s2;
  }
}
