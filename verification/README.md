# Searchable dropdown: selection engine and hotkey dispatcher, in Dafny

This project models the logic of a React searchable single/multi-select
dropdown (`components/DropDown/index.tsx`) and of its key-to-action lookup hook
(`hooks/useHotKey.ts`). It proves properties of that model.

- **Engine** (`dropdown.dfy`, module `DropDown`). A candidate is an `Item` with
  an id, a title and an optional icon. The widget `State` holds five fields:
  - the search text `input`;
  - the candidate list `total`;
  - the displayed list `shown`, which is the component's `filteredItems` state;
  - the selection `selected`;
  - the multi-select flag `multi`.

  The handlers are pure transitions: `Change` for typing, `KeyDown` for a key in
  the search box, and `Click` for a click on a displayed item. `Refilter` models
  the filter effect. `Filter` is the filtered view as a pure function of the
  candidate list and the query.
- **Session** (`session.dfy`, module `Session`). A mounted widget receives a
  stream of events. `Run` returns the final state and the snapshots passed to
  the `onChange` handler. The module also states invariants over runs. The
  state invariant `Wf` is proved for admissible streams only: every id that
  Enter generates is new to the candidate list, and every click is on a
  displayed item. The single-select bound holds for any stream.
- **Hotkeys** (`hotkeys.dfy`, module `HotKeys`). A key selects the action of the
  first binding for that key, or no action. It is modelled on its own because
  the dropdown does not use it.
- **Supporting modules.** `seqs.dfy` holds the order-preserving filter
  (`Array.prototype.filter`) and the subsequence relation. `text.dfy` holds
  lower-casing and substring search (`toLowerCase`, `includes`). `wrappers.dfy`
  holds `Option`.

Behaviour of the code that the model follows:

- **Enter has no empty-input guard.** Enter on an empty search box creates a
  candidate with an empty title and selects it. No trimming is done.
- **The change handler fires on every selection write.** It runs after Enter and
  after every click, because each one stores a new array. That includes a
  single-select click on the item that is already selected. It also runs once
  at mount, with the empty selection.
- **The displayed list is recomputed only when the search text changes.** The
  effect depends only on `inputValue`. So Enter on an empty search box adds a
  candidate that is not displayed until the text changes
  (`Session.EnterOnEmptyInputLeavesViewStale`).
- **Among clicks, only adding an item in multi-select mode clears the search
  text.** Removing one leaves it unchanged, and so does a single-select click.
  Enter clears it in both modes.
- **"Remove last selected" and "clear selection" do not exist in the code.**

## Model

| member | source | states |
|---|---|---|
| DropDown.Filter | components/DropDown/index.tsx:75-77 | the displayed list is no longer than the candidate list and holds exactly the candidates whose lower-cased title contains the lower-cased query |
| DropDown.FilterCharacterized | components/DropDown/index.tsx:75-77 | a list equals the filtered view if and only if it is a subsequence of the candidates holding every matching candidate exactly as often as the candidate list does and no other; this pins down both contents and candidate-list order |
| DropDown.FilterEmptyQuery | components/DropDown/index.tsx:75-77 | with an empty query the filtered view is the whole candidate list, in order |
| DropDown.FilterNoMatch | components/DropDown/index.tsx:75-77 | a query no title contains yields the empty view |
| DropDown.FilterItems | components/DropDown/index.tsx:74-78 | the left-to-right filtering pass computes exactly the filtered view |
| DropDown.Refilter | components/DropDown/index.tsx:74-79 | after a handler whose search text differs from the text before it, the displayed list is a subsequence of the current candidates holding each candidate whose lower-cased title contains the lower-cased text exactly as often as the candidates do, and no other; when the text is unchanged the displayed list is left as it was, even if the candidates changed |
| DropDown.Mount | components/DropDown/index.tsx:24-28 | a mounted widget has empty search text and empty selection, the given candidates, and a displayed list that agrees with the filter |
| DropDown.Change | components/DropDown/index.tsx:31-33 | typing sets the search text and changes neither candidates nor selection; a changed text refilters |
| DropDown.KeyDown | components/DropDown/index.tsx:39-51 | a key other than Enter changes nothing; Enter prepends a new icon-less item titled with the search text and carrying the generated id, keeps the old list as the tail, appends it to the selection in multi-select mode or makes it the whole selection in single-select mode, and clears the text |
| DropDown.Click | components/DropDown/index.tsx:53-72 | clicks never change the candidates; single-select: the selection becomes exactly the clicked item; multi-select with the id selected: every item with that id leaves, every other item stays exactly as often as before and in its original order, and the text is kept; multi-select with the id absent: the item is appended and the text cleared |
| DropDown.RemoveId | components/DropDown/index.tsx:61-63 | the result has no item with the id, holds every other item exactly as often as the input does, and is a subsequence of the input |
| DropDown.RemoveIdKeepsDistinct | components/DropDown/index.tsx:61-63 | removing an id from a selection with distinct ids keeps them distinct |
| DropDown.ClickKeepsDistinct | components/DropDown/index.tsx:53-72 | whatever item is clicked and in either mode, a selection with pairwise distinct ids keeps them distinct |
| DropDown.RemoveIdOfAppended | components/DropDown/index.tsx:61-65 | appending an item whose id is absent and then removing that id gives back the original list |
| DropDown.ClickTwiceRestoresSelection | components/DropDown/index.tsx:58-68 | multi-select: clicking an unselected item twice restores the selection and candidates; the search text ends up empty |
| Session.Step | components/DropDown/index.tsx:112-127 | an event never changes the mode; typing and other non-selecting events leave the selection alone; typing and clicks leave the candidates alone |
| Session.RunConcat | components/DropDown/index.tsx:98-102 | handling two event streams one after the other gives the same final state as handling their concatenation, and the snapshots of the first followed by those of the second |
| Session.RunSnapshotsAreSelections | components/DropDown/index.tsx:98-102 | in any stream, the snapshot the change handler receives for the k-th selection-setting event is the selection right after the prefix of the stream that ends with that event |
| Session.MountedSessionNotifications | components/DropDown/index.tsx:98-102 | over a mounted session, a registered handler is called once more than there are selection-setting events, and its first snapshot is the empty selection; an absent handler is never called |
| Session.RunNotificationCount | components/DropDown/index.tsx:98-102 | over any event stream, a registered handler is called exactly once per Enter or click and never for typing or other keys; an absent handler is never called |
| Session.RunLastNotificationIsFinal | components/DropDown/index.tsx:98-102 | when the stream ends with a selection-writing event, the last snapshot passed to the handler is the final selection |
| Session.MountWf | components/DropDown/index.tsx:24-28 | a freshly mounted widget satisfies the state invariant |
| Session.FreshIdNotSelected | components/DropDown/index.tsx:41-42 | an id absent from the candidates is absent from the selection of a well-formed state |
| Session.StepWf | components/DropDown/index.tsx:39-72 | Enter with a fresh id and clicks on displayed items keep these facts: displayed and selected items are candidates, selected ids are pairwise distinct, and single-select mode holds at most one item |
| Session.RunWf | components/DropDown/index.tsx:39-72 | the state invariant holds after every stream of such events |
| Session.RunSingleSelect | components/DropDown/index.tsx:44-48 | in single-select mode the selection never exceeds one item, for any events at all |
| Session.StepKeepsCandidates | components/DropDown/index.tsx:43 | a single event never removes or reorders a candidate: the list before the event is a suffix of the list after it |
| Session.RunKeepsCandidates | components/DropDown/index.tsx:43 | the candidate list only grows, and the original list stays its unchanged suffix |
| Session.StepSynced | components/DropDown/index.tsx:74-79 | if the displayed list agrees with the filter before an event, it still agrees after it, for every event except Enter on an empty search box |
| Session.EnterOnEmptyInputLeavesViewStale | components/DropDown/index.tsx:74-79 | Enter on an empty search box with a fresh id leaves the displayed list out of date: the new entry is not shown |
| Session.EnterShowsNewEntryFirst | components/DropDown/index.tsx:40-49 | Enter with non-empty text displays every candidate, with the new entry first and titled with that text |
| Session.SubmitThenSelect | components/DropDown/index.tsx:39-51 | in a multi-select widget with no candidates, typing "Custom" and pressing Enter gives that one entry as candidate list, selection and display, with empty search text; the handler receives `[]` and then `[entry]` |
| Text.LowerChar | components/DropDown/index.tsx:76 | the result is never an ASCII capital; capitals map to the letter 32 code points higher; other characters are unchanged |
| Text.Lower | components/DropDown/index.tsx:76 | lower-casing keeps the length and every non-capital character, maps each ASCII capital to the small letter 32 code points higher, and leaves no ASCII capital |
| Text.LowerIdempotent | components/DropDown/index.tsx:76 | lower-casing twice equals lower-casing once |
| Text.IncludesIffOccurs | components/DropDown/index.tsx:76 | the left-to-right containment test holds exactly when the needle occurs at some position of the haystack |
| Seqs.Keep | components/DropDown/index.tsx:75-77 | filtering holds exactly the elements that satisfy the criterion and is no longer than its input |
| Seqs.KeepMultiset | components/DropDown/index.tsx:75-77 | filtering keeps each satisfying element exactly as often as it occurs, and no other element |
| Seqs.KeepSubseq | components/DropDown/index.tsx:75-77 | filtering never reorders: the result is a subsequence of the input |
| Seqs.KeepUnique | components/DropDown/index.tsx:75-77 | any subsequence with filtering's multiplicities is the filtering result |
| Seqs.KeepConcat | components/DropDown/index.tsx:75-77 | filtering a concatenation gives the concatenation of the filtered parts |
| HotKeys.FirstMatch | hooks/useHotKey.ts:12-14 | the returned index is the lowest whose binding key equals the pressed key; no index is returned only when no binding matches |
| HotKeys.Dispatch | hooks/useHotKey.ts:12-18 | there is no action exactly when no binding matches; otherwise the action is that of the first matching binding |
| HotKeys.HandleKey | hooks/useHotKey.ts:8-19 | handling a key runs at most one action; it runs none exactly when nothing matches, and otherwise runs the first matching binding's action, the same one `Dispatch` gives |
| HotKeys.FirstMatchUnique | hooks/useHotKey.ts:12-14 | there is only one first match, even when several bindings share a key |
| HotKeys.DispatchAppendAfterMatch | hooks/useHotKey.ts:12-14 | bindings appended after a matching table do not change the dispatched action |
| HotKeys.DispatchAppendNoMatch | hooks/useHotKey.ts:12-18 | when nothing in the table matches, dispatching over the table plus appended bindings equals dispatching over the appended bindings alone |
| HotKeys.DispatchDistinctKeys | hooks/useHotKey.ts:12-14 | with pairwise distinct keys, a key dispatches the action of its one binding |
| HotKeys.DispatchAll | hooks/useHotKey.ts:7-21 | a stream of key presses runs no more actions than there are presses |
| HotKeys.DispatchAllSplit | hooks/useHotKey.ts:7-21 | no state carries over between presses: two streams in succession run exactly the actions of each stream alone, concatenated |

## Left out

- **React plumbing is not modelled.** That covers state hooks, render batching, effect scheduling and `useCallback` memoisation (`hooks/useHotKey.ts:8,20`). Each event runs to completion and its handler's state updates apply together. Effects then run in order, as one `Step`.
- **Dropdown visibility is not modelled.** That covers the focus and blur handlers (`components/DropDown/index.tsx:25,35-37,114,121`) and the document-level outside-click listener (81-96). They are platform event wiring and do not touch candidates, text or selection.
- **JSX rendering is not modelled** (104-145), except that clicks come from the displayed list (`Session.Admissible`).
- **`generateRandomId` is not part of this model.** Its source is absent and it is random. The id arrives as an event parameter. Its freshness against the candidate list is assumed only where an invariant needs it.
- Text.Lower: lower-cases ASCII letters only. JavaScript's `toLowerCase` follows full Unicode case mapping, and that table is not modelled.
- **Props are treated as fixed after mount.** The code reads `multiSelect` and `onChange` from the current props on every render (`components/DropDown/index.tsx:44,58,99`). A host that re-renders the widget with a different `multiSelect` or `onChange` is not modelled: `State.multi` and `observed` keep their mount-time values.
- **`lodash.isfunction` is reduced to a flag.** The check on the change handler becomes the boolean `observed`. The handler is an observer of the snapshots it receives.
- **`console.log` in the key handler is left out** (`hooks/useHotKey.ts:10`). It is output only.
- **Running a hotkey action is left out.** Actions are opaque values, and the model returns the action run instead of calling it.
- **The `Input` component and the pages are left out** (`components/Input/index.tsx`, `pages/index.tsx`, `pages/_app.tsx`). They forward DOM events, mirror the value prop, supply demo data and hold the application shell.
- **Three operations are not modelled because the code does not implement them:** "remove last selected", "clear selection", and trimming or empty-checking of text before Enter.
