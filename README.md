# Reorderable to-do list: a Dafny model

This project models the list logic of the to-do widget in `src/components/Todo.tsx` of the
pomodoro application, with the React rendering, the react-dnd hooks and the Redux store taken
away. The list is a sequence of entries `(value, checked, date, id)`. The model has four parts.

- **Reorder engine.** `find(id)` returns the first entry carrying `id` together with its index.
  `move(id, toIndex)` copies the list, splices the entry out of the copy at its index, and splices
  it back in at `toIndex`. `toIndex` is counted in the list after the removal.
- **Drag protocol.** Drag-start captures the dragged entry's `originalIndex`. Every hover over a
  *different* entry moves the dragged entry to that entry's current index; hovering over the
  dragged entry itself does nothing. A drag that ends without a drop issues one corrective
  `move(id, originalIndex)`. In the model this is the class `DragSession`: the live list plus a
  state `Idle | Dragging(id, originalIndex)`.
- **Startup sweep.** On mount the list is filtered. The filter keeps, in order, every entry that
  is not both expired (`date` before the start of today) and checked.
- **Edits.** Delete-by-id is a filter. Toggle-by-id flips `checked` of the first matching entry in
  a copy of the list. Add ignores an empty input and otherwise appends a new unchecked entry.

Modules, one file each:

- `Wrappers`: the `Option` returned by `Array.prototype.find`.
- `ArrayOps`: the JavaScript array primitives the component uses. `RemoveAt` and `InsertAt` give
  the meaning of `splice`. `SpliceOut` and `SpliceIn` are those splices done in place on an array.
  `Filter` models `filter` and `IndexOf` models `indexOf`.
- `TodoItem`: the entry record and the lookups by id (`findIndex`, `find`, and the component's
  own `find`).
- `ReorderEngine`: `move`. `MoveTo` is the reference definition. `Move` is the method, which
  copies the list into a fresh array and performs the two splices on it.
- `DragProtocol`: hover steps and the drag invariant. It holds the cancel round trip, the
  end-to-end scenarios and the `DragSession` class.
- `ListEdits`: `checkExpired`, the sweep, delete, toggle and add.

The clock enters only as integer parameters. `now` stands for `Date.now()` (epoch milliseconds)
and `utcOffset` for the local time zone's offset from UTC, so local time is `t + utcOffset` and
the local day is `(t + utcOffset) / 86400000`. `StartOfToday(now, utcOffset)` is
`new Date().setHours(0, 0, 0, 0)`: local midnight of the day `now` falls on.

Two things the model requires, and why:

- **The id must be present, and `0 <= toIndex < |list|`.** The source marks `find`'s result
  with a non-null assertion. Every call site passes an index that `find` returned.
- **Ids must be unique wherever the drag protocol is involved.** With a duplicate id, `find` can
  pick up the other copy after a hover, and then the corrective move does not restore the list.
  Uniqueness is kept by `move`, by hovers, by toggle, by delete, by the sweep, and by adding
  under a fresh id (lemmas below).

### Behaviour of the code worth knowing

- **`toIndex` is not clamped to `[0, len-1]`.** The code calls `splice(toIndex, 0, item)`
  directly, on the copy after the first splice has removed the entry, so that array holds
  `len - 1` entries. `splice` clamps a past-the-end index to the end: any `toIndex >= len - 1`
  appends the entry, which is the same list as `MoveTo(s, id, len - 1)`. A negative index counts
  from the end, down to 0: the second splice starts at `max(len - 1 + toIndex, 0)`, so `-1`
  inserts before the last remaining entry rather than at the front. Every caller passes an index that
  `find` returned, so the model requires `0 <= toIndex < len` and leaves out both behaviours.
- **A missing id is not reported.** `find` marks its result with a non-null assertion: a
  missing id gives `item` undefined and `index == -1`, so `splice(-1, 1)` would drop the last
  entry and `splice(toIndex, 0, curItem)` would insert `undefined` at `toIndex`. The model
  requires the id to be present.
- **Repeated hovers are not idempotent.** Each hover re-reads the hovered entry's *current*
  index, and the first move shifted that entry. So a second hover over the same neighbour moves
  the dragged entry again. `DragProtocol.RepeatedHoverMovesAgain` shows this on `[X, Y, Z]`.
  In the widget the dragged row then usually lies under the pointer, so the next hover
  is over the dragged entry itself, which is a no-op.
- **Blank text is accepted.** Add rejects only the empty string (`!value`); a string of spaces
  becomes an entry.

## Model

| member | source | states |
|---|---|---|
| `ArrayOps.RemoveAt` | src/components/Todo.tsx:162 | `splice(i, 1)`: one element shorter; elements before `i` stay, elements after it move down one |
| `ArrayOps.InsertAt` | src/components/Todo.tsx:163 | `splice(i, 0, x)`: one element longer with `x` at `i`; elements before stay, elements from `i` move up one |
| `ArrayOps.SpliceOut` | src/components/Todo.tsx:162 | the in-place removal on the copied array leaves exactly `RemoveAt` of its old contents in the first `len - 1` slots |
| `ArrayOps.SpliceIn` | src/components/Todo.tsx:163 | the in-place insertion leaves exactly `InsertAt` of its old contents in the first `len + 1` slots |
| `ArrayOps.RemoveInsert` | src/components/Todo.tsx:162-163 | removing at `i` what was just inserted at `i` gives back the sequence |
| `ArrayOps.InsertRemove` | src/components/Todo.tsx:162-163 | putting the removed element back at its own index gives back the sequence |
| `ArrayOps.ReinsertPermutes` | src/components/Todo.tsx:161-163 | remove-then-reinsert anywhere preserves the multiset of elements |
| `ArrayOps.Filter` | src/components/Todo.tsx:174-178 | `filter(p)`: every kept element is in the input and satisfies `p`; every input element satisfying `p` is kept; never longer |
| `ArrayOps.FilterAppend` | src/components/Todo.tsx:174-178 | filtering distributes over concatenation, so relative order is kept |
| `ArrayOps.FilterCount` | src/components/Todo.tsx:174-178 | each element keeps its multiplicity if it satisfies `p`, and has multiplicity 0 otherwise |
| `ArrayOps.FilterAll` | src/components/Todo.tsx:174-178 | when every element satisfies `p`, filtering returns the input |
| `ArrayOps.FilterIdempotent` | src/components/Todo.tsx:173-183 | filtering twice with the same predicate equals filtering once |
| `ArrayOps.IndexOf` | src/components/Todo.tsx:151 | `indexOf(x)`: -1 exactly when `x` is absent, otherwise an index holding `x` with no earlier one |
| `TodoItem.FindIndex` | src/components/Todo.tsx:90 | `findIndex` by id: -1 exactly when no entry has the id, otherwise an index with that id and no earlier one |
| `TodoItem.FindItem` | src/components/Todo.tsx:147 | `find` by id: something exactly when the id is present, and then the entry at the first index with that id |
| `TodoItem.Find` | src/components/Todo.tsx:145-155 | for a present id: an in-range index whose entry is the returned item and carries the id; no earlier index has the id; it equals `findIndex` |
| `TodoItem.FindUnique` | src/components/Todo.tsx:145-155 | with unique ids, `find` of an entry's id returns that entry's index |
| `TodoItem.SameIds` | src/components/Todo.tsx:161-163 | lists with the same multiset of entries carry the same ids |
| `ReorderEngine.MoveTo` | src/components/Todo.tsx:157-168 | the reference `move`: remove at `find(id).index`, insert at `toIndex`; the result has the input's length and holds the found entry at `toIndex` |
| `ReorderEngine.Move` | src/components/Todo.tsx:157-168 | copy-and-two-splices yields `MoveTo`: same length and multiset, the entry at `toIndex`, others unchanged in order |
| `ReorderEngine.MoveToPermutation` | src/components/Todo.tsx:161-163 | a move keeps the length and the multiset of entries; none added or dropped |
| `ReorderEngine.MoveToKeepsOrder` | src/components/Todo.tsx:162-163 | removing the entry at `toIndex` from the result equals removing the moved entry from the input, so the other entries keep their order |
| `ReorderEngine.MoveToOwnIndex` | src/components/Todo.tsx:159-163 | moving an entry to the index `find` reports for it returns the list element for element |
| `ReorderEngine.MoveToKeepsIds` | src/components/Todo.tsx:159-163 | a move keeps ids unique and present, and `find` then reports the entry at `toIndex` |
| `DragProtocol.HoverStep` | src/components/Todo.tsx:73-78 | a hover over another entry moves the dragged entry to the hovered entry's index (same length, dragged entry at that index); a hover over itself returns the list unchanged |
| `DragProtocol.HoverStepKeepsIds` | src/components/Todo.tsx:73-78 | a hover keeps ids unique and present |
| `DragProtocol.Hovers` | src/components/Todo.tsx:73-78 | after any run of hovers the ids are still unique, and exactly the original ids are present |
| `DragProtocol.DragStartInvariant` | src/components/Todo.tsx:49-53 | capturing `originalIndex = find(id).index` establishes the drag invariant |
| `DragProtocol.HoverKeepsInvariant` | src/components/Todo.tsx:73-78 | a hover keeps the dragged entry unchanged and the other entries in the pre-drag order |
| `DragProtocol.HoversKeepInvariant` | src/components/Todo.tsx:73-78 | any sequence of hovers keeps the drag invariant |
| `DragProtocol.CancelRestores` | src/components/Todo.tsx:57-64 | under the invariant, the corrective `move(id, originalIndex)` returns the pre-drag list |
| `DragProtocol.CancelRoundTrip` | src/components/Todo.tsx:49-77 | from a list with unique ids: capture, any hovers, then the corrective move restores the starting list exactly |
| `DragProtocol.ScenarioCancel` | src/components/Todo.tsx:57-77 | `[X,Y,Z]`: hover X over Z gives `[Y,Z,X]`; ending without a drop restores `[X,Y,Z]` |
| `DragProtocol.ScenarioCommit` | src/components/Todo.tsx:73-78 | `[X,Y,Z]`: hover X over Y gives `[Y,X,Z]`, then over Z gives `[Y,Z,X]` |
| `DragProtocol.RepeatedHoverMovesAgain` | src/components/Todo.tsx:73-78 | a second hover over the same neighbour Z moves X again: `[Y,Z,X]` becomes `[Y,X,Z]` |
| `DragProtocol.DragSession.constructor` | src/components/Todo.tsx:142 | a session starts idle on a list with unique ids |
| `DragProtocol.DragSession.BeginDrag` | src/components/Todo.tsx:49-53 | drag-start leaves the list unchanged and records `Dragging(id, find(id).index)` |
| `DragProtocol.DragSession.Hover` | src/components/Todo.tsx:73-78 | the live list becomes the hover step: moved to the hovered entry's index, unchanged when hovering over itself |
| `DragProtocol.DragSession.EndDrag` | src/components/Todo.tsx:57-65 | after a drop the live list stays; without one the corrective move is applied, giving exactly the pre-drag list; back to idle |
| `DragProtocol.RunDrag` | src/components/Todo.tsx:49-81 | a whole gesture on a session: a drop leaves the list the hovers produced; no drop gives back the starting list |
| `ListEdits.StartOfToday` | src/components/Todo.tsx:32 | local midnight at or before `now`, less than a day before it, on the same local day |
| `ListEdits.IsExpired` | src/components/Todo.tsx:31-35 | `checkExpired`: true exactly when the entry's local day is earlier than the local day of `now` |
| `ListEdits.SurvivesSweep` | src/components/Todo.tsx:174-178 | unchecked entries and entries from today or later survive; an entry that does not survive is checked and from an earlier local day |
| `ListEdits.Sweep` | src/components/Todo.tsx:173-178 | every kept entry is from the list and not both expired and checked; every such entry of the list is kept |
| `ListEdits.SweepOrder` | src/components/Todo.tsx:173-178 | the sweep distributes over concatenation and keeps a single entry exactly when it survives, so the survivors keep their order |
| `ListEdits.SweepCount` | src/components/Todo.tsx:173-178 | survivors keep their multiplicity; expired checked entries have multiplicity 0 |
| `ListEdits.SweepIdempotent` | src/components/Todo.tsx:173-183 | sweeping twice with the same clock equals sweeping once |
| `ListEdits.SweepScenario` | src/components/Todo.tsx:31-35 | checked from an earlier day, unchecked from an earlier day, checked from today: only the first is removed |
| `ListEdits.FilterKeepsUnique` | src/components/Todo.tsx:84 | filtering a list with unique ids keeps them unique |
| `ListEdits.SweepKeepsUnique` | src/components/Todo.tsx:174-178 | the sweep keeps ids unique |
| `ListEdits.Delete` | src/components/Todo.tsx:83-85 | no entry with the id is left; everything kept is from the list; every entry with another id is kept |
| `ListEdits.DeleteKeepsUnique` | src/components/Todo.tsx:84 | delete keeps ids unique |
| `ListEdits.DeleteOrder` | src/components/Todo.tsx:84 | delete distributes over concatenation, so the rest keep their order |
| `ListEdits.DeleteCount` | src/components/Todo.tsx:84 | entries with the id have multiplicity 0; all others keep theirs |
| `ListEdits.DeleteIsRemoveAt` | src/components/Todo.tsx:84 | with unique ids, delete removes exactly the one entry `find` locates |
| `ListEdits.DeleteAbsent` | src/components/Todo.tsx:84 | deleting an absent id leaves the list unchanged |
| `ListEdits.Toggled` | src/components/Todo.tsx:89-101 | same length; only the first entry with the id changes, and only in `checked`, which flips |
| `ListEdits.ToggleChecked` | src/components/Todo.tsx:87-104 | copy-find-assign yields `Toggled`; the returned new status is the flipped `checked` |
| `ListEdits.ToggleTwice` | src/components/Todo.tsx:89-101 | toggling the same id twice restores the list |
| `ListEdits.ToggleKeepsIds` | src/components/Todo.tsx:98-101 | toggling keeps every id at its index, so unique ids stay unique |
| `ListEdits.Add` | src/components/Todo.tsx:206-219 | empty input leaves the list; otherwise the earlier entries are untouched and one unchecked entry dated `now` is appended |
| `ListEdits.AddThenDelete` | src/components/Todo.tsx:212-219 | adding under a fresh id and deleting that id gives back the list |
| `ListEdits.AddKeepsUnique` | src/components/Todo.tsx:212-219 | adding under a fresh id keeps ids unique |

## Left out

- Rendering, class names, opacity, the row number and the expiry badge are left out. So is the
  page layout in `src/pages/index.tsx`. None of these has logic worth stating.
- The react-dnd plumbing (`useDrag`, `useDrop`, `collect`, `monitor`, `DndProvider`) and the
  Redux store with its `dispatch` are left out. They are replaced by snapshot-in/snapshot-out
  functions and by the state transitions of `DragSession`.
- The celebration (`shine()`) and the `console.log` of the swept list are side effects and are
  left out. `ToggleChecked` returns the new `checked` value, which is the condition the
  celebration depends on.
- The wall clock and the time zone are left out: `now` and `utcOffset` are parameters.
- StartOfToday: the offset is one fixed number, so a daylight-saving change between an entry's
  date and `now` is not modelled; JavaScript's `Date` applies the offset in force at each instant.
- Add: the id string `value + "+" + date` is not built. The caller passes the new id. The source's
  construction does not guarantee uniqueness, so the lemmas that need a fresh id require one.
- Add: clearing the input field after a successful add is UI state and is left out.
- Move: an absent id and an out-of-range `toIndex` are excluded by the requires. JavaScript's own
  `splice` behaviour for those cases is not modelled: a past-the-end `toIndex` clamps to the end
  (the entry is appended), a negative one counts from the end down to 0, and the `-1` from a
  missing id removes the last entry, after which `undefined` is inserted at `toIndex`.
- ToggleChecked: an absent id is excluded by the requires. In the source, `result[-1]` is
  undefined and reading `.checked` from it throws.
- DragSession.Hover and DragSession.EndDrag require a drag in progress, because the drag framework
  calls them only during a drag. Starting a drag while one is already running is not modelled
  separately: `BeginDrag` simply captures a fresh state.
- The sweep runs once on mount (the `useLayoutEffect` with empty dependencies). The mount
  lifecycle itself is not modelled. `SweepIdempotent` shows that running the sweep again with
  the same clock does no harm.
- JavaScript's `indexOf` compares object references. `IndexOf` compares values instead. The two
  agree at the one call site: its argument is the first entry with the id, and any earlier equal
  value would carry the same id.
