# RecyclerAdapter list-management model

A Dafny model of the list-management core of `RecyclerAdapter`, the adapter that
sits between caller code and Android's `RecyclerView`. The adapter keeps:

- a view-type registry: `typeIds` (class name to view-type id) and `types`
  (view-type id to a prototype item used to build view holders);
- the full list `itemsList`, a `filtered` list, and the `showFiltered` switch
  that picks the active list (`getItems()`);
- an optional empty item, shown as a single synthetic row while the active
  list is empty, under its own view-type id;
- the change notifications it sends the widget: inserted, removed, range
  removed, moved, changed and data-set changed.

Every operation is a pure function from an immutable `Adapter` value to a
`Step(after, notes)`: the new state and the notifications sent, in order.
Where a Java method that changes the adapter throws, the result is
`Err(Thrown(exception, after))`. `after` is the state the exception leaves
behind. The query `getLastItemWithClass` changes nothing, so its failure is
a bare `Err(exception)`. For `addAtPosition` that
state already has the class registered, because registration runs before
`ArrayList.add` rejects the index.

Abstractions:

- An item is `Item(cls, key)`. `cls` stands for the runtime class name that
  keys the registry, and `key` tells instances apart.
- The item's own filter test (`onFilter`), the `RemoveListener` and the
  item's event handler (`onEvent`) are function parameters.
- The view-id generator is a counter `nextViewId` held in the state. It starts
  at 1, and `emptyItemId` starts at 0, Java's default for an `int` field.
- A Java `null` argument is `None`.
- `filtered` starts as the empty sequence instead of `null`. The difference is
  never observable: the list is only read while `showFiltered` holds, and
  `filter` assigns it before setting that flag.

To check each operation's notifications, `Notifications.Replay` plays them
against the widget's row count. A data-set change makes the widget re-read
the count. `Explains(before, notes, after)` holds when the notifications take
`getItemCount()` before the call to `getItemCount()` after it, and never name
a row the widget does not have. This is proved for add, insert, move, filter
and event dispatch.

For the removal operations (`removeItemAtPosition`, `removeLastItemWithClass`,
`removeAllItemsWithClass`, `clear`), it holds exactly when the call does not
empty the list while an empty item is set. In that case the empty row comes
back without an insert notification, although `add` does announce its
retirement (lines 130-136).

`setEmptyItem` is consistent exactly when the list is non-empty or it
installs a first, non-null empty item. Replacing an existing empty item on an
empty list announces a second row.

The drag step swaps two rows with `Collections.swap` but announces a move.
For distinct items the two agree exactly when the positions are equal or
adjacent.

Two behaviours of the code that a reading of its documentation could miss, and which the model follows:

- `removeAllItemsWithClass` drops the class from the registry whenever the
  active list was non-empty, even if nothing was removed or an item of that
  class survived (lines 250-254).
- `removeLastItemWithClass` has no null check. A null class only fails, with a
  null dereference, once the list is non-empty.

Files: `wrappers.dfy` (Option, Result), `seqs.dfy` (list edits and
order-preserving selection), `notifications.dfy` (notifications and their
replay), `removal.dfy` (iterator-based bulk removal), `adapter.dfy` (the
state machine), `properties.dfy` (lemmas relating the operations).

## Model

| member | source | states |
|---|---|---|
| RecyclerAdapter.Create | recycleradapter/src/main/java/net/gotev/recycleradapter/RecyclerAdapter.java:64-69 | a new adapter has empty registries and lists, no empty item, shows the full list, and satisfies the registry invariant |
| RecyclerAdapter.Items | recycleradapter/src/main/java/net/gotev/recycleradapter/RecyclerAdapter.java:71-73 | the active list is the filtered list while the filter is shown and the full list otherwise |
| RecyclerAdapter.ShowsEmptyItem | recycleradapter/src/main/java/net/gotev/recycleradapter/RecyclerAdapter.java:332-334 | the empty row shows exactly when the active list is empty and an empty item is set |
| RecyclerAdapter.RetireEmptyRow | recycleradapter/src/main/java/net/gotev/recycleradapter/RecyclerAdapter.java:130-136 | a removal at row 0 is sent exactly when the active list has just become one item long while an empty item is set, and nothing otherwise |
| RecyclerAdapter.WithItems | recycleradapter/src/main/java/net/gotev/recycleradapter/RecyclerAdapter.java:71-73 | a mutation of `getItems()` replaces the active list; the hidden list, both registry maps, the filter flag, the empty item, its id and the id counter stay as they were |
| RecyclerAdapter.SetEmptyItem | recycleradapter/src/main/java/net/gotev/recycleradapter/RecyclerAdapter.java:79-85 | the empty item is recorded under the id counter's current value, which no view type uses, and the counter moves one past it; both lists, the filter flag and the registry are left as they were; inserted(0) is sent exactly when the active list is empty; the invariant is kept |
| RecyclerAdapter.RegisterItemClass | recycleradapter/src/main/java/net/gotev/recycleradapter/RecyclerAdapter.java:122-128 | the id counter never goes down; an unregistered class gets exactly the counter's current value as its id and the counter moves one past it, so the id was never issued before; it is recorded in both maps with the item as prototype; a registered class leaves the state unchanged; the bijection invariant is kept |
| AdapterProperties.RegisterItemClassIdempotent | recycleradapter/src/main/java/net/gotev/recycleradapter/RecyclerAdapter.java:122-128 | registering a second item of an already registered class changes nothing |
| RecyclerAdapter.Add | recycleradapter/src/main/java/net/gotev/recycleradapter/RecyclerAdapter.java:92-101 | the item is appended to the active list; nothing else changes beyond registration; notes are removed(0) when the empty row was showing, then inserted(old size) |
| RecyclerAdapter.AddAtPosition | recycleradapter/src/main/java/net/gotev/recycleradapter/RecyclerAdapter.java:111-120 | throws exactly for a position outside [0, size], with the class already registered; otherwise the item lands at the position, earlier items stay and later ones shift right; removed(0) when the empty row was showing, then inserted(position) |
| AdapterProperties.AddIsAddAtEnd | recycleradapter/src/main/java/net/gotev/recycleradapter/RecyclerAdapter.java:92-120 | appending equals inserting at the current size, state and notifications alike |
| AdapterProperties.AddExplained | recycleradapter/src/main/java/net/gotev/recycleradapter/RecyclerAdapter.java:92-136 | an append's notifications take the widget from the old item count to the new one, including the retired empty row |
| AdapterProperties.AddAtPositionExplained | recycleradapter/src/main/java/net/gotev/recycleradapter/RecyclerAdapter.java:111-136 | an insertion at a valid position succeeds and its notifications take the widget from the old item count to the new one |
| AdapterProperties.EmptyItemThenFirstAdd | recycleradapter/src/main/java/net/gotev/recycleradapter/RecyclerAdapter.java:79-136 | on a new adapter, setting an empty item sends inserted(0), and the first append then sends removed(0) followed by inserted(0) |
| AdapterProperties.AddKeepsCovered | recycleradapter/src/main/java/net/gotev/recycleradapter/RecyclerAdapter.java:92-128 | after an append every visible or restorable item still has a registered class |
| RecyclerAdapter.GetItemCount | recycleradapter/src/main/java/net/gotev/recycleradapter/RecyclerAdapter.java:192-197 | the count is 1 for the synthetic empty row, otherwise the active list's length; it is 0 exactly when the list is empty and no empty item is set |
| RecyclerAdapter.GetItemViewType | recycleradapter/src/main/java/net/gotev/recycleradapter/RecyclerAdapter.java:139-147 | the empty row reports the empty item's id; a real row reports a registered id, different from the empty item's, whose prototype has the row's class; requires a valid row of a registered class |
| RecyclerAdapter.PrototypeFor | recycleradapter/src/main/java/net/gotev/recycleradapter/RecyclerAdapter.java:150-158 | the holder factory's item is the empty item for its own id while the empty row shows, otherwise the prototype registered under the view type; it is absent exactly when the id is neither the showing empty row's id nor a registered view type |
| AdapterProperties.ViewTypeResolvesToPrototype | recycleradapter/src/main/java/net/gotev/recycleradapter/RecyclerAdapter.java:139-158 | the view type reported for a row resolves in the holder factory to the empty item, or to a prototype of the row's class |
| RecyclerAdapter.SendEvent | recycleradapter/src/main/java/net/gotev/recycleradapter/RecyclerAdapter.java:200-208 | a stale position is dropped silently; changed(position) is sent exactly when the position is in range and the item's handler asks for a rebind |
| AdapterProperties.SendEventExplained | recycleradapter/src/main/java/net/gotev/recycleradapter/RecyclerAdapter.java:200-208 | an event only ever announces a change of a row the widget has |
| RecyclerAdapter.RemoveAllItemsWithClass | recycleradapter/src/main/java/net/gotev/recycleradapter/RecyclerAdapter.java:229-255 | a null class or listener throws IllegalArgument with the state untouched; an empty list is a silent no-op; otherwise the active list keeps, in order, exactly the items not both of that class and accepted by the listener, and the class leaves both registry maps |
| RecyclerAdapter.RemoveAllItemsWithClassUnconditionally | recycleradapter/src/main/java/net/gotev/recycleradapter/RecyclerAdapter.java:214-221 | the one-argument overload is the two-argument form with a listener that accepts everything: it fails with IllegalArgument, leaving the state as it was, exactly on a missing class; on a non-empty list the survivors are the other classes' items in their original order, the class is unregistered with nothing else changed, and the notifications are the iterator walk's; on success no item of the class is left in the active list, every item of another class keeps its count, and an empty list is left untouched with no notification; on a non-empty list the class is unregistered and one removal is reported per item dropped |
| AdapterProperties.RemoveAllNotesAtShiftedIndices | recycleradapter/src/main/java/net/gotev/recycleradapter/RecyclerAdapter.java:239-248 | there is one removed notification per removed item, in ascending order; the k-th names the item's original index minus k |
| AdapterProperties.RemoveAllShape | recycleradapter/src/main/java/net/gotev/recycleradapter/RecyclerAdapter.java:229-255 | on a non-empty list the call succeeds, leaves the iterator walk's survivors and notifications, unregisters the class, and keeps the hidden list, the flag and the empty item |
| AdapterProperties.RemoveAllItemsWithClassExplainedIff | recycleradapter/src/main/java/net/gotev/recycleradapter/RecyclerAdapter.java:239-248 | the per-item removals walk the widget down to the survivors' count; they explain the new item count exactly unless the list was emptied under an empty item |
| AdapterProperties.RemoveAllKeepsCoveredIff | recycleradapter/src/main/java/net/gotev/recycleradapter/RecyclerAdapter.java:250-254 | after a bulk removal every visible or restorable item keeps a view type exactly when no item of the removed class is left in either list |
| AdapterProperties.SparedItemLosesItsViewType | recycleradapter/src/main/java/net/gotev/recycleradapter/RecyclerAdapter.java:244-254 | an item the listener spares stays listed while its class is unregistered, so its view type can no longer be looked up |
| AdapterProperties.ReRegistrationGetsFreshId | recycleradapter/src/main/java/net/gotev/recycleradapter/RecyclerAdapter.java:122-128 | after all items of a class are removed, the next item of that class gets an id different from the retired one, unused by any live view type, and at or above the counter value before the removal, so never issued before |
| AdapterProperties.RemoveAllScenario | recycleradapter/src/main/java/net/gotev/recycleradapter/RecyclerAdapter.java:229-255 | removing class A from [A1, B1, A2] leaves [B1], sends removed(0) then removed(1), and unregisters A |
| Removal.SweepFrom | recycleradapter/src/main/java/net/gotev/recycleradapter/RecyclerAdapter.java:239-248 | each element of the iterator walk is either kept or reported removed, never both; every report is a removal at an index no lower than the walk's start and no higher than the walk's start plus the total number of survivors |
| Removal.SweepSurvivors | recycleradapter/src/main/java/net/gotev/recycleradapter/RecyclerAdapter.java:239-248 | the iterator walk keeps exactly the elements not doomed, in their original order |
| Removal.SweepNotes | recycleradapter/src/main/java/net/gotev/recycleradapter/RecyclerAdapter.java:239-248 | the walk's k-th removal is reported at the doomed element's original position minus k |
| Removal.SweepReplays | recycleradapter/src/main/java/net/gotev/recycleradapter/RecyclerAdapter.java:239-248 | the walk's removals, replayed on a widget showing the whole list, name only existing rows and end at the survivors' count |
| Removal.DoomedFrom | recycleradapter/src/main/java/net/gotev/recycleradapter/RecyclerAdapter.java:244 | lists, in strictly ascending order, positions that hold elements the removal test accepts |
| Removal.DoomedFromComplete | recycleradapter/src/main/java/net/gotev/recycleradapter/RecyclerAdapter.java:244 | every position whose element the removal test accepts is listed |
| RecyclerAdapter.LastIndexOfClass | recycleradapter/src/main/java/net/gotev/recycleradapter/RecyclerAdapter.java:270-274 | the backwards scan finds the highest index holding the class, or reports that no index does |
| RecyclerAdapter.GetLastItemWithClass | recycleradapter/src/main/java/net/gotev/recycleradapter/RecyclerAdapter.java:263-277 | a null class throws IllegalArgument; otherwise it returns the item at the highest index of that class with the index, or nothing when no item has the class or the list is empty |
| RecyclerAdapter.RemoveLastItemWithClass | recycleradapter/src/main/java/net/gotev/recycleradapter/RecyclerAdapter.java:283-294 | an empty list or a class with no items is a silent no-op; a null class on a non-empty list is a null dereference; otherwise only the last item of the class goes, the rest keep their order, and removed(i) is sent |
| AdapterProperties.RemoveLastTakesLookedUpItem | recycleradapter/src/main/java/net/gotev/recycleradapter/RecyclerAdapter.java:263-294 | the removal takes out exactly the item and index the lookup of the last item of that class reports, and nothing when the lookup reports nothing |
| AdapterProperties.RemoveLastItemWithClassExplainedIff | recycleradapter/src/main/java/net/gotev/recycleradapter/RecyclerAdapter.java:283-294 | the removal's notification explains the new item count exactly unless it removed the last row under an empty item |
| RecyclerAdapter.RemoveItemAtPosition | recycleradapter/src/main/java/net/gotev/recycleradapter/RecyclerAdapter.java:301-307 | an empty list or out-of-range position is a silent no-op; otherwise exactly that element goes, earlier ones stay, later ones shift left, and removed(position) is sent |
| RecyclerAdapter.GetItemAtPosition | recycleradapter/src/main/java/net/gotev/recycleradapter/RecyclerAdapter.java:314-319 | it returns nothing exactly for an empty list or a position outside [0, size), and otherwise the element at that position |
| AdapterProperties.RemoveItemAtPositionTakesLookedUpItem | recycleradapter/src/main/java/net/gotev/recycleradapter/RecyclerAdapter.java:301-319 | removal at a position takes out exactly the item the lookup at that position returns, and is a silent no-op exactly when the lookup returns nothing |
| AdapterProperties.RemoveItemAtPositionExplainedIff | recycleradapter/src/main/java/net/gotev/recycleradapter/RecyclerAdapter.java:301-307 | the removal's notification explains the new item count exactly unless it removed the last row under an empty item |
| RecyclerAdapter.Clear | recycleradapter/src/main/java/net/gotev/recycleradapter/RecyclerAdapter.java:324-330 | the active list becomes empty and nothing else changes; rangeRemoved(0, old size) is sent only when the list was non-empty |
| AdapterProperties.ClearExplainedIff | recycleradapter/src/main/java/net/gotev/recycleradapter/RecyclerAdapter.java:324-330 | the range removal explains the new item count exactly unless an empty item is set over a non-empty list |
| AdapterProperties.EditsWhileFilteredSpareFullList | recycleradapter/src/main/java/net/gotev/recycleradapter/RecyclerAdapter.java:71-73 | while the filtered view is shown, add, remove and clear leave the full list untouched |
| RecyclerAdapter.Move | recycleradapter/src/main/java/net/gotev/recycleradapter/RecyclerAdapter.java:348-356 | the drag step exchanges the two rows, leaves the others in place and the contents unchanged as a multiset, and sends moved(source, target) |
| AdapterProperties.MoveExplained | recycleradapter/src/main/java/net/gotev/recycleradapter/RecyclerAdapter.java:348-356 | the moved notification names two existing rows and keeps the count |
| Seqs.SwapIsMoveIffAdjacent | recycleradapter/src/main/java/net/gotev/recycleradapter/RecyclerAdapter.java:352-353 | on distinct elements, swapping two positions equals moving one element to the other position exactly when the positions are equal or adjacent |
| AdapterProperties.MoveMatchesWidgetIffAdjacent | recycleradapter/src/main/java/net/gotev/recycleradapter/RecyclerAdapter.java:352-353 | the adapter's list after a drag step is what the widget pictures after moved(source, target) exactly when the positions are equal or adjacent |
| Seqs.Swap | recycleradapter/src/main/java/net/gotev/recycleradapter/RecyclerAdapter.java:352 | the two positions trade elements, every other position is unchanged, and the contents are unchanged as a multiset |
| Seqs.InsertAt | recycleradapter/src/main/java/net/gotev/recycleradapter/RecyclerAdapter.java:115 | the element lands at the index, earlier elements stay, later ones shift right, and the contents gain exactly that element |
| Seqs.RemoveAt | recycleradapter/src/main/java/net/gotev/recycleradapter/RecyclerAdapter.java:305 | the element at the index goes, earlier ones stay, later ones shift left, and the contents lose exactly that element |
| RecyclerAdapter.Filter | recycleradapter/src/main/java/net/gotev/recycleradapter/RecyclerAdapter.java:372-398 | an empty full list makes it a no-op; a null or empty term shows the full list and sends a data-set change; any other term shows the accepted items of the full list in order and sends a data-set change; the full list and the registry never change |
| Seqs.Keep | recycleradapter/src/main/java/net/gotev/recycleradapter/RecyclerAdapter.java:389-393 | the selection is no longer than its input and holds only accepted elements |
| Seqs.KeepCounts | recycleradapter/src/main/java/net/gotev/recycleradapter/RecyclerAdapter.java:389-393 | the selection holds every copy of each accepted element and no copy of a rejected one |
| Seqs.KeptFromInput | recycleradapter/src/main/java/net/gotev/recycleradapter/RecyclerAdapter.java:389-393 | every selected element comes from the input |
| Seqs.KeepAppend | recycleradapter/src/main/java/net/gotev/recycleradapter/RecyclerAdapter.java:389-393 | selection preserves order: the selection from a concatenation is the concatenation of the selections |
| AdapterProperties.FilterExplained | recycleradapter/src/main/java/net/gotev/recycleradapter/RecyclerAdapter.java:372-398 | filtering sends either nothing with nothing changed, or a data-set change after which the widget re-reads the count |
| AdapterProperties.FilterThenUnfilterRestores | recycleradapter/src/main/java/net/gotev/recycleradapter/RecyclerAdapter.java:372-398 | filtering by a term and then by the empty term shows the full list again, exactly as before |
| AdapterProperties.FilterKeepsCovered | recycleradapter/src/main/java/net/gotev/recycleradapter/RecyclerAdapter.java:389-393 | the filtered list holds only items of the full list, so every visible item keeps a registered class |
| AdapterProperties.FilterScenario | recycleradapter/src/main/java/net/gotev/recycleradapter/RecyclerAdapter.java:372-398 | filtering [x1, y, x2] by a term that x1 and x2 accept shows [x1, x2], keeps the full list and sends a data-set change |
| AdapterProperties.SetEmptyItemExplainedIff | recycleradapter/src/main/java/net/gotev/recycleradapter/RecyclerAdapter.java:79-85 | setting the empty item is consistent with the item count exactly when the list is non-empty, or no empty item was set before and the new one is not null |
| RecyclerAdapter.Unregister | recycleradapter/src/main/java/net/gotev/recycleradapter/RecyclerAdapter.java:250-254 | the class leaves `typeIds`, its id leaves `types`, nothing else changes, and the bijection invariant is kept |
| AdapterProperties.Run | recycleradapter/src/main/java/net/gotev/recycleradapter/RecyclerAdapter.java:31-38 | every sequence of public calls, whether it completes or stops at an exception, keeps the registry bijection, keeps every issued id below the generator counter, never lowers that counter, and never shows a filtered view over an empty full list |

## Left out

- The view-id generator: `ViewIdGenerator.generateViewId()` (lines 81 and 124) is a static, process-wide counter shared by every adapter, so one adapter's ids increase but need not be consecutive. The model holds a per-adapter `nextViewId` in its place. The "counter moves one past it" clauses of `RecyclerAdapter.RegisterItemClass` and `RecyclerAdapter.SetEmptyItem` describe that stand-in; the property that carries over is that a new id is above every id the adapter issued before.

- View inflation and holder construction in `onCreateViewHolder` (lines 160-178) are Android and reflection calls. This includes the logged reflection failures. Only the choice of the item a holder is built from is modelled (`PrototypeFor`).
- `onBindViewHolder` (lines 183-189) delegates to the item's own `bind`, which is foreign code.
- `applySwipeGesture` and the `ItemTouchHelper` wiring in `enableDragDrop` are callbacks of the host gesture framework. Only the swap and moved notification of the drag `onMove` are modelled.
- `ViewIdGenerator` is not part of this model. It is an unbounded counter here, with no wrap-around.
- Java class names come from reflection. They are an explicit `cls` string on each item.
- A `null` item passed to `add` or `addAtPosition` is not modelled. It throws a null dereference in `getClass()`.
- Threading and the UI-thread assumption: all operations are sequential.
- RecyclerAdapter.GetItemViewType: requires a position inside the active list whose item's class is registered. The source unboxes a null or indexes out of range otherwise, and the widget only asks for positions it was told about.
- RecyclerAdapter.Move: requires both positions inside the active list. `Collections.swap` throws otherwise, and the gesture framework only reports positions of live rows.
- AdapterProperties.Run: skips a drag step on positions outside the list instead of throwing, as noted for `Move`.
