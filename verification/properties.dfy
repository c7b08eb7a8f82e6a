/** Properties relating the adapter's operations to each other and to the
    list widget that receives their notifications. */
module AdapterProperties {
  import opened Wrappers
  import opened Seqs
  import opened Notifications
  import opened Removal
  import opened RecyclerAdapter

  // ---------------------------------------------------------------------
  // Registry
  // ---------------------------------------------------------------------

  /** Registering a class that is already registered, by any item of that
      class, changes nothing: registration is idempotent. */
  lemma RegisterItemClassIdempotent(s: Adapter, first: Item, second: Item)
    requires first.cls == second.cls
    ensures RegisterItemClass(RegisterItemClass(s, first), second) == RegisterItemClass(s, first)
  {
  }

  /** After every item of a class has been removed, the next item of that
      class gets an id never issued before, so it differs from the retired one. */
  lemma ReRegistrationGetsFreshId(s: Adapter, item: Item)
    requires Valid(s) && item.cls in s.typeIds && |Items(s)| > 0
    ensures var removed := RemoveAllItemsWithClass(s, Some(item.cls), Some((x: Item) => true));
            && removed.Ok?
            && item.cls !in removed.value.after.typeIds
            && var added := Add(removed.value.after, item).after;
               && added.typeIds[item.cls] != s.typeIds[item.cls]
               && added.typeIds[item.cls] !in s.types
               && added.typeIds[item.cls] >= s.nextViewId
  {
    var removed := RemoveAllItemsWithClass(s, Some(item.cls), Some((x: Item) => true));
    var after := removed.value.after;
    assert after.nextViewId == s.nextViewId;
    assert s.typeIds[item.cls] in s.types;
  }

  // ---------------------------------------------------------------------
  // View types and holders
  // ---------------------------------------------------------------------

  /** The view type reported for a row leads back, through the holder
      factory's lookup, to an item of that row's class, or to the empty item
      for the synthetic empty row. */
  lemma ViewTypeResolvesToPrototype(s: Adapter, position: int)
    requires Valid(s)
    requires ShowsEmptyItem(s) ||
             (0 <= position < |Items(s)| && Items(s)[position].cls in s.typeIds)
    ensures var proto := PrototypeFor(s, GetItemViewType(s, position));
            && proto.Some?
            && (ShowsEmptyItem(s) ==> proto == s.emptyItem)
            && (!ShowsEmptyItem(s) ==> proto.value.cls == Items(s)[position].cls)
  {
  }

  /** Every item that is or may become visible has a registered class. */
  lemma AddKeepsCovered(s: Adapter, item: Item)
    requires Covered(s)
    ensures Covered(Add(s, item).after)
  {
    var after := Add(s, item).after;
    var reg := RegisterItemClass(s, item);
    assert forall c :: c in s.typeIds ==> c in reg.typeIds;
    if s.showFiltered {
      assert after.itemsList == s.itemsList;
      assert after.filtered == s.filtered + [item];
    } else {
      assert after.itemsList == s.itemsList + [item];
    }
  }

  /** Filtering only ever shows items of the full list, so it keeps every
      visible item's class registered. */
  lemma FilterKeepsCovered(s: Adapter, searchTerm: Option<string>, onFilter: (Item, string) -> bool)
    requires Covered(s)
    ensures Covered(Filter(s, searchTerm, onFilter).after)
  {
    var after := Filter(s, searchTerm, onFilter).after;
    if after.showFiltered && |s.itemsList| > 0 && searchTerm.Some? && searchTerm.value != "" {
      var kept := after.filtered;
      assert kept == Keep(s.itemsList, Accepts(onFilter, searchTerm.value));
      forall i | 0 <= i < |kept|
        ensures kept[i].cls in after.typeIds
      {
        KeptFromInput(s.itemsList, Accepts(onFilter, searchTerm.value), i);
      }
    }
  }

  /** Some row that is or may become visible has class `c`. */
  predicate HoldsClass(s: Adapter, c: ClassName) {
    || (exists i :: 0 <= i < |s.itemsList| && s.itemsList[i].cls == c)
    || (s.showFiltered && exists i :: 0 <= i < |s.filtered| && s.filtered[i].cls == c)
  }

  /** Bulk removal keeps every visible item's class registered exactly when no
      item of the removed class is left behind in either list; a survivor
      (spared by the listener, or sitting in the full list while a filtered
      view is shown) is left without a view type. */
  lemma RemoveAllKeepsCoveredIff(s: Adapter, c: ClassName, listener: Item -> bool)
    requires Covered(s) && |Items(s)| > 0
    ensures var after := RemoveAllItemsWithClass(s, Some(c), Some(listener)).value.after;
            Covered(after) <==> !HoldsClass(after, c)
  {
    var after := RemoveAllItemsWithClass(s, Some(c), Some(listener)).value.after;
    var spared := Not(Doomed(c, listener));
    RemoveAllShape(s, c, listener);
    var kept := Items(after);
    assert kept == Keep(Items(s), spared);
    if !HoldsClass(after, c) {
      forall i | 0 <= i < |kept|
        ensures kept[i].cls in s.typeIds
      {
        KeptFromInput(Items(s), spared, i);
      }
      if s.showFiltered {
        assert after.itemsList == s.itemsList && after.filtered == kept;
      } else {
        assert after.itemsList == kept;
      }
    }
  }

  /** What a bulk removal over a non-empty list leaves behind, field by field. */
  lemma RemoveAllShape(s: Adapter, c: ClassName, listener: Item -> bool)
    requires |Items(s)| > 0
    ensures var r := RemoveAllItemsWithClass(s, Some(c), Some(listener));
            var swept := SweepFrom(Items(s), Doomed(c, listener), 0);
            && r.Ok?
            && Items(r.value.after) == swept.survivors
            && swept.survivors == Keep(Items(s), Not(Doomed(c, listener)))
            && r.value.notes == swept.notes
            && r.value.after.typeIds == s.typeIds - {c}
            && r.value.after.showFiltered == s.showFiltered
            && Hidden(r.value.after) == Hidden(s)
            && r.value.after.emptyItem == s.emptyItem
  {
    SweepSurvivors(Items(s), Doomed(c, listener), 0);
  }

  /** A listener that spares an item leaves it listed under a class the
      registry no longer knows. */
  lemma SparedItemLosesItsViewType()
    ensures var a := Item("A", 1);
            var s := Add(Create(), a).after;
            var after := RemoveAllItemsWithClass(s, Some("A"), Some((x: Item) => false)).value.after;
            && Items(after) == [a]
            && "A" !in after.typeIds
            && !Covered(after)
  {
    var a := Item("A", 1);
    var s := Add(Create(), a).after;
    var after := RemoveAllItemsWithClass(s, Some("A"), Some((x: Item) => false)).value.after;
    assert Items(s) == [a];
    assert Keep([a], Not(Doomed("A", (x: Item) => false))) == [a];
    assert after.itemsList[0].cls !in after.typeIds;
  }

  // ---------------------------------------------------------------------
  // Notifications against the widget's row count
  // ---------------------------------------------------------------------

  /** The operation emptied a non-empty active list while an empty item is
      set, so the empty row reappears without being announced. */
  predicate EmptiedUnderEmptyItem(s: Adapter, after: Adapter) {
    |Items(s)| > 0 && |Items(after)| == 0 && s.emptyItem.Some?
  }

  /** An append is announced consistently, including the retirement of the
      empty row when the first real row arrives. */
  lemma AddExplained(s: Adapter, item: Item)
    ensures var r := Add(s, item);
            Explains(GetItemCount(s), r.notes, GetItemCount(r.after))
  {
    var r := Add(s, item);
    var retire := if ShowsEmptyItem(s) then [Removed(0)] else [];
    ReplayConcat(GetItemCount(s), retire, [Inserted(|Items(s)|)], GetItemCount(r.after));
  }

  /** An insertion at a valid position is announced consistently. */
  lemma AddAtPositionExplained(s: Adapter, item: Item, position: int)
    requires 0 <= position <= |Items(s)|
    ensures var r := AddAtPosition(s, item, position);
            r.Ok? && Explains(GetItemCount(s), r.value.notes, GetItemCount(r.value.after))
  {
    var r := AddAtPosition(s, item, position);
    var retire := if ShowsEmptyItem(s) then [Removed(0)] else [];
    assert r.Ok? && r.value.notes == retire + [Inserted(position)];
    assert GetItemCount(r.value.after) == |Items(s)| + 1;
    ReplayConcat(GetItemCount(s), retire, [Inserted(position)], GetItemCount(r.value.after));
  }

  /** Setting the empty item is announced consistently only when it really
      adds a row: over a non-empty list nothing is sent, and over an empty
      one the inserted row matches only a first, non-null empty item. */
  lemma SetEmptyItemExplainedIff(s: Adapter, item: Option<Item>)
    ensures var r := SetEmptyItem(s, item);
            Explains(GetItemCount(s), r.notes, GetItemCount(r.after))
            <==> |Items(s)| > 0 || (s.emptyItem.None? && item.Some?)
  {
    var r := SetEmptyItem(s, item);
    if |Items(s)| == 0 {
      assert Replay(GetItemCount(s), r.notes, GetItemCount(r.after)) == Some(GetItemCount(s) + 1);
    }
  }

  /** Removing a row is announced consistently unless it was the last one
      under an empty item, whose row then appears unannounced. */
  lemma RemoveItemAtPositionExplainedIff(s: Adapter, position: int)
    ensures var r := RemoveItemAtPosition(s, position);
            Explains(GetItemCount(s), r.notes, GetItemCount(r.after))
            <==> !EmptiedUnderEmptyItem(s, r.after)
  {
    var r := RemoveItemAtPosition(s, position);
    if 0 <= position < |Items(s)| {
      assert Replay(GetItemCount(s), r.notes, GetItemCount(r.after)) == Some(|Items(s)| - 1);
    }
  }

  /** Same for removing the last item of a class. */
  lemma RemoveLastItemWithClassExplainedIff(s: Adapter, clazz: Option<ClassName>)
    requires RemoveLastItemWithClass(s, clazz).Ok?
    ensures var r := RemoveLastItemWithClass(s, clazz).value;
            Explains(GetItemCount(s), r.notes, GetItemCount(r.after))
            <==> !EmptiedUnderEmptyItem(s, r.after)
  {
    var r := RemoveLastItemWithClass(s, clazz).value;
    if r.notes != [] {
      assert Replay(GetItemCount(s), r.notes, GetItemCount(r.after)) == Some(|Items(s)| - 1);
    }
  }

  /** Same for clearing the active list. */
  lemma ClearExplainedIff(s: Adapter)
    ensures var r := Clear(s);
            Explains(GetItemCount(s), r.notes, GetItemCount(r.after))
            <==> !EmptiedUnderEmptyItem(s, r.after)
  {
    var r := Clear(s);
    if |Items(s)| > 0 {
      assert Replay(GetItemCount(s), r.notes, GetItemCount(r.after)) == Some(0);
    }
  }

  /** The individual removals of a bulk removal walk the widget down to the
      survivors' count without naming a missing row; the only mismatch is the
      unannounced empty row when nothing survives under an empty item. */
  lemma RemoveAllItemsWithClassExplainedIff(s: Adapter, c: ClassName, listener: Item -> bool)
    ensures var r := RemoveAllItemsWithClass(s, Some(c), Some(listener)).value;
            Explains(GetItemCount(s), r.notes, GetItemCount(r.after))
            <==> !EmptiedUnderEmptyItem(s, r.after)
  {
    var r := RemoveAllItemsWithClass(s, Some(c), Some(listener)).value;
    if |Items(s)| > 0 {
      RemoveAllShape(s, c, listener);
      SweepReplays(Items(s), Doomed(c, listener), 0, GetItemCount(r.after));
    }
  }

  /** The k-th removal of a bulk removal is announced at the removed item's
      original index minus k, the number of removals before it, so the
      indices are those of the list as it stands at each removal. */
  lemma RemoveAllNotesAtShiftedIndices(s: Adapter, c: ClassName, listener: Item -> bool)
    requires |Items(s)| > 0
    ensures var r := RemoveAllItemsWithClass(s, Some(c), Some(listener)).value;
            var ix := DoomedFrom(Items(s), Doomed(c, listener), 0);
            && |r.notes| == |ix|
            && forall k :: 0 <= k < |ix| ==> r.notes[k] == Removed(ix[k] - k)
  {
    SweepNotes(Items(s), Doomed(c, listener), 0, 0);
  }

  /** A drag step never changes the row count and names two existing rows. */
  lemma MoveExplained(s: Adapter, source: int, target: int)
    requires 0 <= source < |Items(s)| && 0 <= target < |Items(s)|
    ensures var r := Move(s, source, target);
            Explains(GetItemCount(s), r.notes, GetItemCount(r.after))
  {
  }

  /** Filtering announces a whole-data change, after which the widget re-reads
      the count, or sends nothing and changes nothing. */
  lemma FilterExplained(s: Adapter, searchTerm: Option<string>, onFilter: (Item, string) -> bool)
    ensures var r := Filter(s, searchTerm, onFilter);
            Explains(GetItemCount(s), r.notes, GetItemCount(r.after))
  {
  }

  /** An event only ever announces a change of an existing row. */
  lemma SendEventExplained(s: Adapter, position: int, onEvent: (Item, int) -> bool)
    ensures Explains(GetItemCount(s), SendEvent(s, position, onEvent), GetItemCount(s))
  {
  }

  // ---------------------------------------------------------------------
  // Operations against each other
  // ---------------------------------------------------------------------

  /** Appending is inserting at the end. */
  lemma AddIsAddAtEnd(s: Adapter, item: Item)
    ensures AddAtPosition(s, item, |Items(s)|) == Ok(Add(s, item))
  {
    var reg := RegisterItemClass(s, item);
    assert InsertAt(Items(reg), |Items(reg)|, item) == Items(reg) + [item];
  }

  /** Removing at a position takes out exactly the item the lookup at that
      position returns, and is a silent no-op exactly when the lookup finds
      nothing. */
  lemma RemoveItemAtPositionTakesLookedUpItem(s: Adapter, position: int)
    ensures var got := GetItemAtPosition(s, position);
            var r := RemoveItemAtPosition(s, position);
            && (got.None? <==> r == Step(s, []))
            && (got.Some? ==>
                  multiset(Items(r.after)) + multiset{got.value} == multiset(Items(s))
                  && r.notes == [Removed(position)])
  {
  }

  /** Removing the last item of a class takes out exactly the item, and at
      the position, that the lookup of the last item of that class reports,
      and removes nothing when the lookup reports nothing. */
  lemma RemoveLastTakesLookedUpItem(s: Adapter, c: ClassName)
    ensures var got := GetLastItemWithClass(s, Some(c));
            var r := RemoveLastItemWithClass(s, Some(c));
            && got.Ok? && r.Ok?
            && (got.value.None? ==> r.value == Step(s, []))
            && (got.value.Some? ==>
                  var (i, item) := got.value.value;
                  && r.value.notes == [Removed(i)]
                  && multiset(Items(r.value.after)) + multiset{item} == multiset(Items(s)))
  {
    var got := GetLastItemWithClass(s, Some(c));
    if got.value.Some? {
      var (i, item) := got.value.value;
      var rest := Items(RemoveLastItemWithClass(s, Some(c)).value.after);
      assert rest == RemoveAt(Items(s), i);
    }
  }

  /** On distinct items the drag swap leaves the list the widget pictures
      after a "moved" notification exactly when the two positions are equal
      or adjacent; for positions further apart the two disagree. */
  lemma MoveMatchesWidgetIffAdjacent(s: Adapter, source: int, target: int)
    requires Distinct(Items(s))
    requires 0 <= source < |Items(s)| && 0 <= target < |Items(s)|
    ensures Items(Move(s, source, target).after) == MoveTo(Items(s), source, target)
            <==> -1 <= source - target <= 1
  {
    SwapIsMoveIffAdjacent(Items(s), source, target);
  }

  /** Filtering by a term and then by the empty term shows the full list again,
      exactly as it was before. */
  lemma FilterThenUnfilterRestores(s: Adapter, term: string, onFilter: (Item, string) -> bool)
    ensures var unfiltered := Filter(Filter(s, Some(term), onFilter).after, Some(""), onFilter).after;
            && unfiltered.itemsList == s.itemsList
            && (|s.itemsList| > 0 ==> Items(unfiltered) == s.itemsList && !unfiltered.showFiltered)
  {
  }

  /** While a filtered view is shown, edits reach only the filtered list: the
      full list comes back unchanged once the filter is cleared. */
  lemma EditsWhileFilteredSpareFullList(s: Adapter, item: Item, position: int)
    requires s.showFiltered
    ensures Add(s, item).after.itemsList == s.itemsList
    ensures RemoveItemAtPosition(s, position).after.itemsList == s.itemsList
    ensures Clear(s).after.itemsList == s.itemsList
  {
  }

  // ---------------------------------------------------------------------
  // Whole runs
  // ---------------------------------------------------------------------

  /** One call on the adapter's public surface. */
  datatype Op =
    | SetEmptyItemOp(emptyItem: Option<Item>)
    | AddOp(item: Item)
    | AddAtPositionOp(item: Item, position: int)
    | RemoveAllItemsWithClassOp(clazz: Option<ClassName>, listener: Option<Item -> bool>)
    | RemoveLastItemWithClassOp(clazz: Option<ClassName>)
    | RemoveItemAtPositionOp(position: int)
    | ClearOp
    | MoveOp(source: int, target: int)
    | FilterOp(searchTerm: Option<string>, onFilter: (Item, string) -> bool)

  /** Runs the calls in order, collecting notifications; a thrown exception
      ends the run. A drag step on positions outside the list is skipped, as
      the gesture framework never reports such positions. */
  function Run(s: Adapter, ops: seq<Op>): (r: Result<Step, Thrown>)
    ensures Valid(s) && r.Ok? ==> Valid(r.value.after)
    ensures Valid(s) && r.Err? ==> Valid(r.error.after)
    ensures r.Ok? ==> r.value.after.nextViewId >= s.nextViewId
    ensures r.Err? ==> r.error.after.nextViewId >= s.nextViewId
    decreases |ops|
  {
    if |ops| == 0 then Ok(Step(s, []))
    else
      var one: Result<Step, Thrown> :=
        match ops[0]
        case SetEmptyItemOp(e) => Ok(SetEmptyItem(s, e))
        case AddOp(x) => Ok(Add(s, x))
        case AddAtPositionOp(x, p) => AddAtPosition(s, x, p)
        case RemoveAllItemsWithClassOp(c, l) => RemoveAllItemsWithClass(s, c, l)
        case RemoveLastItemWithClassOp(c) => RemoveLastItemWithClass(s, c)
        case RemoveItemAtPositionOp(p) => Ok(RemoveItemAtPosition(s, p))
        case ClearOp => Ok(Clear(s))
        case MoveOp(a, b) =>
          if 0 <= a < |Items(s)| && 0 <= b < |Items(s)| then Ok(Move(s, a, b)) else Ok(Step(s, []))
        case FilterOp(t, f) => Ok(Filter(s, t, f));
      match one
      case Err(e) => Err(e)
      case Ok(step) =>
        match Run(step.after, ops[1..])
        case Err(e) => Err(e)
        case Ok(rest) => Ok(Step(rest.after, step.notes + rest.notes))
  }

  // ---------------------------------------------------------------------
  // Scenarios
  // ---------------------------------------------------------------------

  /** Setting an empty item on an empty adapter shows its row; the first
      append then retires that row and inserts the real one, in that order. */
  lemma EmptyItemThenFirstAdd(e: Item, x: Item)
    ensures var s := SetEmptyItem(Create(), Some(e));
            && s.notes == [Inserted(0)]
            && Add(s.after, x).notes == [Removed(0), Inserted(0)]
  {
  }

  /** The sweep behind `RemoveAllScenario`. */
  lemma SweepOfAllA()
    ensures SweepFrom([Item("A", 1), Item("B", 1), Item("A", 2)], Doomed("A", (x: Item) => true), 0)
            == Swept([Item("B", 1)], [Removed(0), Removed(1)])
  {
    var a1, b1, a2 := Item("A", 1), Item("B", 1), Item("A", 2);
    var doomed := Doomed("A", (x: Item) => true);
    assert doomed(a1) && !doomed(b1) && doomed(a2);
    assert [a1, b1, a2][1..] == [b1, a2];
    assert [b1, a2][1..] == [a2];
    assert SweepFrom([a2], doomed, 1) == Swept([], [Removed(1)]);
    assert SweepFrom([b1, a2], doomed, 0) == Swept([b1], [Removed(1)]);
  }

  /** Removing class A from a list [A1, B1, A2] reports A1 at 0 and A2 at 1
      (its index once A1 is gone), leaves [B1] and forgets class A. */
  lemma RemoveAllScenario(s: Adapter)
    requires Items(s) == [Item("A", 1), Item("B", 1), Item("A", 2)]
    ensures var r := RemoveAllItemsWithClass(s, Some("A"), Some((x: Item) => true));
            && r.Ok?
            && Items(r.value.after) == [Item("B", 1)]
            && r.value.notes == [Removed(0), Removed(1)]
            && "A" !in r.value.after.typeIds
  {
    SweepOfAllA();
  }

  /** A filter test that accepts the items whose class is the search term. */
  function ClassIs(i: Item, term: string): bool {
    i.cls == term
  }

  /** The selection behind `FilterScenario`. */
  lemma ClassFilterSelects()
    ensures Keep([Item("X", 1), Item("Y", 1), Item("X", 2)], Accepts(ClassIs, "X"))
            == [Item("X", 1), Item("X", 2)]
  {
    var x1, y, x2 := Item("X", 1), Item("Y", 1), Item("X", 2);
    var p := Accepts(ClassIs, "X");
    assert p(x1) == ClassIs(x1, "X") == true;
    assert p(y) == ClassIs(y, "X") == false;
    assert p(x2) == ClassIs(x2, "X") == true;
    assert [x1, y, x2][1..] == [y, x2];
    assert [y, x2][1..] == [x2];
    assert Keep([x2], p) == [x2];
    assert Keep([y, x2], p) == [x2];
  }

  /** Filtering a full list [x1, y, x2] by a term that x1 and x2 accept shows
      [x1, x2] and leaves the full list as it was. */
  lemma FilterScenario(s: Adapter)
    requires s.itemsList == [Item("X", 1), Item("Y", 1), Item("X", 2)]
    ensures var r := Filter(s, Some("X"), ClassIs);
            && Items(r.after) == [Item("X", 1), Item("X", 2)]
            && r.after.itemsList == s.itemsList
            && r.notes == [DataSetChanged]
  {
    ClassFilterSelects();
  }
}
