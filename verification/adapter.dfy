/** The list-management state machine of `RecyclerAdapter`: the view-type
    registry, the full and filtered item lists, the optional empty item, and
    the change notifications each operation sends to the list widget. */
module RecyclerAdapter {
  import opened Wrappers
  import opened Seqs
  import opened Notifications
  import opened Removal

  /** The runtime class name of an item, which keys the view-type registry. */
  type ClassName = string

  /** One row of data: its class, and a key telling apart distinct instances
      of the same class. */
  datatype Item = Item(cls: ClassName, key: nat)

  /** The adapter's fields. `nextViewId` is the next id the view-id generator
      hands out; `filtered` is only read while `showFiltered` holds. */
  datatype Adapter = Adapter(
    typeIds: map<ClassName, int>,
    types: map<int, Item>,
    itemsList: seq<Item>,
    filtered: seq<Item>,
    showFiltered: bool,
    emptyItem: Option<Item>,
    emptyItemId: int,
    nextViewId: int)

  /** The exceptions the operations can throw. */
  datatype Exception = IllegalArgument | NullPointer | IndexOutOfBounds

  /** A thrown exception, with the state the adapter was left in. */
  datatype Thrown = Thrown(exception: Exception, after: Adapter)

  /** A completed operation: the new state and the notifications sent, in order. */
  datatype Step = Step(after: Adapter, notes: seq<Notification>)

  /** The registry is a bijection between registered classes and their ids,
      every id was issued by the generator, the empty item's id is not a type
      id, and a filtered view is only ever shown over a non-empty full list. */
  predicate Valid(s: Adapter) {
    && (forall c :: c in s.typeIds ==>
          s.typeIds[c] in s.types && s.types[s.typeIds[c]].cls == c)
    && (forall id :: id in s.types ==>
          && id < s.nextViewId && id != s.emptyItemId
          && s.types[id].cls in s.typeIds && s.typeIds[s.types[id].cls] == id)
    && s.emptyItemId < s.nextViewId
    && (s.showFiltered ==> |s.itemsList| > 0)
  }

  /** A fresh adapter: nothing registered, both lists empty, no empty item. */
  function Create(): (s: Adapter)
    ensures Valid(s)
    ensures Items(s) == [] && s.emptyItem.None? && !s.showFiltered
    ensures s.typeIds == map[] && s.types == map[]
  {
    Adapter(map[], map[], [], [], false, None, 0, 1)
  }

  /** The active list: the filtered one while it is shown, else the full one.
      Every edit and every lookup goes through it. */
  function Items(s: Adapter): (r: seq<Item>)
    ensures s.showFiltered ==> r == s.filtered
    ensures !s.showFiltered ==> r == s.itemsList
  {
    if s.showFiltered then s.filtered else s.itemsList
  }

  /** The list that is not shown. */
  function Hidden(s: Adapter): seq<Item> {
    if s.showFiltered then s.itemsList else s.filtered
  }

  /** `s` with its active list replaced. */
  function WithItems(s: Adapter, items: seq<Item>): (r: Adapter)
    ensures Items(r) == items && Hidden(r) == Hidden(s)
    ensures SameBesidesItems(r, s)
  {
    if s.showFiltered then s.(filtered := items) else s.(itemsList := items)
  }

  /** `a` and `b` agree on everything except, perhaps, the active list. */
  predicate SameBesidesItems(a: Adapter, b: Adapter) {
    && a.typeIds == b.typeIds && a.types == b.types
    && a.showFiltered == b.showFiltered && Hidden(a) == Hidden(b)
    && a.emptyItem == b.emptyItem && a.emptyItemId == b.emptyItemId
    && a.nextViewId == b.nextViewId
  }

  /** The widget is showing the synthetic empty row. */
  function ShowsEmptyItem(s: Adapter): (r: bool)
    ensures r ==> Items(s) == [] && s.emptyItem.Some?
    ensures Items(s) == [] && s.emptyItem.Some? ==> r
  {
    |Items(s)| == 0 && s.emptyItem.Some?
  }

  /** Every item that is or may become visible has a registered class, so its
      view type can be looked up. */
  predicate Covered(s: Adapter) {
    && (forall i :: 0 <= i < |s.itemsList| ==> s.itemsList[i].cls in s.typeIds)
    && (s.showFiltered ==> forall i :: 0 <= i < |s.filtered| ==> s.filtered[i].cls in s.typeIds)
  }

  /** Sets the item shown when the adapter is empty, under a freshly issued id;
      announces the new row when the active list is empty. */
  function SetEmptyItem(s: Adapter, item: Option<Item>): (r: Step)
    ensures Valid(s) ==> Valid(r.after)
    ensures r.after.emptyItem == item
    ensures r.after.showFiltered == s.showFiltered
    ensures Valid(s) ==> r.after.emptyItemId !in s.types && r.after.emptyItemId > s.emptyItemId
    ensures Items(r.after) == Items(s) && Hidden(r.after) == Hidden(s)
    ensures r.after.typeIds == s.typeIds && r.after.types == s.types
    ensures r.after.emptyItemId == s.nextViewId && r.after.nextViewId == s.nextViewId + 1
    ensures |Items(s)| == 0 ==> r.notes == [Inserted(0)]
    ensures |Items(s)| > 0 ==> r.notes == []
  {
    var s1 := s.(emptyItem := item, emptyItemId := s.nextViewId, nextViewId := s.nextViewId + 1);
    Step(s1, if |Items(s1)| == 0 then [Inserted(0)] else [])
  }

  /** Gives the item's class a fresh view-type id, with the item as its
      prototype, unless the class already has one. */
  function RegisterItemClass(s: Adapter, item: Item): (r: Adapter)
    ensures Valid(s) ==> Valid(r)
    ensures item.cls in r.typeIds
    ensures item.cls in s.typeIds ==> r == s
    ensures r.nextViewId >= s.nextViewId
    ensures item.cls !in s.typeIds ==>
              && r.typeIds[item.cls] == s.nextViewId && r.nextViewId == s.nextViewId + 1
              && r.typeIds[item.cls] in r.types && r.types[r.typeIds[item.cls]] == item
              && r.typeIds - {item.cls} == s.typeIds
              && (Valid(s) ==>
                    && r.typeIds[item.cls] !in s.types && r.typeIds[item.cls] > s.emptyItemId
                    && r.types - {r.typeIds[item.cls]} == s.types)
    ensures Items(r) == Items(s) && SameBesidesItems(r.(typeIds := s.typeIds, types := s.types, nextViewId := s.nextViewId), s)
  {
    if item.cls in s.typeIds then s
    else
      var id := s.nextViewId;
      s.(typeIds := s.typeIds[item.cls := id], types := s.types[id := item], nextViewId := id + 1)
  }

  /** The retirement of the empty row, due when the list has just gained its
      first element while an empty item is set. */
  function RetireEmptyRow(s: Adapter): (r: seq<Notification>)
    ensures r == [] || r == [Removed(0)]
    ensures r == [Removed(0)] <==> |Items(s)| == 1 && s.emptyItem.Some?
  {
    if |Items(s)| == 1 && s.emptyItem.Some? then [Removed(0)] else []
  }

  /** Appends `item` to the active list. */
  function Add(s: Adapter, item: Item): (r: Step)
    ensures Valid(s) ==> Valid(r.after)
    ensures Items(r.after) == Items(s) + [item]
    ensures SameBesidesItems(r.after, RegisterItemClass(s, item))
    ensures r.notes == (if ShowsEmptyItem(s) then [Removed(0)] else []) + [Inserted(|Items(s)|)]
  {
    var reg := RegisterItemClass(s, item);
    var s1 := WithItems(reg, Items(reg) + [item]);
    Step(s1, RetireEmptyRow(s1) + [Inserted(|Items(s1)| - 1)])
  }

  /** Inserts `item` at `position` of the active list. The class is registered
      before the position is checked, so an out-of-range position throws with
      the registration already done. */
  function AddAtPosition(s: Adapter, item: Item, position: int): (r: Result<Step, Thrown>)
    ensures r.Err? <==> position < 0 || position > |Items(s)|
    ensures r.Err? ==> r.error == Thrown(IndexOutOfBounds, RegisterItemClass(s, item))
    ensures Valid(s) && r.Ok? ==> Valid(r.value.after)
    ensures r.Ok? ==>
              var items := Items(r.value.after);
              && |items| == |Items(s)| + 1 && items[position] == item
              && (forall j :: 0 <= j < position ==> items[j] == Items(s)[j])
              && (forall j :: position < j < |items| ==> items[j] == Items(s)[j - 1])
    ensures r.Ok? ==> SameBesidesItems(r.value.after, RegisterItemClass(s, item))
    ensures r.Ok? ==> r.value.notes == (if ShowsEmptyItem(s) then [Removed(0)] else []) + [Inserted(position)]
  {
    var reg := RegisterItemClass(s, item);
    if position < 0 || position > |Items(reg)| then Err(Thrown(IndexOutOfBounds, reg))
    else
      var s1 := WithItems(reg, InsertAt(Items(reg), position, item));
      Ok(Step(s1, RetireEmptyRow(s1) + [Inserted(position)]))
  }

  /** The number of rows the widget shows: the synthetic empty row alone, or
      the active list. */
  function GetItemCount(s: Adapter): (r: nat)
    ensures r == 0 <==> |Items(s)| == 0 && s.emptyItem.None?
    ensures ShowsEmptyItem(s) ==> r == 1
    ensures !ShowsEmptyItem(s) ==> r == |Items(s)|
  {
    if ShowsEmptyItem(s) then 1 else |Items(s)|
  }

  /** The view type of the row at `position`: the empty item's id for the
      synthetic empty row, else the id registered for the item's class. The
      caller must pass a real row whose class is still registered. */
  function GetItemViewType(s: Adapter, position: int): (r: int)
    requires ShowsEmptyItem(s) ||
             (0 <= position < |Items(s)| && Items(s)[position].cls in s.typeIds)
    ensures ShowsEmptyItem(s) ==> r == s.emptyItemId
    ensures Valid(s) && !ShowsEmptyItem(s) ==>
              && r in s.types && r != s.emptyItemId
              && s.types[r].cls == Items(s)[position].cls
  {
    if ShowsEmptyItem(s) then s.emptyItemId
    else s.typeIds[Items(s)[position].cls]
  }

  /** The item a view holder of type `viewType` is built from: the empty item
      for its own id while the empty row shows, else the registered prototype;
      None where the lookup yields null. */
  function PrototypeFor(s: Adapter, viewType: int): (r: Option<Item>)
    ensures ShowsEmptyItem(s) && viewType == s.emptyItemId ==> r == s.emptyItem
    ensures r.Some? && !(ShowsEmptyItem(s) && viewType == s.emptyItemId) ==>
              viewType in s.types && r.value == s.types[viewType]
    ensures r.None? <==> viewType !in s.types && !(ShowsEmptyItem(s) && viewType == s.emptyItemId)
  {
    if ShowsEmptyItem(s) && viewType == s.emptyItemId then s.emptyItem
    else if viewType in s.types then Some(s.types[viewType])
    else None
  }

  /** Forwards an event to the item at `position`; a stale position outside
      the active list is dropped. A true answer from the item's handler is
      announced as a change of that row. */
  function SendEvent(s: Adapter, position: int, onEvent: (Item, int) -> bool): (r: seq<Notification>)
    ensures r == [] || (r == [Changed(position)] && 0 <= position < |Items(s)|)
    ensures r == [Changed(position)] <==> 0 <= position < |Items(s)| && onEvent(Items(s)[position], position)
  {
    if position < 0 || position >= |Items(s)| then []
    else if onEvent(Items(s)[position], position) then [Changed(position)]
    else []
  }

  /** The items a bulk removal takes: those of class `c` the listener accepts. */
  function Doomed(c: ClassName, hasToBeRemoved: Item -> bool): Item -> bool {
    (x: Item) => x.cls == c && hasToBeRemoved(x)
  }

  /** Drops the registry entry of class `c`, if there is one. */
  function Unregister(s: Adapter, c: ClassName): (r: Adapter)
    ensures Valid(s) ==> Valid(r)
    ensures c !in r.typeIds && r.typeIds == s.typeIds - {c}
    ensures c in s.typeIds ==> r.types == s.types - {s.typeIds[c]}
    ensures c !in s.typeIds ==> r == s
    ensures Items(r) == Items(s) && Hidden(r) == Hidden(s) && r.showFiltered == s.showFiltered
    ensures r.emptyItem == s.emptyItem && r.emptyItemId == s.emptyItemId && r.nextViewId == s.nextViewId
  {
    if c in s.typeIds then s.(typeIds := s.typeIds - {c}, types := s.types - {s.typeIds[c]})
    else s
  }

  /** Removes from the active list every item of class `clazz` that the
      listener accepts, announcing each removal at the index the item has at
      that moment; then, unless the list was empty, drops the class from the
      registry whether or not anything was removed. A null class or listener
      is rejected. */
  function RemoveAllItemsWithClass(s: Adapter, clazz: Option<ClassName>,
                                   listener: Option<Item -> bool>): (r: Result<Step, Thrown>)
    ensures clazz.None? || listener.None? <==> r.Err?
    ensures r.Err? ==> r.error == Thrown(IllegalArgument, s)
    ensures r.Ok? && |Items(s)| == 0 ==> r.value == Step(s, [])
    ensures r.Ok? && |Items(s)| > 0 ==>
              && Items(r.value.after) == Keep(Items(s), Not(Doomed(clazz.value, listener.value)))
              && r.value.after == Unregister(WithItems(s, Items(r.value.after)), clazz.value)
              && |r.value.notes| + |Items(r.value.after)| == |Items(s)|
              && (forall k :: 0 <= k < |r.value.notes| ==> r.value.notes[k].Removed?)
    ensures Valid(s) && r.Ok? ==> Valid(r.value.after)
  {
    if clazz.None? then Err(Thrown(IllegalArgument, s))
    else if listener.None? then Err(Thrown(IllegalArgument, s))
    else if |Items(s)| == 0 then Ok(Step(s, []))
    else
      var doomed := Doomed(clazz.value, listener.value);
      var swept := SweepFrom(Items(s), doomed, 0);
      SweepSurvivors(Items(s), doomed, 0);
      var s1 := WithItems(s, swept.survivors);
      Ok(Step(Unregister(s1, clazz.value), swept.notes))
  }

  /** The one-argument overload: removes every item of class `clazz`, as if
      the listener accepted them all. */
  function RemoveAllItemsWithClassUnconditionally(s: Adapter, clazz: Option<ClassName>): (r: Result<Step, Thrown>)
    ensures r.Err? <==> clazz.None?
    ensures r.Err? ==> r.error == Thrown(IllegalArgument, s)
    ensures r.Ok? ==> forall i :: 0 <= i < |Items(r.value.after)| ==> Items(r.value.after)[i].cls != clazz.value
    ensures r.Ok? ==> forall x: Item :: x.cls != clazz.value ==>
              multiset(Items(r.value.after))[x] == multiset(Items(s))[x]
    ensures r.Ok? && |Items(s)| == 0 ==> r.value == Step(s, [])
    ensures r.Ok? && |Items(s)| > 0 ==>
              && clazz.value !in r.value.after.typeIds
              && |r.value.notes| + |Items(r.value.after)| == |Items(s)|
              && forall k :: 0 <= k < |r.value.notes| ==> r.value.notes[k].Removed?
    ensures r.Ok? && |Items(s)| > 0 ==>
              && Items(r.value.after) == Keep(Items(s), Not(Doomed(clazz.value, (x: Item) => true)))
              && r.value.after == Unregister(WithItems(s, Items(r.value.after)), clazz.value)
              && r.value.notes == SweepFrom(Items(s), Doomed(clazz.value, (x: Item) => true), 0).notes
  {
    if clazz.Some? then
      KeepCountsAll(Items(s), Not(Doomed(clazz.value, (x: Item) => true)));
      RemoveAllItemsWithClass(s, clazz, Some((x: Item) => true))
    else
      RemoveAllItemsWithClass(s, clazz, Some((x: Item) => true))
  }

  /** The position of the last item of class `c`, scanning from the tail. */
  function LastIndexOfClass(xs: seq<Item>, c: ClassName): (r: Option<nat>)
    ensures r.Some? ==> r.value < |xs| && xs[r.value].cls == c
    ensures r.Some? ==> forall j :: r.value < j < |xs| ==> xs[j].cls != c
    ensures r.None? ==> forall j :: 0 <= j < |xs| ==> xs[j].cls != c
    decreases |xs|
  {
    if |xs| == 0 then None
    else if xs[|xs| - 1].cls == c then Some(|xs| - 1)
    else LastIndexOfClass(xs[..|xs| - 1], c)
  }

  /** The last item of class `clazz` with its position, or None when the list
      is empty or holds no such item; a null class is rejected. */
  function GetLastItemWithClass(s: Adapter, clazz: Option<ClassName>): (r: Result<Option<(nat, Item)>, Exception>)
    ensures clazz.None? <==> r.Err?
    ensures r.Err? ==> r.error == IllegalArgument
    ensures r.Ok? && r.value.Some? ==>
              var (i, item) := r.value.value;
              && i < |Items(s)| && item == Items(s)[i] && item.cls == clazz.value
              && forall j :: i < j < |Items(s)| ==> Items(s)[j].cls != clazz.value
    ensures r.Ok? && r.value.None? ==>
              forall j :: 0 <= j < |Items(s)| ==> Items(s)[j].cls != clazz.value
  {
    if clazz.None? then Err(IllegalArgument)
    else if |Items(s)| == 0 then Ok(None)
    else
      match LastIndexOfClass(Items(s), clazz.value)
      case None => Ok(None)
      case Some(i) => Ok(Some((i, Items(s)[i])))
  }

  /** Removes the last item of class `clazz` from the active list and
      announces it. An empty list returns before the class is looked at; on a
      non-empty list a null class dereferences null. */
  function RemoveLastItemWithClass(s: Adapter, clazz: Option<ClassName>): (r: Result<Step, Thrown>)
    ensures r.Err? <==> clazz.None? && |Items(s)| > 0
    ensures r.Err? ==> r.error == Thrown(NullPointer, s)
    ensures r.Ok? ==> SameBesidesItems(r.value.after, s)
    ensures r.Ok? && (|Items(s)| == 0 || LastIndexOfClass(Items(s), clazz.value).None?) ==>
              r.value == Step(s, [])
    ensures r.Ok? && |Items(s)| > 0 && LastIndexOfClass(Items(s), clazz.value).Some? ==>
              var i := LastIndexOfClass(Items(s), clazz.value).value;
              && r.value.notes == [Removed(i)]
              && Items(r.value.after) == Items(s)[..i] + Items(s)[i + 1..]
              && forall j :: i <= j < |Items(r.value.after)| ==> Items(r.value.after)[j].cls != clazz.value
    ensures Valid(s) && r.Ok? ==> Valid(r.value.after)
  {
    if |Items(s)| == 0 then Ok(Step(s, []))
    else if clazz.None? then Err(Thrown(NullPointer, s))
    else
      match LastIndexOfClass(Items(s), clazz.value)
      case None => Ok(Step(s, []))
      case Some(i) => Ok(Step(WithItems(s, RemoveAt(Items(s), i)), [Removed(i)]))
  }

  /** Removes the item at `position`; an empty list or a position out of
      range leaves everything as it was and sends nothing. */
  function RemoveItemAtPosition(s: Adapter, position: int): (r: Step)
    ensures !(0 <= position < |Items(s)|) ==> r == Step(s, [])
    ensures 0 <= position < |Items(s)| ==>
              && r.notes == [Removed(position)]
              && multiset(Items(r.after)) + multiset{Items(s)[position]} == multiset(Items(s))
              && |Items(r.after)| == |Items(s)| - 1
              && (forall j :: 0 <= j < position ==> Items(r.after)[j] == Items(s)[j])
              && (forall j :: position <= j < |Items(r.after)| ==> Items(r.after)[j] == Items(s)[j + 1])
    ensures SameBesidesItems(r.after, s)
    ensures Valid(s) ==> Valid(r.after)
  {
    if |Items(s)| == 0 || position < 0 || position >= |Items(s)| then Step(s, [])
    else Step(WithItems(s, RemoveAt(Items(s), position)), [Removed(position)])
  }

  /** The item at `position`, or None for an empty list or a position out of
      range. */
  function GetItemAtPosition(s: Adapter, position: int): (r: Option<Item>)
    ensures r.None? <==> !(0 <= position < |Items(s)|)
    ensures r.Some? ==> r.value == Items(s)[position]
  {
    if |Items(s)| == 0 || position < 0 || position >= |Items(s)| then None
    else Some(Items(s)[position])
  }

  /** Empties the active list, announcing the removed range if there was one. */
  function Clear(s: Adapter): (r: Step)
    ensures Items(r.after) == [] && SameBesidesItems(r.after, s)
    ensures |Items(s)| == 0 ==> r == Step(s, [])
    ensures |Items(s)| > 0 ==> r.notes == [RangeRemoved(0, |Items(s)|)]
    ensures Valid(s) ==> Valid(r.after)
  {
    var itemsSize := |Items(s)|;
    var s1 := WithItems(s, []);
    Step(s1, if itemsSize > 0 then [RangeRemoved(0, itemsSize)] else [])
  }

  /** A drag step: swaps the rows at the two adapter positions the gesture
      framework reports and announces a move between them. */
  function Move(s: Adapter, source: int, target: int): (r: Step)
    requires 0 <= source < |Items(s)| && 0 <= target < |Items(s)|
    ensures |Items(r.after)| == |Items(s)|
    ensures multiset(Items(r.after)) == multiset(Items(s))
    ensures Items(r.after)[source] == Items(s)[target] && Items(r.after)[target] == Items(s)[source]
    ensures forall j :: 0 <= j < |Items(s)| && j != source && j != target ==> Items(r.after)[j] == Items(s)[j]
    ensures r.notes == [Moved(source, target)]
    ensures SameBesidesItems(r.after, s)
    ensures Valid(s) ==> Valid(r.after)
  {
    Step(WithItems(s, Swap(Items(s), source, target)), [Moved(source, target)])
  }

  /** The item-side filter test for a given search term. */
  function Accepts(onFilter: (Item, string) -> bool, term: string): Item -> bool {
    (x: Item) => onFilter(x, term)
  }

  /** Filters by `searchTerm`: an empty full list makes it a no-op; a null or
      empty term goes back to the full list; any other term rebuilds the
      filtered list from the full list and shows it. The full list is never
      touched. */
  function Filter(s: Adapter, searchTerm: Option<string>, onFilter: (Item, string) -> bool): (r: Step)
    ensures r.after.itemsList == s.itemsList
    ensures r.after.typeIds == s.typeIds && r.after.types == s.types
    ensures r.after.emptyItem == s.emptyItem && r.after.emptyItemId == s.emptyItemId
    ensures r.after.nextViewId == s.nextViewId
    ensures |s.itemsList| == 0 ==> r == Step(s, [])
    ensures |s.itemsList| > 0 && (searchTerm.None? || searchTerm.value == "") ==>
              && r.notes == [DataSetChanged] && !r.after.showFiltered
              && r.after.filtered == s.filtered && Items(r.after) == s.itemsList
    ensures |s.itemsList| > 0 && searchTerm.Some? && searchTerm.value != "" ==>
              && r.notes == [DataSetChanged] && r.after.showFiltered
              && Items(r.after) == Keep(s.itemsList, Accepts(onFilter, searchTerm.value))
    ensures Valid(s) ==> Valid(r.after)
  {
    if |s.itemsList| == 0 then Step(s, [])
    else if searchTerm.None? || searchTerm.value == "" then
      Step(s.(showFiltered := false), [DataSetChanged])
    else
      var filtered := Keep(s.itemsList, Accepts(onFilter, searchTerm.value));
      Step(s.(filtered := filtered, showFiltered := true), [DataSetChanged])
  }
}
