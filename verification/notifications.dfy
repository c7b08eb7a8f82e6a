/** The change notifications an adapter sends to its list widget, and how the
    widget's idea of the row count evolves as it receives them. */
module Notifications {
  import opened Wrappers

  /** `notifyItemInserted`, `notifyItemRemoved`, `notifyItemRangeRemoved`,
      `notifyItemMoved`, `notifyItemChanged` and `notifyDataSetChanged`. */
  datatype Notification =
    | Inserted(pos: int)
    | Removed(pos: int)
    | RangeRemoved(start: int, count: int)
    | Moved(from: int, to: int)
    | Changed(pos: int)
    | DataSetChanged

  /** The row count the widget believes in after processing one notification
      while showing `rows` rows; None when the notification names a position
      the widget does not have. A data-set change makes the widget forget what
      it knew and re-read the count from the adapter, which reports `current`. */
  function Apply(rows: int, note: Notification, current: int): (r: Option<int>)
    requires 0 <= rows && 0 <= current
    ensures r.Some? ==> 0 <= r.value
  {
    match note
    case Inserted(p) => if 0 <= p <= rows then Some(rows + 1) else None
    case Removed(p) => if 0 <= p < rows then Some(rows - 1) else None
    case RangeRemoved(start, count) =>
      if 0 <= start && 0 <= count && start + count <= rows then Some(rows - count) else None
    case Moved(from, to) => if 0 <= from < rows && 0 <= to < rows then Some(rows) else None
    case Changed(p) => if 0 <= p < rows then Some(rows) else None
    case DataSetChanged => Some(current)
  }

  /** The row count after processing `notes` in order, or None as soon as one
      of them names a missing position. */
  function Replay(rows: int, notes: seq<Notification>, current: int): (r: Option<int>)
    requires 0 <= rows && 0 <= current
    ensures r.Some? ==> 0 <= r.value
    decreases |notes|
  {
    if |notes| == 0 then Some(rows)
    else
      match Apply(rows, notes[0], current)
      case None => None
      case Some(next) => Replay(next, notes[1..], current)
  }

  /** Replaying two batches one after the other is replaying their concatenation. */
  lemma {:induction false} ReplayConcat(rows: int, first: seq<Notification>, second: seq<Notification>, current: int)
    requires 0 <= rows && 0 <= current
    ensures Replay(rows, first + second, current) ==
            match Replay(rows, first, current)
            case None => None
            case Some(mid) => Replay(mid, second, current)
    decreases |first|
  {
    if |first| == 0 {
      assert first + second == second;
    } else {
      assert (first + second)[0] == first[0];
      assert (first + second)[1..] == first[1..] + second;
      match Apply(rows, first[0], current)
      case None =>
      case Some(next) => ReplayConcat(next, first[1..], second, current);
    }
  }

  /** The notifications take a widget showing `before` rows to exactly the
      `after` rows the adapter now reports, never naming a missing row. */
  predicate Explains(before: nat, notes: seq<Notification>, after: nat) {
    Replay(before, notes, after) == Some(after)
  }
}
