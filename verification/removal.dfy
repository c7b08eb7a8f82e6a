/** Bulk removal through a list iterator: every doomed element is removed in
    place and reported at the index the iterator had reached in the list being
    edited. */
module Removal {
  import opened Wrappers
  import opened Seqs
  import opened Notifications

  /** What a sweep leaves in the list and what it reports. */
  datatype Swept<T> = Swept(survivors: seq<T>, notes: seq<Notification>)

  /** Walks `xs` front to back; `at` is the iterator's index in the edited list,
      which is the number of elements kept so far before `xs`. A doomed element
      is reported as removed at `at`; a kept one moves the index on. */
  function SweepFrom<T>(xs: seq<T>, doomed: T -> bool, at: int): (r: Swept<T>)
    ensures |r.survivors| + |r.notes| == |xs|
    ensures forall k :: 0 <= k < |r.notes| ==>
              r.notes[k].Removed? && at <= r.notes[k].pos <= at + |r.survivors|
    decreases |xs|
  {
    if |xs| == 0 then Swept([], [])
    else if doomed(xs[0]) then
      var rest := SweepFrom(xs[1..], doomed, at);
      Swept(rest.survivors, [Removed(at)] + rest.notes)
    else
      var rest := SweepFrom(xs[1..], doomed, at + 1);
      Swept([xs[0]] + rest.survivors, rest.notes)
  }

  /** The positions of `xs` holding doomed elements, ascending, counted from
      `base` (the position of `xs[0]` in the whole list). */
  function DoomedFrom<T>(xs: seq<T>, doomed: T -> bool, base: int): (r: seq<int>)
    ensures forall k :: 0 <= k < |r| ==> base <= r[k] < base + |xs| && doomed(xs[r[k] - base])
    ensures forall k, l :: 0 <= k < l < |r| ==> r[k] < r[l]
    decreases |xs|
  {
    if |xs| == 0 then []
    else
      var tail := DoomedFrom(xs[1..], doomed, base + 1);
      assert forall i :: 1 <= i < |xs| ==> xs[i] == xs[1..][i - 1];
      (if doomed(xs[0]) then [base] else []) + tail
  }

  /** `DoomedFrom` misses no doomed position. */
  lemma {:induction false} DoomedFromComplete<T>(xs: seq<T>, doomed: T -> bool, base: int, i: int)
    requires 0 <= i < |xs| && doomed(xs[i])
    ensures base + i in DoomedFrom(xs, doomed, base)
    decreases |xs|
  {
    if i > 0 {
      assert xs[1..][i - 1] == xs[i];
      DoomedFromComplete(xs[1..], doomed, base + 1, i - 1);
    }
  }

  /** The sweep keeps exactly the elements that are not doomed, in order. */
  lemma {:induction false} SweepSurvivors<T>(xs: seq<T>, doomed: T -> bool, at: int)
    ensures SweepFrom(xs, doomed, at).survivors == Keep(xs, Not(doomed))
    decreases |xs|
  {
    if |xs| > 0 {
      SweepSurvivors(xs[1..], doomed, at);
      SweepSurvivors(xs[1..], doomed, at + 1);
    }
  }

  /** The k-th removal is reported at its original index minus the k removals
      that came before it. */
  lemma {:induction false} SweepNotes<T>(xs: seq<T>, doomed: T -> bool, at: int, base: int)
    ensures |SweepFrom(xs, doomed, at).notes| == |DoomedFrom(xs, doomed, base)|
    ensures forall k :: 0 <= k < |DoomedFrom(xs, doomed, base)| ==>
              SweepFrom(xs, doomed, at).notes[k] == Removed(at + (DoomedFrom(xs, doomed, base)[k] - base) - k)
    decreases |xs|
  {
    if |xs| > 0 {
      if doomed(xs[0]) {
        SweepNotes(xs[1..], doomed, at, base + 1);
        RemovedFirst(xs, doomed, at, base);
      } else {
        SweepNotes(xs[1..], doomed, at + 1, base + 1);
        KeptFirst(xs, doomed, at, base);
      }
    }
  }

  /** One step of `SweepNotes` when the first element is doomed. */
  lemma RemovedFirst<T>(xs: seq<T>, doomed: T -> bool, at: int, base: int)
    requires |xs| > 0 && doomed(xs[0])
    requires var rest := SweepFrom(xs[1..], doomed, at).notes;
             var tail := DoomedFrom(xs[1..], doomed, base + 1);
             |rest| == |tail| &&
             forall k :: 0 <= k < |tail| ==> rest[k] == Removed(at + (tail[k] - (base + 1)) - k)
    ensures var notes := SweepFrom(xs, doomed, at).notes;
            var ix := DoomedFrom(xs, doomed, base);
            |notes| == |ix| &&
            forall k :: 0 <= k < |ix| ==> notes[k] == Removed(at + (ix[k] - base) - k)
  {
    var rest := SweepFrom(xs[1..], doomed, at).notes;
    var tail := DoomedFrom(xs[1..], doomed, base + 1);
    var notes := SweepFrom(xs, doomed, at).notes;
    var ix := DoomedFrom(xs, doomed, base);
    assert notes == [Removed(at)] + rest;
    assert ix == [base] + tail;
    forall k | 0 <= k < |ix|
      ensures notes[k] == Removed(at + (ix[k] - base) - k)
    {
      if k > 0 {
        assert notes[k] == rest[k - 1];
        assert ix[k] == tail[k - 1];
      }
    }
  }

  /** One step of `SweepNotes` when the first element is kept. */
  lemma KeptFirst<T>(xs: seq<T>, doomed: T -> bool, at: int, base: int)
    requires |xs| > 0 && !doomed(xs[0])
    requires var rest := SweepFrom(xs[1..], doomed, at + 1).notes;
             var tail := DoomedFrom(xs[1..], doomed, base + 1);
             |rest| == |tail| &&
             forall k :: 0 <= k < |tail| ==> rest[k] == Removed(at + 1 + (tail[k] - (base + 1)) - k)
    ensures var notes := SweepFrom(xs, doomed, at).notes;
            var ix := DoomedFrom(xs, doomed, base);
            |notes| == |ix| &&
            forall k :: 0 <= k < |ix| ==> notes[k] == Removed(at + (ix[k] - base) - k)
  {
    assert SweepFrom(xs, doomed, at).notes == SweepFrom(xs[1..], doomed, at + 1).notes;
    assert DoomedFrom(xs, doomed, base) == DoomedFrom(xs[1..], doomed, base + 1);
  }

  /** A widget that showed the whole list follows the sweep's notifications to
      the survivors' count without ever being told about a row it lacks. */
  lemma {:induction false} SweepReplays<T>(xs: seq<T>, doomed: T -> bool, at: nat, current: nat)
    ensures Replay(at + |xs|, SweepFrom(xs, doomed, at).notes, current)
            == Some(at + |SweepFrom(xs, doomed, at).survivors|)
    decreases |xs|
  {
    if |xs| > 0 {
      if doomed(xs[0]) {
        var rest := SweepFrom(xs[1..], doomed, at);
        SweepReplays(xs[1..], doomed, at, current);
        assert ([Removed(at)] + rest.notes)[1..] == rest.notes;
      } else {
        SweepReplays(xs[1..], doomed, at + 1, current);
      }
    }
  }
}
