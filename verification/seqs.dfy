/** Sequence operations used by the adapter: order-preserving selection and the
    positional edits a `java.util.List` offers (insert, remove, swap, move). */
module Seqs {

  /** The elements of `xs` that satisfy `p`, in their original order. */
  function Keep<T>(xs: seq<T>, p: T -> bool): (r: seq<T>)
    ensures |r| <= |xs|
    ensures forall i :: 0 <= i < |r| ==> p(r[i])
    decreases |xs|
  {
    if |xs| == 0 then []
    else (if p(xs[0]) then [xs[0]] else []) + Keep(xs[1..], p)
  }

  /** The complement of a predicate. */
  function Not<T>(p: T -> bool): T -> bool {
    x => !p(x)
  }

  /** `Keep` takes every copy of an accepted value and no copy of a rejected one. */
  lemma {:induction false} KeepCounts<T>(xs: seq<T>, p: T -> bool, x: T)
    ensures multiset(Keep(xs, p))[x] == if p(x) then multiset(xs)[x] else 0
    decreases |xs|
  {
    if |xs| > 0 {
      assert xs == [xs[0]] + xs[1..];
      KeepCounts(xs[1..], p, x);
    }
  }

  /** `KeepCounts` for every value at once. */
  lemma KeepCountsAll<T>(xs: seq<T>, p: T -> bool)
    ensures forall x :: multiset(Keep(xs, p))[x] == if p(x) then multiset(xs)[x] else 0
  {
    forall x
      ensures multiset(Keep(xs, p))[x] == if p(x) then multiset(xs)[x] else 0
    {
      KeepCounts(xs, p, x);
    }
  }

  /** Everything `Keep` selects comes from the input. */
  lemma KeptFromInput<T>(xs: seq<T>, p: T -> bool, i: int)
    requires 0 <= i < |Keep(xs, p)|
    ensures Keep(xs, p)[i] in xs
  {
    var x := Keep(xs, p)[i];
    assert x in multiset(Keep(xs, p));
    KeepCounts(xs, p, x);
  }

  /** `Keep` preserves order: selecting from a concatenation selects from each part. */
  lemma {:induction false} KeepAppend<T>(xs: seq<T>, ys: seq<T>, p: T -> bool)
    ensures Keep(xs + ys, p) == Keep(xs, p) + Keep(ys, p)
    decreases |xs|
  {
    if |xs| == 0 {
      assert xs + ys == ys;
    } else {
      assert (xs + ys)[0] == xs[0];
      assert (xs + ys)[1..] == xs[1..] + ys;
      KeepAppend(xs[1..], ys, p);
    }
  }

  /** `ArrayList.add(i, x)`: `x` lands at `i`, later elements shift one place right. */
  function InsertAt<T>(xs: seq<T>, i: int, x: T): (r: seq<T>)
    requires 0 <= i <= |xs|
    ensures |r| == |xs| + 1 && r[i] == x
    ensures forall j :: 0 <= j < i ==> r[j] == xs[j]
    ensures forall j :: i < j < |r| ==> r[j] == xs[j - 1]
    ensures multiset(r) == multiset(xs) + multiset{x}
  {
    assert xs == xs[..i] + xs[i..];
    xs[..i] + [x] + xs[i..]
  }

  /** `ArrayList.remove(i)`: the element at `i` goes, later elements shift one place left. */
  function RemoveAt<T>(xs: seq<T>, i: int): (r: seq<T>)
    requires 0 <= i < |xs|
    ensures |r| == |xs| - 1
    ensures forall j :: 0 <= j < i ==> r[j] == xs[j]
    ensures forall j :: i <= j < |r| ==> r[j] == xs[j + 1]
    ensures multiset(r) + multiset{xs[i]} == multiset(xs)
  {
    assert xs == xs[..i] + [xs[i]] + xs[i + 1..];
    xs[..i] + xs[i + 1..]
  }

  /** `Collections.swap(list, a, b)`: the elements at `a` and `b` trade places. */
  function Swap<T>(xs: seq<T>, a: int, b: int): (r: seq<T>)
    requires 0 <= a < |xs| && 0 <= b < |xs|
    ensures |r| == |xs| && r[a] == xs[b] && r[b] == xs[a]
    ensures forall j :: 0 <= j < |xs| && j != a && j != b ==> r[j] == xs[j]
    ensures multiset(r) == multiset(xs)
  {
    xs[a := xs[b]][b := xs[a]]
  }

  /** What a widget does on a "moved(from, to)" notification: the element at
      `from` is taken out and re-inserted at `to`, the ones between shift over. */
  function MoveTo<T>(xs: seq<T>, from: int, to: int): (r: seq<T>)
    requires 0 <= from < |xs| && 0 <= to < |xs|
    ensures |r| == |xs| && r[to] == xs[from]
    ensures multiset(r) == multiset(xs)
  {
    InsertAt(RemoveAt(xs, from), to, xs[from])
  }

  /** No value occurs twice. */
  predicate Distinct<T(==)>(xs: seq<T>) {
    forall i, j :: 0 <= i < j < |xs| ==> xs[i] != xs[j]
  }

  /** On a sequence of distinct elements, swapping two positions and moving one
      element to the other's position give the same sequence exactly when the
      positions are equal or adjacent. */
  lemma SwapIsMoveIffAdjacent<T>(xs: seq<T>, a: int, b: int)
    requires Distinct(xs)
    requires 0 <= a < |xs| && 0 <= b < |xs|
    ensures Swap(xs, a, b) == MoveTo(xs, a, b) <==> -1 <= a - b <= 1
  {
    var s := Swap(xs, a, b);
    var m := MoveTo(xs, a, b);
    var rest := RemoveAt(xs, a);
    if a == b {
      assert s == xs;
      assert m == xs;
    } else if b == a + 1 {
      assert forall j :: 0 <= j < |xs| ==> s[j] == m[j];
    } else if a == b + 1 {
      assert forall j :: 0 <= j < |xs| ==> s[j] == m[j];
    } else if a < b {
      // the move shifts xs[a + 1] down to a, the swap puts xs[b] there
      assert m[a] == rest[a] == xs[a + 1];
      assert s[a] == xs[b];
      assert s[a] != m[a];
    } else {
      // the move shifts xs[b] up to b + 1, the swap leaves xs[b + 1] there
      assert m[b + 1] == rest[b] == xs[b];
      assert s[b + 1] == xs[b + 1];
      assert s[b + 1] != m[b + 1];
    }
  }
}
