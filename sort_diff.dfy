/**
  * The sort-and-diff step shared by `checkAndReport` and the `@sort` array
  * handler: sort a copy, compare it slot by slot with the original by identity,
  * and pair each slot's range with the range of the element sorted into it.
  */
module SortDiff {
  import opened Wrappers
  import opened Ast
  import opened Report
  import opened StableSort

  /** `zip2(items, sorted).some(([a, b]) => a !== b)`: some slot holds a different node. */
  function NeedSort<T(==)>(items: seq<T>, sorted: seq<T>): (r: bool)
    requires |items| == |sorted|
    ensures r <==> exists i :: 0 <= i < |items| && items[i] != sorted[i]
    ensures r <==> items != sorted
  {
    if |items| == 0 then false
    else
      assert items == [items[0]] + items[1..] && sorted == [sorted[0]] + sorted[1..];
      items[0] != sorted[0] || NeedSort(items[1..], sorted[1..])
  }

  /**
    * `zip2(items, sorted).map(([from, to]) => ({ from: from.range, to: to.range }))`:
    * `None` when some slot holds a node without a range (`null.range` throws).
    */
  function DiffPairs<T>(items: seq<T>, sorted: seq<T>, rangeOf: T -> Option<Range>): (r: Option<seq<DiffRange>>)
    requires |items| == |sorted|
    ensures r.None? <==> exists i :: 0 <= i < |items| && (rangeOf(items[i]).None? || rangeOf(sorted[i]).None?)
    ensures r.Some? ==> |r.value| == |items|
    ensures r.Some? ==> forall i :: 0 <= i < |items| ==> r.value[i] == DiffRange(rangeOf(items[i]).value, rangeOf(sorted[i]).value)
  {
    if |items| == 0 then Some([])
    else if rangeOf(items[0]).None? || rangeOf(sorted[0]).None? then None
    else
      match DiffPairs(items[1..], sorted[1..], rangeOf)
      case None =>
        assert forall i :: 0 < i < |items| ==> items[1..][i - 1] == items[i] && sorted[1..][i - 1] == sorted[i];
        None
      case Some(rest) =>
        Some([DiffRange(rangeOf(items[0]).value, rangeOf(sorted[0]).value)] + rest)
  }

  /** What the step decides once the copy is sorted: no report, a fix over `range`, or a throw. */
  function DiffOutcome<T(==)>(range: Range, items: seq<T>, sorted: seq<T>, rangeOf: T -> Option<Range>): (o: Outcome)
    requires |items| == |sorted|
    ensures o.NoReport? <==> items == sorted
    ensures o.TypeError? <==> items != sorted && DiffPairs(items, sorted, rangeOf).None?
    ensures o.Report? ==> o.edit == Splice(range, DiffPairs(items, sorted, rangeOf).value)
  {
    if !NeedSort(items, sorted) then NoReport
    else
      match DiffPairs(items, sorted, rangeOf)
      case None => TypeError
      case Some(pairs) => Report(Splice(range, pairs))
  }

  /**
    * The whole step on `items` under `cmp`, with `Sort` as the sort: quiet exactly when
    * sorting moves nothing, so always on input already in order; a throw exactly when
    * something moves and some slot lacks a range; otherwise one pair per slot over `range`.
    */
  function SortAndDiff<T(==)>(range: Range, items: seq<T>, cmp: (T, T) -> int, rangeOf: T -> Option<Range>): (o: Outcome)
    ensures o.NoReport? <==> Sort(items, cmp) == items
    ensures AdjacentSorted(items, cmp) ==> o == NoReport
    ensures o.TypeError? <==> (Sort(items, cmp) != items
      && exists i :: 0 <= i < |items| && (rangeOf(items[i]).None? || rangeOf(Sort(items, cmp)[i]).None?))
    ensures o.Report? ==> o.edit.Splice? && o.edit.range == range && |o.edit.diffRanges| == |items|
  {
    assert AdjacentSorted(items, cmp) ==> Sort(items, cmp) == items by {
      if AdjacentSorted(items, cmp) {
        SortOfSorted(items, cmp);
      }
    }
    DiffOutcome(range, items, Sort(items, cmp), rangeOf)
  }

  /** `checkAndReport`: sorts a copy in place, then diffs it against the original. */
  method CheckAndReport<T(==)>(range: Range, items: seq<T>, cmp: (T, T) -> int, rangeOf: T -> Option<Range>)
    returns (o: Outcome)
    ensures o == SortAndDiff(range, items, cmp, rangeOf)
  {
    var sorted := SortCopy(items, cmp);
    o := DiffOutcome(range, items, sorted, rangeOf);
  }

  /** Input already in order under `cmp` is never reported. */
  lemma SortedInputQuiet<T>(range: Range, items: seq<T>, cmp: (T, T) -> int, rangeOf: T -> Option<Range>)
    requires AdjacentSorted(items, cmp)
    ensures SortAndDiff(range, items, cmp, rangeOf) == NoReport
  {
    SortOfSorted(items, cmp);
  }

  /** When `cmp` is a total preorder on the items, no report means the items are in order. */
  lemma QuietMeansSorted<T>(range: Range, items: seq<T>, cmp: (T, T) -> int, rangeOf: T -> Option<Range>)
    requires TotalPreorderOn(items, cmp)
    requires SortAndDiff(range, items, cmp, rangeOf) == NoReport
    ensures SortedBy(items, cmp)
  {
    SortSorted(items, cmp, items);
  }

  /**
    * A fix pairs each slot's range with the range of the element the sort puts in
    * that slot, one pair per slot, and the sorted list is a permutation of the items.
    */
  lemma FixPairsSlots<T>(range: Range, items: seq<T>, cmp: (T, T) -> int, rangeOf: T -> Option<Range>)
    requires SortAndDiff(range, items, cmp, rangeOf).Report?
    ensures var sorted := Sort(items, cmp);
      && multiset(sorted) == multiset(items)
      && (forall i :: 0 <= i < |items| ==> rangeOf(items[i]).Some? && rangeOf(sorted[i]).Some?)
      && SortAndDiff(range, items, cmp, rangeOf).edit.range == range
      && |SortAndDiff(range, items, cmp, rangeOf).edit.diffRanges| == |items|
      && (forall i :: 0 <= i < |items| ==>
            SortAndDiff(range, items, cmp, rangeOf).edit.diffRanges[i]
              == DiffRange(rangeOf(items[i]).value, rangeOf(sorted[i]).value))
  {
    SortPermutes(items, cmp);
  }

  /** Two items in the wrong order, both with ranges: the fix swaps their ranges. */
  lemma PairSwapped<T>(range: Range, x: T, y: T, cmp: (T, T) -> int, rangeOf: T -> Option<Range>)
    requires cmp(x, y) > 0 && x != y
    requires rangeOf(x).Some? && rangeOf(y).Some?
    ensures SortAndDiff(range, [x, y], cmp, rangeOf)
      == Report(Splice(range, [DiffRange(rangeOf(x).value, rangeOf(y).value), DiffRange(rangeOf(y).value, rangeOf(x).value)]))
  {
    SortSwapsPair(x, y, cmp);
    var pairs := DiffPairs([x, y], [y, x], rangeOf);
    assert pairs.Some?;
    assert pairs.value == [DiffRange(rangeOf(x).value, rangeOf(y).value), DiffRange(rangeOf(y).value, rangeOf(x).value)];
  }
}
