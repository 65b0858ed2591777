/**
  * The `sort` rule: an array literal under a `@sort` comment must list its elements
  * in array-comparer order (reversed under `@sort:reversed`).
  */
module SortRule {
  import opened Wrappers
  import opened Strings
  import opened Ast
  import opened Config
  import opened Comparer
  import opened StableSort
  import opened Report
  import opened SortDiff

  const AnnotationName: String := "@sort"

  /** `element.range`, which throws on a hole. */
  function ElementRange(e: ArrayElement): Option<Range> {
    match e
    case None => None
    case Some(el) => Some(el.range)
  }

  /**
    * What the handler does given the directive found above the array: without one,
    * nothing; with one, the sort-and-diff step under the array comparer, which throws
    * when the elements are out of order and one of them is a hole.
    */
  function SortOutcome(config: Option<Config>, node: ArrayNode): (o: Outcome)
    ensures config.None? ==> o == NoReport
    ensures config.Some? ==>
      var sorted := Sort(node.elements, MakeArrayValueComparer(config.value.isReversed));
      && (o.NoReport? <==> sorted == node.elements)
      && (o.TypeError? <==> sorted != node.elements && None in node.elements)
  {
    match config
    case None => NoReport
    case Some(c) =>
      var cmp := MakeArrayValueComparer(c.isReversed);
      HoleLacksRange(node.elements, cmp);
      SortAndDiff(node.range, node.elements, cmp, ElementRange)
  }

  /** Some slot of the array or of its sorted copy lacks a range iff the array has a hole. */
  lemma HoleLacksRange(items: seq<ArrayElement>, cmp: (ArrayElement, ArrayElement) -> int)
    ensures var sorted := Sort(items, cmp);
      (exists i :: 0 <= i < |items| && (ElementRange(items[i]).None? || ElementRange(sorted[i]).None?))
        <==> None in items
  {
    var sorted := Sort(items, cmp);
    assert None in items <==> None in sorted by {
      SortPermutes(items, cmp);
      assert None in items <==> None in multiset(items);
      assert None in sorted <==> None in multiset(sorted);
    }
    if None in items {
      var i :| 0 <= i < |items| && items[i] == None;
      assert ElementRange(items[i]).None?;
    }
  }

  /** The `ArrayExpression` handler. */
  method OnArrayExpression(comments: seq<Comment>, node: ArrayNode) returns (o: Outcome)
    ensures o == SortOutcome(GetConfig(comments, AnnotationName, node.line - 1), node)
  {
    var config := GetConfig(comments, AnnotationName, node.line - 1);
    if config.None? {
      return NoReport;
    }
    o := CheckAndReport(node.range, node.elements, MakeArrayValueComparer(config.value.isReversed), ElementRange);
  }

  /** Every two elements of the array are comparable (no holes, no two different rank-3 types). */
  ghost predicate AllComparable(elements: seq<ArrayElement>) {
    forall a, b :: a in elements && b in elements ==> Comparable(a, b)
  }

  /** On comparable elements both array comparers are total preorders. */
  lemma ArrayComparerPreorder(elements: seq<ArrayElement>, isReversed: bool)
    requires AllComparable(elements)
    ensures TotalPreorderOn(elements, MakeArrayValueComparer(isReversed))
  {
    var cmp := MakeArrayValueComparer(isReversed);
    forall a, b | a in elements && b in elements
      ensures cmp(a, b) <= 0 || cmp(b, a) <= 0
    {
      ArrayValueCompareAntisymmetric(a, b);
    }
    forall a, b, c | a in elements && b in elements && c in elements && cmp(a, b) <= 0 && cmp(b, c) <= 0
      ensures cmp(a, c) <= 0
    {
      if isReversed {
        ArrayValueCompareAntisymmetric(a, b);
        ArrayValueCompareAntisymmetric(b, c);
        ArrayValueCompareAntisymmetric(a, c);
        ArrayValueCompareTransitive(c, b, a);
      } else {
        ArrayValueCompareTransitive(a, b, c);
      }
    }
  }

  /** When every two elements are comparable, an array the rule leaves alone is in order. */
  lemma QuietArrayIsSorted(config: Config, node: ArrayNode)
    requires AllComparable(node.elements)
    requires SortOutcome(Some(config), node) == NoReport
    ensures SortedBy(node.elements, MakeArrayValueComparer(config.isReversed))
  {
    ArrayComparerPreorder(node.elements, config.isReversed);
    QuietMeansSorted(node.range, node.elements, MakeArrayValueComparer(config.isReversed), ElementRange);
  }

  /** An array already in order, forward or reversed, is never reported. */
  lemma SortedArrayQuiet(config: Config, node: ArrayNode)
    requires AdjacentSorted(node.elements, MakeArrayValueComparer(config.isReversed))
    ensures SortOutcome(Some(config), node) == NoReport
  {
    SortedInputQuiet(node.range, node.elements, MakeArrayValueComparer(config.isReversed), ElementRange);
  }

  /**
    * For comparable elements no two of which tie, `@sort:reversed` yields exactly
    * the reverse of what `@sort` yields.
    */
  lemma ReversedArrayMirrors(elements: seq<ArrayElement>)
    requires AllComparable(elements)
    requires StrictOn(elements, ArrayValueCompare)
    ensures Sort(elements, MakeArrayValueComparer(true)) == Reversed(Sort(elements, MakeArrayValueComparer(false)))
  {
    ArrayComparerPreorder(elements, false);
    forall x, y ensures ArrayValueCompare(x, y) == -ArrayValueCompare(y, x) {
      ArrayValueCompareAntisymmetric(x, y);
    }
    ReversedSort(elements, ArrayValueCompare, MakeArrayValueComparer(true));
  }

  /**
    * The kinds of a mixed array in forward order: booleans, numbers, bigints,
    * strings, identifiers, member expressions; `-1` for any other element.
    */
  function KindIndex(e: ArrayElement): int {
    match e
    case None => -1
    case Some(el) =>
      match el.shape
      case LiteralNode(BooleanValue(_)) => 0
      case LiteralNode(NumberValue(_)) => 1
      case LiteralNode(BigIntValue(_)) => 2
      case LiteralNode(StringValue(_)) => 3
      case LiteralNode(_) => -1
      case NonLiteralNode(Identifier) => 4
      case NonLiteralNode(MemberExpression) => 5
      case NonLiteralNode(_) => -1
  }

  /** An element of an earlier kind always comes first in forward order. */
  lemma MixedKindOrder(a: ArrayElement, b: ArrayElement)
    requires 0 <= KindIndex(a) < KindIndex(b)
    ensures ArrayValueCompare(a, b) < 0
    ensures MakeArrayValueComparer(true)(b, a) < 0
  {
    ArrayValueCompareAntisymmetric(a, b);
    var x, y := a.value, b.value;
    if x.shape.LiteralNode? && y.shape.LiteralNode? {
      LiteralRanks(x.shape.value);
      LiteralRanks(y.shape.value);
    } else {
      assert x.Type() != y.Type();
      AstNodeTypeRanks(x.Type());
      AstNodeTypeRanks(y.Type());
    }
  }

  /** Two elements out of order under the directive are reported, and the fix swaps their ranges. */
  lemma OutOfOrderPairSwapped(config: Config, node: ArrayNode, a: Element, b: Element)
    requires node.elements == [Some(a), Some(b)]
    requires MakeArrayValueComparer(config.isReversed)(Some(a), Some(b)) > 0
    ensures SortOutcome(Some(config), node) == Report(Splice(node.range, [DiffRange(a.range, b.range), DiffRange(b.range, a.range)]))
  {
    assert a != b by {
      ArrayValueCompareAntisymmetric(Some(a), Some(a));
    }
    PairSwapped(node.range, Some(a), Some(b), MakeArrayValueComparer(config.isReversed), ElementRange);
  }

  /** `// @sort` above `[2, 1]`: the two slots swap ranges. */
  lemma TwoOneReported(r: Range, r2: Range, r1: Range)
    ensures var two := Element(0, LiteralNode(NumberValue(2)), r2, "2");
      var one := Element(1, LiteralNode(NumberValue(1)), r1, "1");
      SortOutcome(Some(Config(None, false, 1)), ArrayNode(r, 1, [Some(two), Some(one)]))
        == Report(Splice(r, [DiffRange(r2, r1), DiffRange(r1, r2)]))
  {
    var two := Element(0, LiteralNode(NumberValue(2)), r2, "2");
    var one := Element(1, LiteralNode(NumberValue(1)), r1, "1");
    assert MakeArrayValueComparer(false)(Some(two), Some(one)) > 0;
    OutOfOrderPairSwapped(Config(None, false, 1), ArrayNode(r, 1, [Some(two), Some(one)]), two, one);
  }
}
