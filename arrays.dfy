/** The JavaScript array built-ins the rules use (`find`, `indexOf`, `includes`), over sequences. */
module Arrays {
  import opened Wrappers

  /** `xs.findIndex(p)`, with `None` for -1. */
  function FindIndex<T>(xs: seq<T>, p: T -> bool): (r: Option<nat>)
    ensures r.Some? ==> r.value < |xs| && p(xs[r.value])
    ensures r.Some? ==> forall j :: 0 <= j < r.value ==> !p(xs[j])
    ensures r.None? <==> forall j :: 0 <= j < |xs| ==> !p(xs[j])
  {
    if |xs| == 0 then None
    else if p(xs[0]) then Some(0)
    else
      match FindIndex(xs[1..], p)
      case None => None
      case Some(k) => Some(k + 1)
  }

  /** `xs.find(p)`: the first element satisfying `p`, if any. */
  function Find<T>(xs: seq<T>, p: T -> bool): (r: Option<T>)
    ensures r.None? <==> forall j :: 0 <= j < |xs| ==> !p(xs[j])
    ensures r.Some? ==> exists k :: 0 <= k < |xs| && xs[k] == r.value && p(xs[k]) && forall j :: 0 <= j < k ==> !p(xs[j])
  {
    match FindIndex(xs, p)
    case None => None
    case Some(k) => Some(xs[k])
  }

  /** The first element satisfying `p` is what `find` returns. */
  lemma FindFirst<T>(xs: seq<T>, p: T -> bool, k: nat)
    requires k < |xs| && p(xs[k])
    requires forall j :: 0 <= j < k ==> !p(xs[j])
    ensures FindIndex(xs, p) == Some(k)
    ensures Find(xs, p) == Some(xs[k])
  {
    var r := FindIndex(xs, p);
    assert r.Some?;
  }

  /** `xs.indexOf(x)` for an `x` that occurs in `xs`. */
  function IndexOf<T(==)>(xs: seq<T>, x: T): (k: nat)
    requires x in xs
    ensures k < |xs| && xs[k] == x && x !in xs[..k]
  {
    if xs[0] == x then 0 else IndexOf(xs[1..], x) + 1
  }

  /** The number of elements of `xs` satisfying `p`. */
  function Count<T>(xs: seq<T>, p: T -> bool): (n: nat)
    ensures n <= |xs|
    ensures n == 0 <==> forall j :: 0 <= j < |xs| ==> !p(xs[j])
  {
    if |xs| == 0 then 0
    else Count(xs[..|xs| - 1], p) + (if p(xs[|xs| - 1]) then 1 else 0)
  }

  /** Counting distributes over concatenation. */
  lemma {:induction false} CountAppend<T>(xs: seq<T>, ys: seq<T>, p: T -> bool)
    ensures Count(xs + ys, p) == Count(xs, p) + Count(ys, p)
  {
    if |ys| > 0 {
      var init := ys[..|ys| - 1];
      CountAppend(xs, init, p);
      assert (xs + ys)[..|xs + ys| - 1] == xs + init;
    } else {
      assert xs + ys == xs;
    }
  }

  /** Counting one more element of a prefix. */
  lemma CountStep<T>(xs: seq<T>, p: T -> bool, i: nat)
    requires i < |xs|
    ensures Count(xs[..i + 1], p) == Count(xs[..i], p) + (if p(xs[i]) then 1 else 0)
  {
    assert xs[..i + 1][..i] == xs[..i];
  }

  predicate NoDuplicates<T(==)>(s: seq<T>) {
    forall i, j :: 0 <= i < j < |s| ==> s[i] != s[j]
  }
}
