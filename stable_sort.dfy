/**
  * `Array.prototype.sort(cmp)` on a copy of a list: a stable insertion sort. `Sort`
  * is the specification; `SortCopy` sorts a fresh array in place the way the rules
  * sort `[...items]`.
  */
module StableSort {

  /**
    * Inserts `x` after the last element of `sorted` that `cmp` does not put after
    * `x`, walking from the right, so equal elements keep their order.
    */
  function Insert<T>(sorted: seq<T>, x: T, cmp: (T, T) -> int): (r: seq<T>)
    ensures |r| == |sorted| + 1
  {
    if |sorted| == 0 || cmp(sorted[|sorted| - 1], x) <= 0 then sorted + [x]
    else
      Insert(sorted[..|sorted| - 1], x, cmp) + [sorted[|sorted| - 1]]
  }

  /** The list sorted by `cmp`: a permutation of `s`. */
  function Sort<T>(s: seq<T>, cmp: (T, T) -> int): (r: seq<T>)
    ensures |r| == |s|
  {
    if |s| == 0 then []
    else
      Insert(Sort(s[..|s| - 1], cmp), s[|s| - 1], cmp)
  }

  /** `Insert` adds exactly `x` to the elements. */
  lemma {:induction false} InsertPermutes<T>(sorted: seq<T>, x: T, cmp: (T, T) -> int)
    ensures multiset(Insert(sorted, x, cmp)) == multiset(sorted) + multiset{x}
  {
    var n := |sorted|;
    if n > 0 && cmp(sorted[n - 1], x) > 0 {
      InsertPermutes(sorted[..n - 1], x, cmp);
      assert sorted == sorted[..n - 1] + [sorted[n - 1]];
    }
  }

  /** The sorted list is a permutation of the input, whatever `cmp` is. */
  lemma {:induction false} SortPermutes<T>(s: seq<T>, cmp: (T, T) -> int)
    ensures multiset(Sort(s, cmp)) == multiset(s)
  {
    if |s| > 0 {
      var init := s[..|s| - 1];
      SortPermutes(init, cmp);
      InsertPermutes(Sort(init, cmp), s[|s| - 1], cmp);
      assert s == init + [s[|s| - 1]];
    }
  }

  /** Every earlier element compares at most 0 against every later one. */
  ghost predicate SortedBy<T>(s: seq<T>, cmp: (T, T) -> int) {
    forall i, j :: 0 <= i < j < |s| ==> cmp(s[i], s[j]) <= 0
  }

  /** Every element compares at most 0 against the next one. */
  ghost predicate AdjacentSorted<T>(s: seq<T>, cmp: (T, T) -> int) {
    forall i :: 0 < i < |s| ==> cmp(s[i - 1], s[i]) <= 0
  }

  /** `cmp(a, b) <= 0` is a total preorder on the elements of `s`. */
  ghost predicate TotalPreorderOn<T>(s: seq<T>, cmp: (T, T) -> int) {
    && (forall a, b :: a in s && b in s ==> cmp(a, b) <= 0 || cmp(b, a) <= 0)
    && (forall a, b, c :: a in s && b in s && c in s && cmp(a, b) <= 0 && cmp(b, c) <= 0 ==> cmp(a, c) <= 0)
  }

  /** One step of `Insert`: the last element compares greater, so it moves right. */
  lemma InsertPast<T>(p: seq<T>, x: T, cmp: (T, T) -> int)
    requires |p| > 0 && cmp(p[|p| - 1], x) > 0
    ensures Insert(p, x, cmp) == Insert(p[..|p| - 1], x, cmp) + [p[|p| - 1]]
  {
  }

  /** `Insert` stops at the right end when the last element does not compare greater. */
  lemma InsertStop<T>(p: seq<T>, x: T, cmp: (T, T) -> int)
    requires |p| == 0 || cmp(p[|p| - 1], x) <= 0
    ensures Insert(p, x, cmp) == p + [x]
  {
  }

  /** Two elements the comparator puts the other way round are swapped. */
  lemma SortSwapsPair<T>(x: T, y: T, cmp: (T, T) -> int)
    requires cmp(x, y) > 0
    ensures Sort([x, y], cmp) == [y, x]
  {
    assert [x, y][..1] == [x];
    assert [x][..0] == [];
    assert Sort([x], cmp) == [x];
    InsertPast([x], y, cmp);
    InsertStop([], y, cmp);
  }

  /**
    * Moves `a[i]` left past the elements of the sorted prefix `a[..i]` that compare
    * greater than it.
    */
  method InsertAt<T>(a: array<T>, i: nat, cmp: (T, T) -> int)
    requires i < a.Length
    modifies a
    ensures a[..i + 1] == Insert(old(a[..i]), old(a[i]), cmp)
    ensures a[i + 1..] == old(a[i + 1..])
  {
    ghost var done, rest := a[..i], a[i + 1..];
    var x := a[i];
    var j := i;
    assert done[..j] == done && done[j..] == [];
    assert a[..] == done[..j] + [a[j]] + done[j..] + rest;
    while j > 0 && cmp(a[j - 1], x) > 0
      invariant 0 <= j <= i
      invariant a[..] == done[..j] + [a[j]] + done[j..] + rest
      invariant Insert(done, x, cmp) == Insert(done[..j], x, cmp) + done[j..]
    {
      ghost var before := a[..];
      assert before[j - 1] == done[j - 1];
      InsertShift(done, x, cmp, j);
      a[j] := a[j - 1];
      assert a[..] == before[j := before[j - 1]];
      ShiftRight(done, rest, j, before[j]);
      j := j - 1;
    }
    InsertStop(done[..j], x, cmp);
    ghost var before := a[..];
    a[j] := x;
    assert a[..] == before[j := x];
    Placed(done, rest, j, before[j], x);
  }

  /** `Insert` moves `x` past `done[j - 1]` when that element compares greater. */
  lemma InsertShift<T>(done: seq<T>, x: T, cmp: (T, T) -> int, j: nat)
    requires 0 < j <= |done| && cmp(done[j - 1], x) > 0
    ensures Insert(done[..j], x, cmp) + done[j..] == Insert(done[..j - 1], x, cmp) + done[j - 1..]
  {
    InsertPast(done[..j], x, cmp);
    assert done[..j][..j - 1] == done[..j - 1];
    assert done[j - 1..] == [done[j - 1]] + done[j..];
  }

  /** Copying slot `j - 1` over the gap at `j` moves the gap one slot left. */
  lemma ShiftRight<T>(done: seq<T>, rest: seq<T>, j: nat, gap: T)
    requires 0 < j <= |done|
    ensures var s := done[..j] + [gap] + done[j..] + rest;
      s[j := s[j - 1]] == done[..j - 1] + [done[j - 1]] + done[j - 1..] + rest
  {
    var s := done[..j] + [gap] + done[j..] + rest;
    assert done[..j] == done[..j - 1] + [done[j - 1]];
    assert done[j - 1..] == [done[j - 1]] + done[j..];
    assert s[j := s[j - 1]] == done[..j - 1] + [done[j - 1]] + [done[j - 1]] + done[j..] + rest;
  }

  /** Filling the gap with `x`: the first `|done| + 1` slots hold `done[..j] + [x] + done[j..]`. */
  lemma Placed<T>(done: seq<T>, rest: seq<T>, j: nat, gap: T, x: T)
    requires j <= |done|
    ensures var s := (done[..j] + [gap] + done[j..] + rest)[j := x];
      s[..|done| + 1] == done[..j] + [x] + done[j..] && s[|done| + 1..] == rest
  {
    var s := (done[..j] + [gap] + done[j..] + rest)[j := x];
    assert s == done[..j] + [x] + done[j..] + rest;
  }

  /**
    * Sorting an array copy in place: each element in turn is moved left past the
    * sorted elements that compare greater than it.
    */
  method SortCopy<T>(items: seq<T>, cmp: (T, T) -> int) returns (sorted: seq<T>)
    ensures sorted == Sort(items, cmp)
  {
    var a := new T[|items|](k requires 0 <= k < |items| => items[k]);
    var i := 0;
    while i < a.Length
      invariant 0 <= i <= a.Length
      invariant a[..i] == Sort(items[..i], cmp)
      invariant a[i..] == items[i..]
    {
      assert a[i] == items[i];
      InsertAt(a, i, cmp);
      assert items[..i + 1][..i] == items[..i];
      i := i + 1;
    }
    assert items[..a.Length] == items;
    sorted := a[..];
  }

  /** Sorting a list that is already in order returns it unchanged. */
  lemma {:induction false} SortOfSorted<T>(s: seq<T>, cmp: (T, T) -> int)
    requires AdjacentSorted(s, cmp)
    ensures Sort(s, cmp) == s
  {
    if |s| > 0 {
      var init := s[..|s| - 1];
      assert AdjacentSorted(init, cmp);
      SortOfSorted(init, cmp);
      assert s == init + [s[|s| - 1]];
    }
  }

  /** Appending an element that no element of a sorted list exceeds keeps it sorted. */
  lemma AppendSorted<T>(s: seq<T>, x: T, cmp: (T, T) -> int)
    requires SortedBy(s, cmp)
    requires forall e :: e in s ==> cmp(e, x) <= 0
    ensures SortedBy(s + [x], cmp)
  {
    var r := s + [x];
    forall i, j | 0 <= i < j < |r| ensures cmp(r[i], r[j]) <= 0 {
      if j == |s| {
        assert r[i] in s;
      }
    }
  }

  lemma {:induction false} InsertSorted<T>(s: seq<T>, x: T, cmp: (T, T) -> int, dom: seq<T>)
    requires SortedBy(s, cmp)
    requires TotalPreorderOn(dom, cmp)
    requires x in dom && forall e :: e in s ==> e in dom
    ensures SortedBy(Insert(s, x, cmp), cmp)
  {
    var n := |s|;
    if n == 0 {
    } else if cmp(s[n - 1], x) <= 0 {
      forall e | e in s ensures cmp(e, x) <= 0 {
        var k :| 0 <= k < n && s[k] == e;
        assert s[n - 1] in dom;
      }
      AppendSorted(s, x, cmp);
    } else {
      var init := s[..n - 1];
      var last := s[n - 1];
      InsertSorted(init, x, cmp, dom);
      var ins := Insert(init, x, cmp);
      InsertPermutes(init, x, cmp);
      assert last in dom;
      forall e | e in ins ensures cmp(e, last) <= 0 {
        assert e in multiset(ins);
        if e != x {
          assert e in multiset(init);
          var k :| 0 <= k < |init| && init[k] == e;
          assert s[k] == e;
        }
      }
      AppendSorted(ins, last, cmp);
    }
  }

  /** When `cmp` is a total preorder on the elements, the result is in order. */
  lemma {:induction false} SortSorted<T>(s: seq<T>, cmp: (T, T) -> int, dom: seq<T>)
    requires TotalPreorderOn(dom, cmp)
    requires forall e :: e in s ==> e in dom
    ensures SortedBy(Sort(s, cmp), cmp)
  {
    if |s| > 0 {
      var init := s[..|s| - 1];
      assert forall e :: e in init ==> e in s;
      SortSorted(init, cmp, dom);
      var sorted := Sort(init, cmp);
      SortPermutes(init, cmp);
      forall e | e in sorted ensures e in dom {
        assert e in multiset(init);
      }
      InsertSorted(sorted, s[|s| - 1], cmp, dom);
    }
  }

  /** The list read back to front. */
  function Reversed<T>(s: seq<T>): (r: seq<T>)
    ensures |r| == |s|
    ensures forall i :: 0 <= i < |s| ==> r[i] == s[|s| - 1 - i]
  {
    if |s| == 0 then [] else [s[|s| - 1]] + Reversed(s[..|s| - 1])
  }

  lemma {:induction false} ReversePermutes<T>(s: seq<T>)
    ensures multiset(Reversed(s)) == multiset(s)
  {
    if |s| > 0 {
      ReversePermutes(s[..|s| - 1]);
      assert s == s[..|s| - 1] + [s[|s| - 1]];
    }
  }

  /** `cmp` puts no two distinct elements of `s` at the same place. */
  ghost predicate StrictOn<T>(s: seq<T>, cmp: (T, T) -> int) {
    forall x, y :: x in s && y in s && cmp(x, y) <= 0 && cmp(y, x) <= 0 ==> x == y
  }

  /** Two nonempty lists in order with the same elements end with the same element. */
  lemma SortedPermutationsLast<T>(a: seq<T>, b: seq<T>, cmp: (T, T) -> int)
    requires SortedBy(a, cmp) && SortedBy(b, cmp)
    requires multiset(a) == multiset(b)
    requires StrictOn(a, cmp)
    requires |a| == |b| > 0
    ensures a[|a| - 1] == b[|b| - 1]
  {
    var n := |a|;
    var la, lb := a[n - 1], b[n - 1];
    assert lb in multiset(a) && la in multiset(b);
    var k :| 0 <= k < n && a[k] == lb;
    var m :| 0 <= m < n && b[m] == la;
    assert k == n - 1 || cmp(lb, la) <= 0;
    assert m == n - 1 || cmp(la, lb) <= 0;
    assert la in a && lb in a;
  }

  lemma DropLast<T>(a: seq<T>)
    requires |a| > 0
    ensures multiset(a[..|a| - 1]) == multiset(a) - multiset{a[|a| - 1]}
  {
    assert a == a[..|a| - 1] + [a[|a| - 1]];
  }

  lemma SortedPrefix<T>(a: seq<T>, cmp: (T, T) -> int)
    requires |a| > 0 && SortedBy(a, cmp)
    ensures SortedBy(a[..|a| - 1], cmp)
  {
  }

  lemma StrictPrefix<T>(a: seq<T>, cmp: (T, T) -> int)
    requires |a| > 0 && StrictOn(a, cmp)
    ensures StrictOn(a[..|a| - 1], cmp)
  {
    assert forall e :: e in a[..|a| - 1] ==> e in a;
  }

  /** Two lists in order that hold the same elements are equal when `cmp` has no ties. */
  lemma {:induction false} SortedPermutationsEqual<T>(a: seq<T>, b: seq<T>, cmp: (T, T) -> int)
    requires SortedBy(a, cmp) && SortedBy(b, cmp)
    requires multiset(a) == multiset(b)
    requires StrictOn(a, cmp)
    ensures a == b
  {
    assert |a| == |b| by {
      assert |a| == |multiset(a)| == |b|;
    }
    if |a| > 0 {
      var n := |a|;
      var a', b' := a[..n - 1], b[..n - 1];
      assert a[n - 1] == b[n - 1] by {
        SortedPermutationsLast(a, b, cmp);
      }
      assert multiset(a') == multiset(b') by {
        DropLast(a);
        DropLast(b);
      }
      assert SortedBy(a', cmp) && SortedBy(b', cmp) by {
        SortedPrefix(a, cmp);
        SortedPrefix(b, cmp);
      }
      assert StrictOn(a', cmp) by {
        StrictPrefix(a, cmp);
      }
      SortedPermutationsEqual(a', b', cmp);
      calc {
        a;
        a[..n - 1] + [a[n - 1]];
        b[..n - 1] + [b[n - 1]];
        b;
      }
    }
  }

  /**
    * Sorting with the negated comparator gives the sorted list back to front, when
    * `cmp` is antisymmetric, orders the elements totally and has no ties among them.
    */
  lemma ReversedSort<T>(s: seq<T>, cmp: (T, T) -> int, rev: (T, T) -> int)
    requires forall x, y :: rev(x, y) == -cmp(x, y)
    requires forall x, y :: cmp(x, y) == -cmp(y, x)
    requires TotalPreorderOn(s, cmp) && StrictOn(s, cmp)
    ensures Sort(s, rev) == Reversed(Sort(s, cmp))
  {
    var up := Sort(s, cmp);
    var down := Sort(s, rev);
    var r := Reversed(up);
    assert multiset(down) == multiset(r) by {
      SortPermutes(s, cmp);
      SortPermutes(s, rev);
      ReversePermutes(up);
    }
    assert SortedBy(down, rev) by {
      assert TotalPreorderOn(s, rev);
      SortSorted(s, rev, s);
    }
    assert SortedBy(r, rev) by {
      SortSorted(s, cmp, s);
      ReversedSortedBy(up, cmp, rev);
    }
    assert StrictOn(down, rev) by {
      SortPermutes(s, rev);
      forall e | e in down ensures e in s {
        assert e in multiset(down);
      }
    }
    SortedPermutationsEqual(down, r, rev);
  }

  /** A list in order under `cmp`, read back to front, is in order under the negated comparator. */
  lemma ReversedSortedBy<T>(up: seq<T>, cmp: (T, T) -> int, rev: (T, T) -> int)
    requires forall x, y :: rev(x, y) == -cmp(x, y)
    requires forall x, y :: cmp(x, y) == -cmp(y, x)
    requires SortedBy(up, cmp)
    ensures SortedBy(Reversed(up), rev)
  {
    var r := Reversed(up);
    forall i, j | 0 <= i < j < |r| ensures rev(r[i], r[j]) <= 0 {
      assert cmp(up[|up| - 1 - j], up[|up| - 1 - i]) <= 0;
    }
  }

}
