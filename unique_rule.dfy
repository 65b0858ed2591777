/**
  * The `unique` rule: an array literal under a `@unique` comment must not repeat an
  * element's source text; the fix keeps the first occurrence of each text.
  */
module UniqueRule {
  import opened Wrappers
  import opened Strings
  import opened Arrays
  import opened Ast
  import opened Config
  import opened Report

  const AnnotationName: String := "@unique"

  /**
    * `Array.from(new Set(keys))`: each distinct key once, where it first occurs. A
    * `Set` keeps insertion order and ignores a key it already holds.
    */
  function Dedupe(keys: seq<String>): (r: seq<String>)
    ensures |r| <= |keys|
    ensures forall x :: x in r <==> x in keys
    ensures NoDuplicates(r)
  {
    if |keys| == 0 then []
    else
      var kept := Dedupe(keys[..|keys| - 1]);
      var last := keys[|keys| - 1];
      assert forall x :: x in keys <==> x in keys[..|keys| - 1] || x == last by {
        assert keys == keys[..|keys| - 1] + [last];
      }
      if last in kept then kept else kept + [last]
  }

  /** The keys of `r` occur in `keys` in the order of their first occurrences there. */
  ghost predicate FirstOccurrenceOrder(r: seq<String>, keys: seq<String>)
    requires forall x :: x in r ==> x in keys
  {
    forall i, j :: 0 <= i < j < |r| ==> IndexOf(keys, r[i]) < IndexOf(keys, r[j])
  }

  /** Kept keys appear in the order of their first occurrences in the input. */
  lemma {:induction false} DedupeKeepsFirstOrder(keys: seq<String>)
    ensures FirstOccurrenceOrder(Dedupe(keys), keys)
  {
    if |keys| > 0 {
      var init := keys[..|keys| - 1];
      var last := keys[|keys| - 1];
      DedupeKeepsFirstOrder(init);
      var kept := Dedupe(init);
      assert FirstOccurrenceOrder(kept, init);
      var r := Dedupe(keys);
      assert keys == init + [last];
      forall x | x in init ensures IndexOf(keys, x) == IndexOf(init, x) {
        IndexOfPrefix(init, last, x);
      }
      if last !in kept {
        assert IndexOf(keys, last) == |init| by {
          assert keys[|init|] == last && keys[..|init|] == init;
          IndexOfFirst(keys, last, |init|);
        }
        assert r == kept + [last];
        forall i, j | 0 <= i < j < |r| ensures IndexOf(keys, r[i]) < IndexOf(keys, r[j]) {
          assert r[i] == kept[i] && kept[i] in init;
          if j < |kept| {
            assert r[j] == kept[j] && kept[j] in init;
            assert IndexOf(init, kept[i]) < IndexOf(init, kept[j]);
            assert IndexOf(keys, r[i]) == IndexOf(init, kept[i]);
            assert IndexOf(keys, r[j]) == IndexOf(init, kept[j]);
          } else {
            assert r[j] == last;
            assert IndexOf(keys, r[i]) == IndexOf(init, r[i]) < |init|;
          }
        }
      } else {
        forall i, j | 0 <= i < j < |r| ensures IndexOf(keys, r[i]) < IndexOf(keys, r[j]) {
          assert r[i] == kept[i] && kept[i] in init;
          assert r[j] == kept[j] && kept[j] in init;
        }
      }
    }
  }

  lemma {:induction false} IndexOfPrefix<T>(init: seq<T>, last: T, x: T)
    requires x in init
    ensures IndexOf(init + [last], x) == IndexOf(init, x)
  {
    if init[0] != x {
      assert (init + [last])[1..] == init[1..] + [last];
      IndexOfPrefix(init[1..], last, x);
    }
  }

  lemma IndexOfFirst<T>(xs: seq<T>, x: T, k: nat)
    requires k < |xs| && xs[k] == x && x !in xs[..k]
    ensures IndexOf(xs, x) == k
  {
  }

  /** The keys have no repeats exactly when deduplicating keeps all of them. */
  lemma {:induction false} DedupeKeepsAllIffDistinct(keys: seq<String>)
    ensures |Dedupe(keys)| == |keys| <==> NoDuplicates(keys)
  {
    if |keys| > 0 {
      var init := keys[..|keys| - 1];
      var last := keys[|keys| - 1];
      DedupeKeepsAllIffDistinct(init);
      assert keys == init + [last];
      if NoDuplicates(keys) {
        assert NoDuplicates(init);
        assert forall k :: 0 <= k < |init| ==> init[k] == keys[k] != keys[|keys| - 1];
      } else if NoDuplicates(init) {
        var i, j :| 0 <= i < j < |keys| && keys[i] == keys[j];
        assert j == |keys| - 1 && keys[i] in init;
      }
    }
  }

  /** Deduplicating twice changes nothing more. */
  lemma DedupeIdempotent(keys: seq<String>)
    ensures Dedupe(Dedupe(keys)) == Dedupe(keys)
  {
    DistinctDedupeIdentity(Dedupe(keys));
  }

  lemma {:induction false} DistinctDedupeIdentity(keys: seq<String>)
    requires NoDuplicates(keys)
    ensures Dedupe(keys) == keys
  {
    if |keys| > 0 {
      var init := keys[..|keys| - 1];
      assert NoDuplicates(init);
      DistinctDedupeIdentity(init);
      assert keys[|keys| - 1] !in init;
      assert keys == init + [keys[|keys| - 1]];
    }
  }

  /** `sourceCode.getText(element)`; a hole's text is `holeText`. */
  function KeyOf(e: ArrayElement, holeText: String): String {
    match e
    case None => holeText
    case Some(el) => el.text
  }

  function Keys(elements: seq<ArrayElement>, holeText: String): (keys: seq<String>)
    ensures |keys| == |elements| && forall i :: 0 <= i < |elements| ==> keys[i] == KeyOf(elements[i], holeText)
  {
    seq(|elements|, i requires 0 <= i < |elements| => KeyOf(elements[i], holeText))
  }

  /** The fix text: the kept keys joined by `", "` inside brackets. */
  function FixedArray(kept: seq<String>): (text: String)
    ensures |text| >= 2 && text[0] == '[' && text[|text| - 1] == ']'
    ensures text[1..|text| - 1] == Join(kept, ", ")
  {
    "[" + Join(kept, ", ") + "]"
  }

  /**
    * What the handler does given the directive found above the array: with one, it
    * reports iff some element text repeats, and the fix replaces the whole array with
    * the first occurrences.
    */
  function UniqueOutcome(config: Option<Config>, node: ArrayNode, holeText: String): (o: Outcome)
    ensures config.None? ==> o == NoReport
    ensures !o.TypeError?
    ensures config.Some? ==> (o.Report? <==> !NoDuplicates(Keys(node.elements, holeText)))
    ensures o.Report? ==> o.edit == Replace(node.range, FixedArray(Dedupe(Keys(node.elements, holeText))))
  {
    match config
    case None => NoReport
    case Some(_) =>
      var keys := Keys(node.elements, holeText);
      var kept := Dedupe(keys);
      DedupeKeepsAllIffDistinct(keys);
      if |node.elements| != |kept| then Report(Replace(node.range, FixedArray(kept))) else NoReport
  }

  /**
    * The `ArrayExpression` handler: it reports iff a `@unique` directive ends on the
    * line above the array and some element text repeats, and never throws.
    */
  function OnArrayExpression(comments: seq<Comment>, node: ArrayNode, holeText: String): (o: Outcome)
    ensures !o.TypeError?
    ensures GetConfig(comments, AnnotationName, node.line - 1).None? ==> o == NoReport
    ensures o.Report? <==> (GetConfig(comments, AnnotationName, node.line - 1).Some?
      && !NoDuplicates(Keys(node.elements, holeText)))
    ensures o.Report? ==> o.edit == Replace(node.range, FixedArray(Dedupe(Keys(node.elements, holeText))))
  {
    UniqueOutcome(GetConfig(comments, AnnotationName, node.line - 1), node, holeText)
  }

  lemma DedupeOne(k: String)
    ensures Dedupe([k]) == [k]
  {
    assert [k][..0] == [];
  }

  /** One step of `Dedupe`: the last key is kept iff it is new. */
  lemma DedupeStep(init: seq<String>, last: String, kept: seq<String>)
    requires Dedupe(init) == kept
    ensures Dedupe(init + [last]) == if last in kept then kept else kept + [last]
  {
    assert (init + [last])[..|init|] == init;
  }

  lemma DedupeDistinctPair(a: String, b: String)
    requires a != b
    ensures Dedupe([a, b]) == [a, b]
  {
    DedupeOne(a);
    DedupeStep([a], b, [a]);
    assert [a] + [b] == [a, b];
  }

  lemma DedupeRepeatedSecond(a: String, b: String)
    requires a != b
    ensures Dedupe([a, b, b]) == [a, b]
  {
    assert Dedupe([a, b] + [b]) == [a, b] by {
      DedupeDistinctPair(a, b);
      DedupeStep([a, b], b, [a, b]);
    }
    assert [a, b] + [b] == [a, b, b];
  }

  /** `[1, 2, 2, 4, 5]` under `@unique` becomes `[1, 2, 4, 5]`: for any four distinct texts, the repeat is dropped. */
  lemma RepeatedNumberRemoved(a: String, b: String, c: String, d: String)
    requires a != b && a != c && a != d && b != c && b != d && c != d
    ensures Dedupe([a, b, b, c, d]) == [a, b, c, d]
  {
    assert Dedupe([a, b, b] + [c]) == [a, b, c] by {
      DedupeRepeatedSecond(a, b);
      DedupeStep([a, b, b], c, [a, b]);
    }
    assert Dedupe([a, b, b, c] + [d]) == [a, b, c, d] by {
      assert [a, b, b] + [c] == [a, b, b, c];
      DedupeStep([a, b, b, c], d, [a, b, c]);
    }
    assert [a, b, b, c] + [d] == [a, b, b, c, d];
  }

  /** `["Alice", "Bob", "Alice"]` under `@unique` becomes `["Alice", "Bob"]`: for any two distinct texts. */
  lemma RepeatedNameRemoved(a: String, b: String)
    requires a != b
    ensures Dedupe([a, b, a]) == [a, b]
  {
    assert Dedupe([a, b] + [a]) == [a, b] by {
      DedupeDistinctPair(a, b);
      DedupeStep([a, b], a, [a, b]);
    }
    assert [a, b] + [a] == [a, b, a];
  }

  lemma RepeatedNumberFixText()
    ensures FixedArray(["1", "2", "4", "5"]) == "[1, 2, 4, 5]"
  {
    var kept: seq<String> := ["1", "2", "4", "5"];
    assert kept[1..] == ["2", "4", "5"] && kept[1..][1..] == ["4", "5"] && kept[1..][1..][1..] == ["5"];
  }

  /**
    * `[1, 2, , 1]` under `@unique` becomes `[1, 2, ]` when a hole's text is empty: for
    * any three distinct texts, the hole's text is kept and the repeat dropped.
    */
  lemma SparseRepeatRemoved(a: String, b: String, hole: String)
    requires a != b && a != hole && b != hole
    ensures Dedupe([a, b, hole, a]) == [a, b, hole]
  {
    assert Dedupe([a, b] + [hole]) == [a, b, hole] by {
      DedupeDistinctPair(a, b);
      DedupeStep([a, b], hole, [a, b]);
    }
    assert Dedupe([a, b, hole] + [a]) == [a, b, hole] by {
      assert [a, b] + [hole] == [a, b, hole];
      DedupeStep([a, b, hole], a, [a, b, hole]);
    }
    assert [a, b, hole] + [a] == [a, b, hole, a];
  }

  lemma SparseRepeatFixText()
    ensures FixedArray(["1", "2", ""]) == "[1, 2, ]"
  {
    var kept: seq<String> := ["1", "2", ""];
    assert kept[1..] == ["2", ""] && kept[1..][1..] == [""];
  }
}
