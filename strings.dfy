/** The JavaScript string operations the rules rely on, over `seq<char>`. */
module Strings {
  type String = seq<char>

  /**
    * JavaScript `a < b` on strings: the first differing character decides,
    * and a proper prefix is smaller than the longer string.
    */
  predicate Less(a: String, b: String)
    ensures StartsWith(b, a) ==> (Less(a, b) <==> |a| < |b|)
    decreases |a|
  {
    if |a| == 0 then |b| > 0
    else if |b| == 0 then false
    else if a[0] != b[0] then a[0] < b[0]
    else
      assert StartsWith(b, a) ==> StartsWith(b[1..], a[1..]) by {
        if StartsWith(b, a) {
          assert b[1..][..|a| - 1] == b[..|a|][1..];
        }
      }
      Less(a[1..], b[1..])
  }

  /** The first position where two strings differ decides `<`. */
  lemma {:induction false} LessAtFirstDifference(a: String, b: String, k: nat)
    requires k < |a| && k < |b| && a[..k] == b[..k] && a[k] != b[k]
    ensures Less(a, b) <==> a[k] < b[k]
  {
    if k > 0 {
      assert a[0] == a[..k][0] && b[0] == b[..k][0];
      assert a[1..][..k - 1] == a[..k][1..] && b[1..][..k - 1] == b[..k][1..];
      LessAtFirstDifference(a[1..], b[1..], k - 1);
    }
  }

  lemma {:induction false} LessIrreflexive(a: String)
    ensures !Less(a, a)
  {
    if |a| > 0 {
      LessIrreflexive(a[1..]);
    }
  }

  lemma {:induction false} LessAsymmetric(a: String, b: String)
    ensures Less(a, b) ==> !Less(b, a)
  {
    if |a| > 0 && |b| > 0 && a[0] == b[0] {
      LessAsymmetric(a[1..], b[1..]);
    }
  }

  /** Two different strings are always ordered one way or the other. */
  lemma {:induction false} LessTotal(a: String, b: String)
    ensures a != b ==> Less(a, b) || Less(b, a)
  {
    if |a| > 0 && |b| > 0 && a[0] == b[0] {
      assert a == [a[0]] + a[1..] && b == [b[0]] + b[1..];
      LessTotal(a[1..], b[1..]);
    }
  }

  lemma {:induction false} LessTransitive(a: String, b: String, c: String)
    requires Less(a, b) && Less(b, c)
    ensures Less(a, c)
  {
    if |a| > 0 && a[0] == b[0] && b[0] == c[0] {
      LessTransitive(a[1..], b[1..], c[1..]);
    }
  }

  /** The three-way comparison `l === r ? 0 : l < r ? -1 : 1` that every comparer uses on names. */
  function Compare(l: String, r: String): (c: int)
    ensures -1 <= c <= 1
    ensures c == 0 <==> l == r
    ensures c < 0 <==> Less(l, r)
    ensures c > 0 <==> Less(r, l)
  {
    LessIrreflexive(l);
    LessAsymmetric(l, r);
    LessTotal(l, r);
    if l == r then 0 else if Less(l, r) then -1 else 1
  }

  lemma CompareTransitive(a: String, b: String, c: String)
    requires Compare(a, b) <= 0 && Compare(b, c) <= 0
    ensures Compare(a, c) <= 0
  {
    if a != b && b != c {
      LessTransitive(a, b, c);
    }
  }

  /** `s.startsWith(prefix)` */
  predicate StartsWith(s: String, prefix: String) {
    |prefix| <= |s| && s[..|prefix|] == prefix
  }

  /**
    * `s.indexOf(c, from)` for a one-character search string: the first index at
    * or after `from` (clamped to 0) holding `c`, or -1.
    */
  function IndexOfChar(s: String, c: char, from: int): (k: int)
    ensures k == -1 || (0 <= k < |s| && from <= k && s[k] == c)
    ensures k == -1 ==> forall i :: 0 <= i < |s| && from <= i ==> s[i] != c
    ensures k != -1 ==> forall i :: 0 <= i < k && from <= i ==> s[i] != c
    decreases |s| - from
  {
    if from < 0 then IndexOfChar(s, c, 0)
    else if from >= |s| then -1
    else if s[from] == c then from
    else IndexOfChar(s, c, from + 1)
  }

  /** True iff `pat` occurs in `s` starting at index `k`. */
  predicate OccursAt(s: String, pat: String, k: nat) {
    k + |pat| <= |s| && s[k..k + |pat|] == pat
  }

  /** The first index at or after `from` where `pat` occurs in `s`, or -1. */
  function IndexOfString(s: String, pat: String, from: nat): (k: int)
    ensures k == -1 || (from <= k && OccursAt(s, pat, k))
    ensures k == -1 ==> forall i :: from <= i <= |s| ==> !OccursAt(s, pat, i)
    ensures k != -1 ==> forall i :: from <= i < k ==> !OccursAt(s, pat, i)
    decreases |s| - from
  {
    if from + |pat| > |s| then -1
    else if s[from..from + |pat|] == pat then from
    else IndexOfString(s, pat, from + 1)
  }

  /** The characters `String.prototype.trim` removes: WhiteSpace and LineTerminator. */
  predicate IsWhitespace(c: char) {
    || c == '\t' || c == '\n' || c == '\U{000B}' || c == '\U{000C}' || c == '\r' || c == ' '
    || c == '\U{00A0}' || c == '\U{1680}' || ('\U{2000}' <= c <= '\U{200A}')
    || c == '\U{2028}' || c == '\U{2029}' || c == '\U{202F}' || c == '\U{205F}'
    || c == '\U{3000}' || c == '\U{FEFF}'
  }

  predicate AllWhitespace(s: String) {
    forall i :: 0 <= i < |s| ==> IsWhitespace(s[i])
  }

  function TrimStart(s: String): (r: String)
    ensures |r| <= |s| && r == s[|s| - |r|..]
    ensures forall i :: 0 <= i < |s| - |r| ==> IsWhitespace(s[i])
    ensures |r| > 0 ==> !IsWhitespace(r[0])
  {
    if |s| > 0 && IsWhitespace(s[0]) then TrimStart(s[1..]) else s
  }

  function TrimEnd(s: String): (r: String)
    ensures |r| <= |s| && r == s[..|r|]
    ensures forall i :: |r| <= i < |s| ==> IsWhitespace(s[i])
    ensures |r| > 0 ==> !IsWhitespace(r[|r| - 1])
  {
    if |s| > 0 && IsWhitespace(s[|s| - 1]) then TrimEnd(s[..|s| - 1]) else s
  }

  /** `s.trim()`: the middle of `s` with surrounding whitespace removed. */
  function Trim(s: String): (r: String)
    ensures |r| == 0 || (!IsWhitespace(r[0]) && !IsWhitespace(r[|r| - 1]))
  {
    TrimEnd(TrimStart(s))
  }

  /** Surrounding whitespace never reaches the trimmed text. */
  lemma {:induction false} TrimPadded(pre: String, core: String, post: String)
    requires AllWhitespace(pre) && AllWhitespace(post)
    requires |core| > 0 ==> !IsWhitespace(core[0]) && !IsWhitespace(core[|core| - 1])
    ensures Trim(pre + core + post) == core
  {
    if |core| == 0 {
      assert pre + core + post == pre + post;
    } else {
      assert pre + core + post == pre + (core + post);
      TrimStartPadded(pre, core + post);
      TrimEndPadded(core, post);
    }
  }

  lemma {:induction false} TrimStartPadded(pre: String, rest: String)
    requires AllWhitespace(pre)
    requires |rest| > 0 ==> !IsWhitespace(rest[0])
    ensures TrimStart(pre + rest) == rest
  {
    if |pre| > 0 {
      assert (pre + rest)[1..] == pre[1..] + rest;
      TrimStartPadded(pre[1..], rest);
    } else {
      assert pre + rest == rest;
    }
  }

  lemma {:induction false} TrimEndPadded(rest: String, post: String)
    requires AllWhitespace(post)
    requires |rest| > 0 ==> !IsWhitespace(rest[|rest| - 1])
    ensures TrimEnd(rest + post) == rest
  {
    if |post| > 0 {
      assert (rest + post)[..|rest + post| - 1] == rest + post[..|post| - 1];
      TrimEndPadded(rest, post[..|post| - 1]);
    } else {
      assert rest + post == rest;
    }
  }

  /** `s.split(sep)` for a one-character separator; the empty string splits into `[""]`. */
  function Split(s: String, sep: char): (parts: seq<String>)
    ensures |parts| >= 1
    ensures forall i :: 0 <= i < |parts| ==> sep !in parts[i]
    decreases |s|
  {
    if |s| == 0 then [""]
    else
      var rest := Split(s[1..], sep);
      if s[0] == sep then [""] + rest
      else [[s[0]] + rest[0]] + rest[1..]
  }

  /** No piece of a split is longer than the string split. */
  lemma {:induction false} SplitPiecesShorter(s: String, sep: char)
    ensures forall i :: 0 <= i < |Split(s, sep)| ==> |Split(s, sep)[i]| <= |s|
    decreases |s|
  {
    if |s| > 0 {
      SplitPiecesShorter(s[1..], sep);
    }
  }

  /** `parts.join(glue)` */
  function Join(parts: seq<String>, glue: String): String {
    if |parts| == 0 then ""
    else if |parts| == 1 then parts[0]
    else parts[0] + glue + Join(parts[1..], glue)
  }

  /** Joining the pieces of a split with the separator gives back the original string. */
  lemma {:induction false} JoinSplit(s: String, sep: char)
    ensures Join(Split(s, sep), [sep]) == s
  {
    if |s| > 0 {
      var rest := Split(s[1..], sep);
      JoinSplit(s[1..], sep);
      if s[0] == sep {
        assert Split(s, sep) == [""] + rest;
        assert ([""] + rest)[1..] == rest;
      } else {
        var parts := Split(s, sep);
        assert parts == [[s[0]] + rest[0]] + rest[1..];
        if |rest| == 1 {
          assert s == [s[0]] + s[1..];
        } else {
          assert parts[1..] == rest[1..];
          assert Join(rest, [sep]) == rest[0] + [sep] + Join(rest[1..], [sep]);
          assert s == [s[0]] + s[1..];
        }
      }
    }
  }

  /** Splitting a join of separator-free pieces gives back the pieces. */
  lemma {:induction false} SplitJoin(parts: seq<String>, sep: char)
    requires |parts| >= 1
    requires forall i :: 0 <= i < |parts| ==> sep !in parts[i]
    ensures Split(Join(parts, [sep]), sep) == parts
  {
    if |parts| == 1 {
      SplitFree(parts[0], [], sep);
      assert parts[0] + [] == parts[0];
    } else {
      SplitJoin(parts[1..], sep);
      SplitFree(parts[0], [sep] + Join(parts[1..], [sep]), sep);
      assert Join(parts, [sep]) == parts[0] + ([sep] + Join(parts[1..], [sep]));
      SplitAtSeparator(Join(parts[1..], [sep]), sep);
    }
  }

  /** A separator at the head starts a new, empty piece. */
  lemma SplitAtSeparator(rest: String, sep: char)
    ensures Split([sep] + rest, sep) == [""] + Split(rest, sep)
  {
    assert ([sep] + rest)[1..] == rest;
  }

  /**
    * Splitting `w + rest` where `w` holds no separator: `w` is glued to the first piece
    * of `rest`, or stands alone when `rest` is empty or starts with the separator.
    */
  function GluedSplit(w: String, rest: String, sep: char): seq<String> {
    var tail := Split(rest, sep);
    if |rest| == 0 then [w]
    else if rest[0] == sep then [w] + Split(rest[1..], sep)
    else [w + tail[0]] + tail[1..]
  }

  /** A separator-free prefix is glued to the first piece of what follows it. */
  lemma {:induction false} SplitFree(w: String, rest: String, sep: char)
    requires sep !in w
    ensures var tail := Split(rest, sep);
      Split(w + rest, sep) == (if |rest| == 0 then [w] else
        (if rest[0] == sep then [w] + Split(rest[1..], sep) else [w + tail[0]] + tail[1..]))
  {
    if |w| == 0 {
      SplitFreeEmpty(rest, sep);
      assert w + rest == rest && w == "";
    } else {
      SplitFree(w[1..], rest, sep);
      SplitFreeCons(w, rest, sep);
    }
  }

  lemma SplitFreeEmpty(rest: String, sep: char)
    ensures Split(rest, sep) == GluedSplit("", rest, sep)
  {
    if |rest| > 0 && rest[0] != sep {
      var tail := Split(rest, sep);
      assert "" + tail[0] == tail[0];
      assert tail == [tail[0]] + tail[1..];
    }
  }

  lemma SplitFreeCons(w: String, rest: String, sep: char)
    requires |w| > 0 && w[0] != sep
    requires Split(w[1..] + rest, sep) == GluedSplit(w[1..], rest, sep)
    ensures Split(w + rest, sep) == GluedSplit(w, rest, sep)
  {
    var inner := Split(w[1..] + rest, sep);
    assert Split(w + rest, sep) == [[w[0]] + inner[0]] + inner[1..] by {
      assert (w + rest)[0] == w[0] && (w + rest)[1..] == w[1..] + rest;
    }
    if |rest| > 0 && rest[0] != sep {
      var tail := Split(rest, sep);
      assert [w[0]] + (w[1..] + tail[0]) == w + tail[0];
    } else {
      assert [w[0]] + w[1..] == w;
    }
  }
}
