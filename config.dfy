/**
  * The directive parser: finds the comment that ends on a given line, the line
  * of it that carries an annotation token such as `@sort`, and that line's options
  * (`:reversed`, `:deep`, `:deep(n)`, and a `( ... )` payload).
  */
module Config {
  import opened Wrappers
  import opened Strings
  import opened Arrays

  datatype CommentType = Line | Block | Shebang

  /** A comment of the file: its token type, the line it ends on, and its text between the delimiters. */
  datatype Comment = Comment(commentType: CommentType, endLine: int, value: String)

  /** A parsed directive: the `( ... )` payload, the `reversed` flag and the depth limit. */
  datatype Config = Config(value: Option<String>, isReversed: bool, deepLevel: nat)

  /** `Number.MAX_SAFE_INTEGER`, the depth that stands for "unbounded". */
  const MaxSafeInteger: nat := 9007199254740991

  predicate EndsOn(c: Comment, line: int) {
    (c.commentType == Line || c.commentType == Block) && c.endLine == line
  }

  /**
    * Some space-separated token of `line` starts with `annotationName`: a line that
    * begins with a name free of spaces carries it, and no line shorter than the name does.
    */
  predicate HasAnnotationToken(line: String, annotationName: String)
    ensures HasAnnotationToken(line, annotationName) ==> |annotationName| <= |line|
    ensures ' ' !in annotationName && StartsWith(line, annotationName) ==> HasAnnotationToken(line, annotationName)
  {
    LeadingToken(line, annotationName);
    SplitPiecesShorter(line, ' ');
    exists t :: t in Split(line, ' ') && StartsWith(t, annotationName)
  }

  /** The first space-separated token of a line that begins with a space-free `name` begins with it too. */
  lemma LeadingToken(line: String, name: String)
    ensures ' ' !in name && StartsWith(line, name) ==> StartsWith(Split(line, ' ')[0], name)
  {
    if ' ' !in name && StartsWith(line, name) {
      var rest := line[|name|..];
      assert line == name + rest;
      SplitFree(name, rest, ' ');
    }
  }

  /** `comment => comment.loc.end.line === line`, for the line and block comments. */
  function EndsOnLine(line: int): Comment -> bool {
    (c: Comment) => EndsOn(c, line)
  }

  /** `line => line.split(' ').some(token => token.startsWith(annotationName))` */
  function CarriesToken(annotationName: String): String -> bool {
    (line: String) => HasAnnotationToken(line, annotationName)
  }

  /** The lines of a comment's text, each trimmed. */
  function TrimmedLines(value: String): (lines: seq<String>)
    ensures var parts := Split(value, '\n');
      |lines| == |parts| && forall i :: 0 <= i < |lines| ==> lines[i] == Trim(parts[i])
  {
    var parts := Split(value, '\n');
    seq(|parts|, i requires 0 <= i < |parts| => Trim(parts[i]))
  }

  /** `comments[c]` is the first line or block comment that ends on `line`. */
  predicate FirstEndingAt(comments: seq<Comment>, line: int, c: nat) {
    c < |comments| && EndsOn(comments[c], line) && forall j :: 0 <= j < c ==> !EndsOn(comments[j], line)
  }

  /**
    * The first trimmed line carrying the annotation, in the first line or block
    * comment that ends on `commentEndLine`.
    */
  function MatchedLine(comments: seq<Comment>, annotationName: String, commentEndLine: int): (r: Option<String>)
    ensures (forall k :: 0 <= k < |comments| ==> !EndsOn(comments[k], commentEndLine)) ==> r.None?
    ensures r.Some? ==> HasAnnotationToken(r.value, annotationName)
    ensures forall c: nat :: FirstEndingAt(comments, commentEndLine, c) ==>
      r == Find(TrimmedLines(comments[c].value), CarriesToken(annotationName))
  {
    assert forall c: nat :: FirstEndingAt(comments, commentEndLine, c) ==>
      Find(comments, EndsOnLine(commentEndLine)) == Some(comments[c])
    by {
      forall c: nat | FirstEndingAt(comments, commentEndLine, c)
        ensures Find(comments, EndsOnLine(commentEndLine)) == Some(comments[c])
      {
        FindFirst(comments, EndsOnLine(commentEndLine), c);
      }
    }
    match Find(comments, EndsOnLine(commentEndLine))
    case None => None
    case Some(c) => Find(TrimmedLines(c.value), CarriesToken(annotationName))
  }

  /**
    * When `comments[c]` is the first comment ending on the line and its `k`-th trimmed
    * line is the first to carry the annotation, that line is the match.
    */
  lemma MatchedLineFirst(comments: seq<Comment>, annotationName: String, commentEndLine: int, c: nat, k: nat)
    requires FirstEndingAt(comments, commentEndLine, c)
    requires var lines := TrimmedLines(comments[c].value);
      && k < |lines| && HasAnnotationToken(lines[k], annotationName)
      && forall j :: 0 <= j < k ==> !HasAnnotationToken(lines[j], annotationName)
    ensures MatchedLine(comments, annotationName, commentEndLine) == Some(TrimmedLines(comments[c].value)[k])
  {
    FindFirst(TrimmedLines(comments[c].value), CarriesToken(annotationName), k);
  }

  /** There is no match exactly when no line of the first comment ending on the line carries the annotation. */
  lemma MatchedLineNone(comments: seq<Comment>, annotationName: String, commentEndLine: int, c: nat)
    requires FirstEndingAt(comments, commentEndLine, c)
    ensures var lines := TrimmedLines(comments[c].value);
      MatchedLine(comments, annotationName, commentEndLine).None? <==>
        forall i :: 0 <= i < |lines| ==> !HasAnnotationToken(lines[i], annotationName)
  {
    var lines := TrimmedLines(comments[c].value);
    assert forall i :: 0 <= i < |lines| ==> CarriesToken(annotationName)(lines[i]) == HasAnnotationToken(lines[i], annotationName);
  }

  /**
    * `ConfigUtils.getConfig`: the directive `annotationName` in the comment ending on
    * `commentEndLine`, or `None`. The token test is a prefix test, so `@sort` also
    * accepts `@sort-keys`.
    */
  function GetConfig(comments: seq<Comment>, annotationName: String, commentEndLine: int): (r: Option<Config>)
    ensures (forall k :: 0 <= k < |comments| ==> !EndsOn(comments[k], commentEndLine)) ==> r.None?
    ensures var m := MatchedLine(comments, annotationName, commentEndLine);
      r.Some? <==> m.Some? && m.value != ""
    ensures r.Some? ==> var line := MatchedLine(comments, annotationName, commentEndLine).value;
      && r.value.value == ExtractValue(line)
      && (r.value.isReversed <==> "reversed" in Split(line, ':'))
      && r.value.deepLevel == ExtractDeepLevel(Split(line, ':'))
      && (r.value.deepLevel == 1 <== forall i :: 0 <= i < |Split(line, ':')| ==> !ContainsDeep(Split(line, ':')[i]))
  {
    match MatchedLine(comments, annotationName, commentEndLine)
    case None => None
    case Some(line) =>
      if line == "" then None  // an empty matched line is falsy in the source
      else
        var options := Split(line, ':');
        Some(Config(ExtractValue(line), "reversed" in options, ExtractDeepLevel(options)))
  }

  /**
    * `extractValue`: the text strictly between the first `(` and the first `)` after
    * it, or `None` if either is missing.
    */
  function ExtractValue(s: String): (r: Option<String>)
    ensures '(' !in s ==> r.None?
    ensures '(' in s ==> var open := IndexOfChar(s, '(', 0);
      && (forall i :: 0 <= i < open ==> s[i] != '(')
      && (r.None? <==> forall i :: open < i < |s| ==> s[i] != ')')
      && (r.Some? ==>
            && ')' !in r.value
            && open + 1 + |r.value| < |s|
            && s[open + 1 .. open + 1 + |r.value|] == r.value
            && s[open + 1 + |r.value|] == ')')
  {
    var startOffset := IndexOfChar(s, '(', 0);
    var endOffset := IndexOfChar(s, ')', startOffset);
    if startOffset == -1 || endOffset == -1 then None
    else
      var payload := s[startOffset + 1 .. endOffset];
      assert forall j :: 0 <= j < |payload| ==> payload[j] != ')';
      Some(payload)
  }

  /** The payload of `pre(v)post` is `v`, when `pre` holds no `(` and `v` no `)`. */
  lemma ExtractValueOfWrapped(pre: String, v: String, post: String)
    requires '(' !in pre && ')' !in v
    ensures ExtractValue(pre + "(" + v + ")" + post) == Some(v)
  {
    var s := pre + "(" + v + ")" + post;
    var open := IndexOfChar(s, '(', 0);
    assert open == |pre| by {
      assert s[|pre|] == '(';
      assert forall i :: 0 <= i < |pre| ==> s[i] == pre[i];
    }
    var close := IndexOfChar(s, ')', open);
    assert close == |pre| + 1 + |v| by {
      assert s[|pre| + 1 + |v|] == ')';
      assert forall i :: 0 <= i < |v| ==> s[|pre| + 1 + i] == v[i];
    }
    assert s[open + 1 .. close] == v;
  }

  predicate IsDigit(c: char) {
    '0' <= c <= '9'
  }

  /** The longest prefix of `s` made of ASCII digits (what `\d+` matches greedily). */
  function DigitRun(s: String): (d: String)
    ensures |d| <= |s| && d == s[..|d|]
    ensures forall i :: 0 <= i < |d| ==> IsDigit(d[i])
    ensures |d| < |s| ==> !IsDigit(s[|d|])
  {
    if |s| > 0 && IsDigit(s[0]) then [s[0]] + DigitRun(s[1..]) else ""
  }

  /** `parseInt(d, 10)` of a string of decimal digits. */
  function ParseDecimal(d: String): nat
    requires forall i :: 0 <= i < |d| ==> IsDigit(d[i])
  {
    if |d| == 0 then 0
    else
      assert IsDigit(d[|d| - 1]);
      10 * ParseDecimal(d[..|d| - 1]) + (d[|d| - 1] as int - '0' as int)
  }

  /** The decimal numeral of `n`, without leading zeros. */
  function DecimalString(n: nat): (d: String)
    ensures |d| > 0 && forall i :: 0 <= i < |d| ==> IsDigit(d[i])
  {
    if n < 10 then [('0' as int + n) as char]
    else DecimalString(n / 10) + [('0' as int + n % 10) as char]
  }

  lemma {:induction false} ParseDecimalString(n: nat)
    ensures ParseDecimal(DecimalString(n)) == n
  {
    if n >= 10 {
      var d := DecimalString(n);
      assert d[..|d| - 1] == DecimalString(n / 10);
      ParseDecimalString(n / 10);
    }
  }

  /** The outcome of `/deep(\((\d+)\))?/.exec(option)`: no match, or a match and its digit group. */
  datatype DeepMatch = NoMatch | Matched(digits: Option<String>)

  predicate ContainsDeep(option: String) {
    IndexOfString(option, "deep", 0) != -1
  }

  /**
    * The regular expression matches at the first `deep` of the option; the digit
    * group is present iff that `deep` is followed by `(`, one or more digits and `)`.
    */
  function ExecDeep(option: String): (m: DeepMatch)
    ensures m.NoMatch? <==> !ContainsDeep(option)
    ensures m.Matched? && m.digits.Some? ==> |m.digits.value| > 0 && forall i :: 0 <= i < |m.digits.value| ==> IsDigit(m.digits.value[i])
  {
    var p := IndexOfString(option, "deep", 0);
    if p == -1 then NoMatch
    else
      var rest := option[p + 4..];
      if |rest| > 0 && rest[0] == '(' then
        var d := DigitRun(rest[1..]);
        if |d| > 0 && |d| + 1 < |rest| && rest[|d| + 1] == ')' then Matched(Some(d)) else Matched(None)
      else Matched(None)
  }

  predicate IsMatched(m: DeepMatch) {
    m.Matched?
  }

  /** `options.map(option => /deep(\((\d+)\))?/.exec(option))` */
  function ExecAll(options: seq<String>): (results: seq<DeepMatch>)
    ensures |results| == |options| && forall i :: 0 <= i < |options| ==> results[i] == ExecDeep(options[i])
  {
    seq(|options|, i requires 0 <= i < |options| => ExecDeep(options[i]))
  }

  /**
    * `extractDeepLevel`: the first option the expression matches decides: `deep(n)`
    * gives n, any other match gives `MaxSafeInteger`; no match gives 1.
    */
  function ExtractDeepLevel(options: seq<String>): (level: nat)
    ensures (forall i :: 0 <= i < |options| ==> !ContainsDeep(options[i])) ==> level == 1
  {
    match Find(ExecAll(options), IsMatched)
    case None => 1
    case Some(m) =>
      match m.digits
      case None => MaxSafeInteger
      case Some(d) => ParseDecimal(d)
  }

  /** The first option naming `deep` is the one whose match decides. */
  lemma FirstDeepDecides(options: seq<String>, k: nat)
    requires k < |options| && ContainsDeep(options[k])
    requires forall j :: 0 <= j < k ==> !ContainsDeep(options[j])
    ensures Find(ExecAll(options), IsMatched) == Some(ExecDeep(options[k]))
  {
    FindFirst(ExecAll(options), IsMatched, k);
  }

  /** `/deep(\((\d+)\))?/` on `deep(d)` captures the numeral `d`. */
  lemma ExecDeepNumeral(d: String)
    requires |d| > 0 && forall i :: 0 <= i < |d| ==> IsDigit(d[i])
    ensures ExecDeep("deep(" + d + ")") == Matched(Some(d))
  {
    var o := "deep(" + d + ")";
    assert o[..4] == "deep";
    assert IndexOfString(o, "deep", 0) == 0;
    var rest := o[4..];
    assert rest == "(" + d + ")";
    assert rest[1..] == d + ")";
    DigitRunOfNumeral(d, ")");
  }

  /** `deep(n)` as the first option naming `deep` gives the depth limit n. */
  lemma ExtractDeepLevelExplicit(options: seq<String>, k: nat, n: nat)
    requires k < |options| && options[k] == "deep(" + DecimalString(n) + ")"
    requires forall j :: 0 <= j < k ==> !ContainsDeep(options[j])
    ensures ExtractDeepLevel(options) == n
  {
    var d := DecimalString(n);
    ExecDeepNumeral(d);
    FirstDeepDecides(options, k);
    ParseDecimalString(n);
  }

  lemma {:induction false} DigitRunOfNumeral(d: String, rest: String)
    requires forall i :: 0 <= i < |d| ==> IsDigit(d[i])
    requires |rest| > 0 && !IsDigit(rest[0])
    ensures DigitRun(d + rest) == d
  {
    if |d| > 0 {
      assert (d + rest)[1..] == d[1..] + rest;
      DigitRunOfNumeral(d[1..], rest);
      assert d == [d[0]] + d[1..];
    } else {
      assert d + rest == rest;
    }
  }

  /** `/deep(\((\d+)\))?/` on `deep` or on `deep(` not followed by a digit captures nothing. */
  lemma ExecDeepBare(o: String, payload: String)
    requires o == "deep" || (o == "deep(" + payload && (|payload| == 0 || !IsDigit(payload[0])))
    ensures ExecDeep(o) == Matched(None)
  {
    assert o[..4] == "deep";
    assert IndexOfString(o, "deep", 0) == 0;
    if o != "deep" {
      assert o[4..] == "(" + payload;
      assert o[4..][1..] == payload;
    }
  }

  /** `deep` without a number, or with a payload that does not start with a digit, is unbounded. */
  lemma ExtractDeepLevelUnbounded(options: seq<String>, k: nat, payload: String)
    requires k < |options|
    requires options[k] == "deep" || (options[k] == "deep(" + payload && (|payload| == 0 || !IsDigit(payload[0])))
    requires forall j :: 0 <= j < k ==> !ContainsDeep(options[j])
    ensures ExtractDeepLevel(options) == MaxSafeInteger
  {
    ExecDeepBare(options[k], payload);
    FirstDeepDecides(options, k);
  }

}
