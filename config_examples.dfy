/**
  * Directive comments worked through `GetConfig`, as the rule tests write them: a
  * line comment with an option, a directive on an inner line of a block comment,
  * the prefix match of `@sort` against `@sort-keys`, and an explicit depth.
  */
module ConfigExamples {
  import opened Wrappers
  import opened Strings
  import opened Arrays
  import opened Config

  lemma SplitWithout(s: String, sep: char)
    requires sep !in s
    ensures Split(s, sep) == [s]
  {
    SplitFree(s, "", sep);
    assert s + "" == s;
  }

  lemma NoDeep(o: String, c: char)
    requires c in "deep" && c !in o
    ensures !ContainsDeep(o)
  {
  }

  lemma TokenAlone(line: String, name: String)
    requires ' ' !in line && StartsWith(line, name)
    ensures HasAnnotationToken(line, name)
  {
    SplitWithout(line, ' ');
  }

  lemma EmptyLineHasNoToken(name: String)
    requires |name| > 0
    ensures !HasAnnotationToken("", name)
  {
    SplitWithout("", ' ');
  }

  lemma TrimmedSingle(value: String, line: String)
    requires Split(value, '\n') == [value] && Trim(value) == line
    ensures TrimmedLines(value) == [line]
  {
  }

  /** The directive parsed from the matched line. */
  lemma ConfigOfLine(comments: seq<Comment>, name: String, endLine: int, line: String, options: seq<String>,
                     expected: Config)
    requires MatchedLine(comments, name, endLine) == Some(line) && line != ""
    requires Split(line, ':') == options
    requires expected == Config(ExtractValue(line), "reversed" in options, ExtractDeepLevel(options))
    ensures GetConfig(comments, name, endLine) == Some(expected)
  {
  }

  /**
    * Both steps: line `k` of the first comment ending on `endLine`, the first trimmed
    * line there carrying the token, parsed into its directive.
    */
  lemma DirectiveOnLine(comments: seq<Comment>, name: String, endLine: int, c: nat, k: nat,
                        options: seq<String>, expected: Config)
    requires FirstEndingAt(comments, endLine, c)
    requires var lines := TrimmedLines(comments[c].value);
      && k < |lines| && HasAnnotationToken(lines[k], name) && lines[k] != ""
      && (forall j :: 0 <= j < k ==> !HasAnnotationToken(lines[j], name))
      && Split(lines[k], ':') == options
      && expected == Config(ExtractValue(lines[k]), "reversed" in options, ExtractDeepLevel(options))
    ensures GetConfig(comments, name, endLine) == Some(expected)
  {
    var line := TrimmedLines(comments[c].value)[k];
    MatchedLineFirst(comments, name, endLine, c, k);
    ConfigOfLine(comments, name, endLine, line, options, expected);
  }

  lemma ReversedNoValue()
    ensures ExtractValue("@sort:reversed") == None
  {
  }

  lemma ReversedSplit()
    ensures Split("@sort:reversed", ':') == ["@sort", "reversed"]
  {
    SplitJoin(["@sort", "reversed"], ':');
    assert Join(["@sort", "reversed"], ":") == "@sort:reversed";
  }

  lemma ReversedDepth()
    ensures ExtractDeepLevel(["@sort", "reversed"]) == 1
  {
    NoDeep("@sort", 'p');
    NoDeep("reversed", 'p');
  }

  lemma ReversedTrimPadding()
    ensures Trim(" @sort:reversed") == "@sort:reversed"
  {
    assert " @sort:reversed" == " " + "@sort:reversed" + "";
    TrimPadded(" ", "@sort:reversed", "");
  }

  lemma ReversedTrim()
    ensures TrimmedLines(" @sort:reversed") == ["@sort:reversed"]
  {
    ReversedTrimPadding();
    SplitWithout(" @sort:reversed", '\n');
    TrimmedSingle(" @sort:reversed", "@sort:reversed");
  }


  lemma ReversedToken()
    ensures HasAnnotationToken("@sort:reversed", "@sort")
  {
    TokenAlone("@sort:reversed", "@sort");
  }

  /** `// @sort:reversed` ending on the line above gives a reversed directive of depth 1. */
  lemma LineCommentReversed(endLine: int)
    ensures GetConfig([Comment(Line, endLine, " @sort:reversed")], "@sort", endLine)
      == Some(Config(None, true, 1))
  {
    ReversedSplit();
    ReversedNoValue();
    ReversedDepth();
    ReversedTrim();
    ReversedToken();
    DirectiveOnLine([Comment(Line, endLine, " @sort:reversed")], "@sort", endLine, 0, 0,
                    ["@sort", "reversed"], Config(None, true, 1));
  }

  /**
    * A block comment's text `\n<text>\n<post>` has three lines: an empty one, the text,
    * and what precedes the closing delimiter on its line.
    */
  lemma BlockSplit(text: String, post: String)
    requires '\n' !in text && '\n' !in post
    ensures Split("\n" + text + "\n" + post, '\n') == ["", text, post]
  {
    var parts := ["", text, post];
    SplitJoin(parts, '\n');
    assert parts[1..] == [text, post];
    assert Join([text, post], "\n") == text + "\n" + post;
    assert Join(parts, "\n") == "" + "\n" + (text + "\n" + post);
    assert Join(parts, "\n") == "\n" + text + "\n" + post;
  }

  lemma BlockTrimmed(indent: String, line: String, post: String)
    requires AllWhitespace(indent) && '\n' !in indent && '\n' !in line
    requires AllWhitespace(post) && '\n' !in post
    requires |line| > 0 && !IsWhitespace(line[0]) && !IsWhitespace(line[|line| - 1])
    ensures TrimmedLines("\n" + indent + line + "\n" + post) == ["", line, ""]
  {
    var value := "\n" + indent + line + "\n" + post;
    assert Split(value, '\n') == ["", indent + line, post] by {
      assert value == "\n" + (indent + line) + "\n" + post;
      BlockSplit(indent + line, post);
    }
    ThreeLines(value, "", indent + line, post);
    IndentTrimmed(indent, line);
    BlankTrimmed(post);
  }

  lemma BlankTrimmed(post: String)
    requires AllWhitespace(post)
    ensures Trim("") == "" && Trim(post) == ""
  {
    assert post + "" + "" == post;
    TrimPadded(post, "", "");
  }

  lemma ThreeLines(value: String, a: String, b: String, c: String)
    requires Split(value, '\n') == [a, b, c]
    ensures TrimmedLines(value) == [Trim(a), Trim(b), Trim(c)]
  {
  }

  lemma IndentTrimmed(indent: String, line: String)
    requires AllWhitespace(indent)
    requires |line| > 0 && !IsWhitespace(line[0]) && !IsWhitespace(line[|line| - 1])
    ensures Trim(indent + line) == line
  {
    assert indent + line == indent + line + "";
    TrimPadded(indent, line, "");
  }

  /**
    * Indentation around a comment line is trimmed away, so a directive on the inner
    * line of a block comment `/*\n<indent><line>\n<post>*/` is found, whatever
    * whitespace precedes the closing delimiter.
    */
  lemma IndentedBlockDirective(endLine: int, name: String, indent: String, line: String, post: String)
    requires AllWhitespace(indent) && '\n' !in indent && '\n' !in line
    requires AllWhitespace(post) && '\n' !in post
    requires |line| > 0 && !IsWhitespace(line[0]) && !IsWhitespace(line[|line| - 1])
    requires HasAnnotationToken(line, name) && |name| > 0
    ensures MatchedLine([Comment(Block, endLine, "\n" + indent + line + "\n" + post)], name, endLine) == Some(line)
  {
    var value := "\n" + indent + line + "\n" + post;
    assert TrimmedLines(value) == ["", line, ""] by { BlockTrimmed(indent, line, post); }
    EmptyLineHasNoToken(name);
    MatchedLineFirst([Comment(Block, endLine, value)], name, endLine, 0, 1);
  }

  /** The directive on the inner line of a block comment, parsed. */
  lemma IndentedBlockConfig(endLine: int, name: String, indent: String, line: String, post: String,
                            options: seq<String>, expected: Config)
    requires AllWhitespace(indent) && '\n' !in indent && '\n' !in line
    requires AllWhitespace(post) && '\n' !in post
    requires |line| > 0 && !IsWhitespace(line[0]) && !IsWhitespace(line[|line| - 1])
    requires HasAnnotationToken(line, name) && |name| > 0
    requires Split(line, ':') == options
    requires expected == Config(ExtractValue(line), "reversed" in options, ExtractDeepLevel(options))
    ensures GetConfig([Comment(Block, endLine, "\n" + indent + line + "\n" + post)], name, endLine) == Some(expected)
  {
    IndentedBlockDirective(endLine, name, indent, line, post);
    ConfigOfLine([Comment(Block, endLine, "\n" + indent + line + "\n" + post)], name, endLine, line, options, expected);
  }

  /** A one-line comment text trims to its line. */
  lemma PaddedTrimmed(pad: String, line: String)
    requires AllWhitespace(pad) && '\n' !in pad && '\n' !in line
    requires |line| > 0 && !IsWhitespace(line[0]) && !IsWhitespace(line[|line| - 1])
    ensures TrimmedLines(pad + line) == [line]
  {
    SplitWithout(pad + line, '\n');
    assert pad + line == pad + line + "";
    TrimPadded(pad, line, "");
    TrimmedSingle(pad + line, line);
  }

  /** The directive of a line comment `//<pad><line>`, parsed. */
  lemma PaddedLineConfig(endLine: int, name: String, pad: String, line: String, options: seq<String>,
                         expected: Config)
    requires AllWhitespace(pad) && '\n' !in pad && '\n' !in line
    requires |line| > 0 && !IsWhitespace(line[0]) && !IsWhitespace(line[|line| - 1])
    requires HasAnnotationToken(line, name)
    requires Split(line, ':') == options
    requires expected == Config(ExtractValue(line), "reversed" in options, ExtractDeepLevel(options))
    ensures GetConfig([Comment(Line, endLine, pad + line)], name, endLine) == Some(expected)
  {
    PaddedTrimmed(pad, line);
    DirectiveOnLine([Comment(Line, endLine, pad + line)], name, endLine, 0, 0, options, expected);
  }

  /** A one-word directive such as `@sort` or `@sort-keys`: no options, no payload, no depth. */
  predicate PlainDirective(line: String) {
    && |line| > 0 && line[0] == '@' && !IsWhitespace(line[|line| - 1])
    && ' ' !in line && ':' !in line && '(' !in line && '\n' !in line
    && !ContainsDeep(line)
  }

  /** A one-word directive parses to the defaults: not reversed, depth 1, no payload. */
  lemma PlainLineParsed(line: String, name: String)
    requires PlainDirective(line) && StartsWith(line, name)
    ensures HasAnnotationToken(line, name) && Split(line, ':') == [line]
    ensures Config(None, false, 1) == Config(ExtractValue(line), "reversed" in [line], ExtractDeepLevel([line]))
  {
    TokenAlone(line, name);
    SplitWithout(line, ':');
    assert line != "reversed" by {
      assert line[0] == '@';
    }
  }

  /**
    * `/*\n<indent>@sort\n<post>*/`: a one-word directive on the inner line of a block
    * comment is found, however the lines are indented.
    */
  lemma BlockCommentInnerLine(endLine: int, indent: String, name: String, post: String)
    requires AllWhitespace(indent) && '\n' !in indent
    requires AllWhitespace(post) && '\n' !in post
    requires PlainDirective(name)
    ensures GetConfig([Comment(Block, endLine, "\n" + indent + name + "\n" + post)], name, endLine)
      == Some(Config(None, false, 1))
  {
    assert Split(name, ':') == [name] && Config(None, false, 1) == Config(ExtractValue(name), "reversed" in [name], ExtractDeepLevel([name])) && HasAnnotationToken(name, name) by {
      assert StartsWith(name, name) by {
        assert name[..|name|] == name;
      }
      PlainLineParsed(name, name);
    }
    IndentedBlockConfig(endLine, name, indent, name, post, [name], Config(None, false, 1));
  }

  /**
    * The token test is a prefix test: a line comment whose word merely starts with
    * the annotation name (`// @sort-keys` for `@sort`) turns the directive on.
    */
  lemma TokenPrefixMatches(endLine: int, name: String, suffix: String)
    requires PlainDirective(name + suffix)
    ensures GetConfig([Comment(Line, endLine, " " + name + suffix)], name, endLine)
      == Some(Config(None, false, 1))
  {
    var line := name + suffix;
    assert StartsWith(line, name) by {
      assert line[..|name|] == name;
    }
    PlainLineParsed(line, name);
    assert " " + name + suffix == " " + line;
    PaddedLineConfig(endLine, name, " ", line, [line], Config(None, false, 1));
  }

  lemma NumeralFree(d: String, c: char)
    requires forall i :: 0 <= i < |d| ==> IsDigit(d[i])
    requires !IsDigit(c)
    ensures c !in d
  {
  }

  lemma DeepSplit(name: String, d: String)
    requires ':' !in name && ':' !in d
    ensures Split(name + ":deep(" + d + ")", ':') == [name, "deep(" + d + ")"]
  {
    var rest := "deep(" + d + ")";
    assert ':' !in rest;
    SplitWithout(rest, ':');
    SplitAtSeparator(rest, ':');
    SplitFree(name, [':'] + rest, ':');
    assert name + ":deep(" + d + ")" == name + ([':'] + rest);
  }

  lemma DeepToken(name: String, d: String)
    requires ' ' !in name && ' ' !in d
    ensures HasAnnotationToken(name + ":deep(" + d + ")", name)
  {
    var line := name + ":deep(" + d + ")";
    assert line[..|name|] == name;
    assert ' ' !in line;
    TokenAlone(line, name);
  }

  lemma DeepValue(name: String, d: String)
    requires '(' !in name && ')' !in d
    ensures ExtractValue(name + ":deep(" + d + ")") == Some(d)
  {
    ExtractValueOfWrapped(name + ":deep", d, "");
    assert name + ":deep(" + d + ")" == name + ":deep" + "(" + d + ")" + "";
  }

  lemma DeepLevelOf(name: String, n: nat)
    requires !ContainsDeep(name)
    ensures ExtractDeepLevel([name, "deep(" + DecimalString(n) + ")"]) == n
  {
    ExtractDeepLevelExplicit([name, "deep(" + DecimalString(n) + ")"], 1, n);
  }

  /** The shape of a `<name>:deep(<numeral>)` line: one line, no surrounding whitespace. */
  lemma DeepLineShape(name: String, d: String)
    requires |name| > 0 && name[0] == '@' && '\n' !in name && '\n' !in d
    ensures var line := name + ":deep(" + d + ")";
      && '\n' !in line && |line| > 0 && !IsWhitespace(line[0]) && !IsWhitespace(line[|line| - 1])
  {
    var line := name + ":deep(" + d + ")";
    assert line[0] == name[0];
    assert line[|line| - 1] == ')';
  }

  /** What the parser reads off a `<name>:deep(<numeral>)` line. */
  lemma DeepLineParsed(name: String, n: nat)
    requires |name| > 0 && name[0] == '@'
    requires ' ' !in name && ':' !in name && '(' !in name
    requires !ContainsDeep(name)
    ensures var d := DecimalString(n);
      var line := name + ":deep(" + d + ")";
      var options := [name, "deep(" + d + ")"];
      && HasAnnotationToken(line, name)
      && Split(line, ':') == options
      && Config(Some(d), false, n) == Config(ExtractValue(line), "reversed" in options, ExtractDeepLevel(options))
  {
    var d := DecimalString(n);
    var options := [name, "deep(" + d + ")"];
    NumeralFree(d, ':');
    NumeralFree(d, ' ');
    NumeralFree(d, ')');
    DeepSplit(name, d);
    DeepToken(name, d);
    DeepValue(name, d);
    DeepLevelOf(name, n);
    assert "reversed" !in options by {
      assert options[0][0] == '@' && options[1][0] == 'd';
    }
  }

  /**
    * `// @sort-keys:deep(n)` limits the depth to n, for any annotation name in place of
    * `@sort-keys`; the payload is the text between the parentheses, the numeral itself.
    */
  lemma DeepLimit(endLine: int, name: String, n: nat)
    requires |name| > 0 && name[0] == '@' && !IsWhitespace(name[|name| - 1])
    requires ' ' !in name && ':' !in name && '(' !in name && '\n' !in name
    requires !ContainsDeep(name)
    ensures var d := DecimalString(n);
      GetConfig([Comment(Line, endLine, " " + name + ":deep(" + d + ")")], name, endLine)
        == Some(Config(Some(d), false, n))
  {
    var d := DecimalString(n);
    var line := name + ":deep(" + d + ")";
    var options := [name, "deep(" + d + ")"];
    assert " " + name + ":deep(" + d + ")" == " " + line;
    assert '\n' !in line && |line| > 0 && !IsWhitespace(line[0]) && !IsWhitespace(line[|line| - 1]) by {
      NumeralFree(d, '\n');
      DeepLineShape(name, d);
    }
    assert && HasAnnotationToken(line, name) && Split(line, ':') == options
      && Config(Some(d), false, n) == Config(ExtractValue(line), "reversed" in options, ExtractDeepLevel(options))
    by {
      DeepLineParsed(name, n);
    }
    PaddedLineConfig(endLine, name, " ", line, options, Config(Some(d), false, n));
  }
}
