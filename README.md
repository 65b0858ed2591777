# eslint-plugin-annotation, modelled in Dafny

eslint-plugin-annotation is an ESLint plugin whose rules are switched on by a comment
directly above a piece of code:

- `// @sort` (or `@sort:reversed`) above an array literal demands that its elements be
  in comparer order.
- `// @sort-keys` (with `:reversed`, `:deep`, `:deep(n)`) above a declaration demands
  that the keys of its object literals, interface bodies, type literals and enums be
  sorted. The check reaches as far into nested containers as the `deep` option allows.
- `// @unique` above an array literal demands that no element's source text repeat.

Each rule reports a violation with a fix: sorting swaps ranges, and dedupe rewrites the
array.

This project models the core of the plugin:

- the directive parser (`src/utils/config.ts`);
- the comparers (`src/utils/comparer.ts`);
- the handlers of the three rules.

Module by module:

- `Config` (config.dfy) is the parser: which comment applies to a line, which of its
  lines carries the directive, and the options `reversed`, `deep` / `deep(n)` and the
  parenthesized value.
- `Comparer` (comparer.dfy) has the four comparer factories, their inner comparers,
  `compareProperty`, `compareLiterals` and the type-rank tables. It proves
  antisymmetry and that reversed comparers mirror the plain ones. Transitivity is
  proved for `compareLiterals`, for the array comparer on comparable elements, and for
  `compareProperty` on literal and identifier keys. A counterexample shows
  `compareProperty` is not transitive in general.
- `StableSort` (stable_sort.dfy) models `Array.prototype.sort` as a stable insertion
  sort. `Sort` is the specification. `SortCopy` and `InsertAt` sort an array in place,
  proved equal to `Sort`. Permutation, sortedness, uniqueness of the sorted order and
  reversal are proved about `Sort`.
- `SortDiff` (sort_diff.dfy) is `checkAndReport`: sort a copy, zip it with the
  original, report iff they differ, and build the `{ from, to }` range pairs of the fix.
- `SortKeysAnnotation` (sort_keys_annotation.dfy) has the depth gate
  `getParentNodeConfig` (a `while` loop over the ancestors, proved against a
  specification function), `getCurrentNodeConfig` and the four node handlers.
- `SortRule` (sort_rule.dfy) and `UniqueRule` (unique_rule.dfy) are the two
  `ArrayExpression` handlers.
- `ConfigExamples` (config_examples.dfy) holds the directive shapes the tests use,
  proved for whole families of names and numbers.
- The support modules are `Wrappers`, `Strings`, `Arrays`, `Ast` and `Report`. They
  hold the JavaScript built-ins the core calls (`split`, `trim`, `indexOf`,
  `startsWith`, `find`, string `<`), the syntax-tree shapes the rules read, and the
  outcome of a handler.

A handler's outcome is one of three things:

- `NoReport`;
- `Report(edit)`, where `edit` is the fix;
- `TypeError`, where the JavaScript code throws.

The code throws in two places:

- `config.deepLevel` is read from `null` when the anchoring declaration has no
  `@sort-keys` comment;
- `from!.range` is read on an array hole when an array with a hole needs sorting.

Places where the code does less than its own tables and names suggest (the model
follows the code):

- `LITERAL_TYPE_ORDERS` (src/utils/comparer.ts:18) lists `'null'` first. But
  `compareLiterals` ranks by `typeof` (src/utils/comparer.ts:114-115), and `typeof null`
  is `'object'`, which is not in the table. So `null` literals rank 5, next to regular
  expressions and after strings, and the `'null'` entry is never used.
- The array comparer returns 0 when either element is a hole
  (src/utils/comparer.ts:139-141), so a hole ties with every element. The throw comes
  later, from `from!.range` when the fix is built (src/rules/sort.ts:54).
- The enum comparer reads only each member's `id`, its name or string literal
  (src/utils/comparer.ts:164-171). Initializers play no part.
- The `deep` regular expression (src/utils/config.ts:67) matches `deep` anywhere in an
  option. `deep(` followed by anything but digits and `)` yields `MAX_SAFE_INTEGER`, the
  unbounded depth (src/utils/config.ts:73-77).
- `compareProperty` is not transitive. Take three computed member keys: `[a.x]`,
  `[f().y]` and `[b.z]`. `[a.x]` against `[f().y]` gives 0, because the object of the
  latter is a call, so the type ranks decide and both rank 2
  (src/utils/comparer.ts:76-80). `[f().y]` against `[b.z]` gives 0 the same way. But
  `[a.x]` against `[b.z]` gives -1 by object name (src/utils/comparer.ts:65-70). A
  `SpreadElement` likewise ties with every property (src/utils/comparer.ts:90-91).

## Model

| member | source | states |
|---|---|---|
| Strings.Less | src/utils/comparer.ts:41 | JavaScript string `<`: when `a` is a prefix of `b`, `a < b` iff `a` is shorter |
| Strings.LessAtFirstDifference | src/utils/comparer.ts:41 | the first position where two strings differ decides `<` |
| Strings.Compare | src/utils/comparer.ts:41 | `a === b ? 0 : a < b ? -1 : 1` is -1, 0 or 1; 0 iff the strings are equal; negative iff `a < b` in JavaScript order |
| Strings.LessIrreflexive | src/utils/comparer.ts:41 | no string is `<` itself |
| Strings.LessAsymmetric | src/utils/comparer.ts:41 | `a < b` excludes `b < a` |
| Strings.LessTotal | src/utils/comparer.ts:41 | two different strings are ordered one way or the other |
| Strings.LessTransitive | src/utils/comparer.ts:41 | string `<` is transitive |
| Strings.CompareTransitive | src/utils/comparer.ts:51 | the three-way string compare is a transitive total preorder |
| Strings.IndexOfChar | src/utils/config.ts:51-52 | `indexOf(c, from)` is the first index at or after `from` holding `c`, or -1 when there is none |
| Strings.IndexOfString | src/utils/config.ts:67 | the first index at or after `from` where the pattern occurs, or -1 when it occurs nowhere |
| Strings.TrimStart | src/utils/config.ts:25 | strips exactly the leading whitespace: a suffix of the input whose first character is not whitespace |
| Strings.TrimEnd | src/utils/config.ts:25 | strips exactly the trailing whitespace |
| Strings.Trim | src/utils/config.ts:25 | the result neither starts nor ends with whitespace |
| Strings.TrimPadded | src/utils/config.ts:25 | trimming whitespace-padded text gives back the text |
| Strings.TrimStartPadded | src/utils/config.ts:25 | `trimStart` removes exactly a whitespace prefix |
| Strings.TrimEndPadded | src/utils/config.ts:25 | `trimEnd` removes exactly a whitespace suffix |
| Strings.Split | src/utils/config.ts:24 | `split(sep)` yields at least one piece, and no piece contains the separator |
| Strings.JoinSplit | src/utils/config.ts:24 | joining the pieces with the separator restores the string |
| Strings.SplitJoin | src/utils/config.ts:33 | splitting a join of separator-free pieces restores the pieces |
| Strings.SplitAtSeparator | src/utils/config.ts:33 | a leading separator yields an empty first piece |
| Strings.SplitFree | src/utils/config.ts:26 | a separator-free prefix goes wholly into the first piece |
| Strings.SplitPiecesShorter | src/utils/config.ts:26 | no piece of a split is longer than the string |
| Arrays.FindIndex | src/utils/config.ts:16 | the index of the first element satisfying the predicate, or none iff no element does |
| Arrays.Find | src/utils/config.ts:67 | `find` returns the first satisfying element, or nothing iff no element satisfies |
| Arrays.FindFirst | src/utils/config.ts:16 | an element satisfying the predicate with none before it is what `find` returns |
| Arrays.IndexOf | src/utils/comparer.ts:20-25 | the index of the first occurrence of an element present in the list |
| Arrays.Count | src/rules/sort-keys-annotation.ts:29-31 | the number of elements satisfying the test; 0 iff none does |
| Arrays.CountAppend | src/rules/sort-keys-annotation.ts:29-31 | counts add up over concatenation |
| Arrays.CountStep | src/rules/sort-keys-annotation.ts:29-31 | one more ancestor adds 1 to the count iff it is of a counting type |
| Config.TrimmedLines | src/utils/config.ts:23-25 | one trimmed line per `\n`-separated piece of the comment text |
| Config.HasAnnotationToken | src/utils/config.ts:26 | a line that begins with a space-free annotation name carries it; a line shorter than the name never does |
| Config.LeadingToken | src/utils/config.ts:26 | the first space-separated token of a line beginning with a space-free name begins with that name |
| Config.MatchedLine | src/utils/config.ts:13-30 | nothing when no line or block comment ends on the line; when comment `c` is the first to end there, exactly the first trimmed line of `c` that carries the annotation, or nothing if none does |
| Config.MatchedLineFirst | src/utils/config.ts:13-26 | for the first comment `c` ending on the line, if its `k`-th trimmed line is the first to carry the annotation, that line is the match |
| Config.MatchedLineNone | src/utils/config.ts:23-30 | for the first comment ending on the line, there is no match iff none of its trimmed lines carries the annotation |
| Config.GetConfig | src/utils/config.ts:11-43 | null without a comment ending on the line; a config iff a line matches and is nonempty; then the value is the matched line's parenthesized payload, `isReversed` iff `reversed` is one of its `:`-separated options, and the depth is what those options give, 1 when no option contains `deep` |
| Config.ExtractValue | src/utils/config.ts:50-59 | null without `(` or without a `)` after the first `(`; otherwise the text strictly between the first `(` and the first `)` after it |
| Config.ExtractValueOfWrapped | src/utils/config.ts:50-59 | text wrapped in the first parentheses is extracted exactly |
| Config.DigitRun | src/utils/config.ts:67 | `\d+` matches greedily: the longest all-digit prefix |
| Config.DecimalString | src/utils/config.ts:73 | a nonempty numeral of ASCII digits |
| Config.ParseDecimalString | src/utils/config.ts:73 | `parseInt(s, 10)` of the decimal numeral of `n` is `n` |
| Config.ExecDeep | src/utils/config.ts:67 | the regular expression fails iff the option has no `deep`; a captured digit group is a nonempty run of digits |
| Config.ExecAll | src/utils/config.ts:67 | the match of every option, in order |
| Config.ExtractDeepLevel | src/utils/config.ts:66-80 | depth 1 when no option contains `deep` |
| Config.FirstDeepDecides | src/utils/config.ts:67 | the first option that contains `deep` decides the match |
| Config.ExecDeepNumeral | src/utils/config.ts:67 | `deep(<digits>)` captures exactly the digits |
| Config.DigitRunOfNumeral | src/utils/config.ts:67 | the greedy digit run stops at the first non-digit |
| Config.ExtractDeepLevelExplicit | src/utils/config.ts:66-80 | when the first `deep` option is `deep(n)`, the depth is `n` |
| Config.ExecDeepBare | src/utils/config.ts:67 | `deep`, and `deep(` followed by no digit, match without a digit group |
| Config.ExtractDeepLevelUnbounded | src/utils/config.ts:73-77 | a bare `deep` (or `deep(` followed by a non-digit) as the first `deep` option gives `MAX_SAFE_INTEGER` |
| ConfigExamples.DirectiveOnLine | src/utils/config.ts:13-42 | in the first comment ending on the line, whichever comment that is, the first trimmed line carrying the token decides the config |
| ConfigExamples.IndentedBlockDirective | src/utils/config.ts:23-26 | the indented inner line of a `/* ... */` comment is the matched line, whatever whitespace precedes the closing `*/` |
| ConfigExamples.IndentedBlockConfig | src/utils/config.ts:23-36 | a directive on the indented inner line of a `/* ... */` comment is parsed from that line, whatever whitespace precedes the closing `*/` |
| ConfigExamples.PaddedLineConfig | src/utils/config.ts:23-36 | a whitespace-padded line comment is parsed from its trimmed text |
| ConfigExamples.PlainLineParsed | src/utils/config.ts:33-36 | a one-word directive is not reversed, has depth 1 and no value |
| ConfigExamples.LineCommentReversed | tests/sort.test.ts:46 | `// @sort:reversed` on the line above gives a reversed directive of depth 1 and no value |
| ConfigExamples.BlockCommentInnerLine | tests/sort.test.ts:53-55 | `/*`, an indented `@sort`, an indented `*/` gives the plain directive, whatever the indentation of either line |
| ConfigExamples.TokenPrefixMatches | src/utils/config.ts:26 | the token test is a prefix test: a word that merely starts with the annotation name turns the directive on |
| ConfigExamples.DeepLimit | src/utils/config.ts:32-42 | `// <name>:deep(n)` gives depth `n`, not reversed, value the numeral, for every `n` |
| Comparer.AstNodeTypeOrder | src/utils/comparer.ts:20-21 | a type's position in the type order table, or the table length for types not in it |
| Comparer.AstNodeTypeRanks | src/utils/comparer.ts:17-21 | Literal 0, Identifier 1, MemberExpression 2, any other type 3 |
| Comparer.TypeOf | src/utils/comparer.ts:111-115 | `typeof` of a literal: `'object'` exactly for null and regular expressions, never `'null'`, otherwise a tag of the order table |
| Comparer.LiteralTypeOrder | src/utils/comparer.ts:23-25 | a `typeof` tag's position in the literal order table; below 5 iff the tag is in the table, 5 otherwise |
| Comparer.LiteralRanks | src/utils/comparer.ts:110-116 | ranks by value: boolean 1, number 2, bigint 3, string 4, null and RegExp 5 (both `'object'`) |
| Comparer.LiteralRankInjective | src/utils/comparer.ts:112-116 | literals of different `typeof` tags never tie on rank |
| Comparer.CompareLiterals | src/utils/comparer.ts:110-133 | different tags: never a tie, negative iff the left tag ranks lower; false before true; numbers and bigints numerically; strings by `<`; a tie iff equal within those tags; two `'object'` values always tie |
| Comparer.CompareLiteralsAntisymmetric | src/utils/comparer.ts:110-133 | swapping the operands negates the result exactly |
| Comparer.CompareLiteralsTies | src/utils/comparer.ts:110-133 | a literal ties with itself; two literals tie iff they are equal or both are `'object'` (null, RegExp) |
| Comparer.CompareLiteralsTransitive | src/utils/comparer.ts:110-133 | `compareLiterals(a, b) <= 0` is transitive |
| Comparer.CompareProperty | src/utils/comparer.ts:27-82 | literal keys by `<` on their value (null as `""`); identifier keys and `a.b` keys put computed keys last, then compare names (object name first); keys of different types by type rank, tying iff the ranks are equal; other same-type keys tie |
| Comparer.ObjectPropertyCompare | src/utils/comparer.ts:85-92 | two `Property` elements compare by `compareProperty`; any other element ties with everything |
| Comparer.InterfacePropertyCompare | src/utils/comparer.ts:98-105 | two `TSPropertySignature` elements compare by `compareProperty`; any other element ties with everything |
| Comparer.EnumMemberCompare | src/utils/comparer.ts:163-173 | literal ids as literals; identifier ids by `<` on the name, tying iff equal; ids of different types by type rank |
| Comparer.ArrayValueCompare | src/utils/comparer.ts:138-155 | a hole ties with anything; two literals as literals; two nodes of one other type by `<` on their source text; different types by type rank, tying iff the ranks are equal |
| Comparer.Reverse | src/utils/comparer.ts:94 | the reversed comparer ties exactly where the comparer does and orders every other pair the other way |
| Comparer.MakeObjectPropertyComparer | src/utils/comparer.ts:84-95 | the comparer negates on swapped operands; the reversed one is the plain one with the operands swapped |
| Comparer.MakeInterfacePropertyComparer | src/utils/comparer.ts:97-108 | the comparer negates on swapped operands; the reversed one is the plain one with the operands swapped |
| Comparer.MakeEnumMemberComparer | src/utils/comparer.ts:162-176 | the comparer negates on swapped operands; the reversed one is the plain one with the operands swapped |
| Comparer.MakeArrayValueComparer | src/utils/comparer.ts:135-160 | the comparer negates on swapped operands; the reversed one is the plain one with the operands swapped |
| Comparer.PropertyCompareNotTransitive | src/utils/comparer.ts:52-81 | computed keys `[a.x]` and `[b.z]` are ordered, yet both tie with `[f().y]`: `compareProperty` is not transitive |
| Comparer.PropertyCompareTransitiveOnSimpleKeys | src/utils/comparer.ts:37-51 | on literal and identifier keys, `compareProperty(a, b) <= 0` is transitive |
| Comparer.CompareMembersAntisymmetric | src/utils/comparer.ts:27-108 | `compareProperty`, the object, interface and enum comparers are all exactly antisymmetric |
| Comparer.ArrayValueCompareAntisymmetric | src/utils/comparer.ts:138-155 | the array comparer is exactly antisymmetric, holes included |
| Comparer.RankDistinguishes | src/utils/comparer.ts:150-154 | on comparable elements, different node types have different ranks |
| Comparer.ArrayValueCompareTransitive | src/utils/comparer.ts:138-155 | on hole-free elements without two distinct unranked types, the array comparer is transitive |
| StableSort.Sort | src/rules/sort-keys-annotation.ts:61 | the sorted copy has the original's length |
| StableSort.Insert | src/rules/sort-keys-annotation.ts:61 | inserting into a sorted run adds one element |
| StableSort.InsertPermutes | src/rules/sort-keys-annotation.ts:61 | inserting adds exactly the new element to the multiset |
| StableSort.SortPermutes | src/rules/sort-keys-annotation.ts:61 | sorting is a permutation |
| StableSort.SortSwapsPair | src/rules/sort.ts:46 | two elements out of order are swapped |
| StableSort.InsertAt | src/rules/sort-keys-annotation.ts:61 | the in-place insertion step makes the first `i + 1` cells the insertion of cell `i` into the first `i`, and leaves the rest unchanged |
| StableSort.SortCopy | src/rules/sort-keys-annotation.ts:61 | `[...items].sort(cmp)` sorted in place in an array equals `Sort` |
| StableSort.SortOfSorted | src/rules/sort-keys-annotation.ts:61-65 | input already in order is left unchanged |
| StableSort.AppendSorted | src/rules/sort-keys-annotation.ts:61 | appending an element no smaller than the rest keeps the list sorted |
| StableSort.InsertSorted | src/rules/sort-keys-annotation.ts:61 | under a total preorder, insertion keeps the list sorted |
| StableSort.SortSorted | src/rules/sort-keys-annotation.ts:61 | under a total preorder, the result is sorted |
| StableSort.Reversed | src/utils/comparer.ts:94 | reversal maps position `i` to `n - 1 - i` |
| StableSort.ReversePermutes | src/utils/comparer.ts:94 | reversal is a permutation |
| StableSort.SortedPermutationsLast | src/rules/sort-keys-annotation.ts:61 | two sorted permutations under a strict order end alike |
| StableSort.SortedPermutationsEqual | src/rules/sort-keys-annotation.ts:61 | under a strict total order there is exactly one sorted permutation |
| StableSort.ReversedSortedBy | src/utils/comparer.ts:94 | a list sorted by `cmp`, reversed, is sorted by `-cmp` |
| StableSort.ReversedSort | src/utils/comparer.ts:94 | under a strict total order, sorting by the negated comparer yields the reverse |
| SortDiff.NeedSort | src/rules/sort-keys-annotation.ts:63-65 | `needSort` iff some position differs iff the sorted copy differs from the original |
| SortDiff.DiffPairs | src/rules/sort-keys-annotation.ts:68-71 | one `{ from, to }` pair per position, `from` the original's range and `to` the sorted copy's; none when a range is missing |
| SortDiff.DiffOutcome | src/rules/sort-keys-annotation.ts:63-82 | no report iff the copy is unchanged; a throw iff it changed and a range is missing; otherwise a fix over the node's range with the pairs |
| SortDiff.SortAndDiff | src/rules/sort-keys-annotation.ts:53-83 | no report iff sorting moves nothing, so never on input in order; a throw iff something moves and a slot lacks a range; a fix is a splice over the node's range with one pair per slot |
| SortDiff.CheckAndReport | src/rules/sort-keys-annotation.ts:53-83 | the method sorts a copy in place, then reports as the diff of the sorted copy specifies |
| SortDiff.SortedInputQuiet | src/rules/sort-keys-annotation.ts:60-67 | input already in order is never reported |
| SortDiff.QuietMeansSorted | src/rules/sort-keys-annotation.ts:60-67 | under a total preorder, input that is not reported is sorted |
| SortDiff.FixPairsSlots | src/rules/sort-keys-annotation.ts:67-79 | a fix covers the node's range with one pair per position, and the targets are a permutation of the sources |
| SortDiff.PairSwapped | src/rules/sort-keys-annotation.ts:60-79 | two items out of order give a fix that swaps their two ranges |
| SortKeysAnnotation.Decide | src/rules/sort-keys-annotation.ts:33-39 | the anchor's depth must be at least the level reached |
| SortKeysAnnotation.ParentNodeConfig | src/rules/sort-keys-annotation.ts:20-43 | a gate reached only at a level between 1 and the anchor's depth |
| SortKeysAnnotation.FirstAnchor | src/rules/sort-keys-annotation.ts:28-32 | the walk stops at the first ancestor of a parent type |
| SortKeysAnnotation.AnchoredAt | src/rules/sort-keys-annotation.ts:28-40 | with the anchor at `k`, the gate decides on the anchor's comment and 1 plus the counted ancestors up to `k` |
| SortKeysAnnotation.NoAnchor | src/rules/sort-keys-annotation.ts:42 | without an ancestor of a parent type, nothing is found |
| SortKeysAnnotation.GetParentNodeConfig | src/rules/sort-keys-annotation.ts:20-43 | the `while` walk over the ancestors returns what the gate specification says |
| SortKeysAnnotation.GetCurrentNodeConfig | src/rules/sort-keys-annotation.ts:46-50 | null when no comment ends on the line above the node |
| SortKeysAnnotation.GatedCheck | src/rules/sort-keys-annotation.ts:108-122 | the handler throws iff the anchor has no directive, and is silent when the depth is not reached |
| SortKeysAnnotation.OnNested | src/rules/sort-keys-annotation.ts:108-122 | gate, then `checkAndReport` under the anchor's `reversed` flag |
| SortKeysAnnotation.OnObjectExpression | src/rules/sort-keys-annotation.ts:107-123 | anchored at variable or type-alias declarations, counting object literals, with the object-property comparer |
| SortKeysAnnotation.OnInterfaceBody | src/rules/sort-keys-annotation.ts:125-141 | anchored at interface declarations, counting interface bodies |
| SortKeysAnnotation.OnTypeLiteral | src/rules/sort-keys-annotation.ts:143-159 | anchored at interfaces or type aliases, counting interface bodies and type literals |
| SortKeysAnnotation.OnEnumDeclaration | src/rules/sort-keys-annotation.ts:161-171 | the enum's own comment decides; nothing without one; never a throw |
| SortKeysAnnotation.NestedInObjects | src/rules/sort-keys-annotation.ts:28-31 | `n` levels of `Property` inside `ObjectExpression` |
| SortKeysAnnotation.NestedInObjectsCount | src/rules/sort-keys-annotation.ts:29-31 | the chain holds `n` object literals |
| SortKeysAnnotation.UnderDeclaration | src/rules/sort-keys-annotation.ts:107-113 | the chain ends with the declarator and the declaration |
| SortKeysAnnotation.DeclarationAnchors | src/rules/sort-keys-annotation.ts:32 | the declaration is the first anchor of the chain |
| SortKeysAnnotation.DeclarationCount | src/rules/sort-keys-annotation.ts:29-31 | the whole chain counts `n` object literals |
| SortKeysAnnotation.NestedObjectGate | src/rules/sort-keys-annotation.ts:20-43 | an object `n` levels deep is at level `n + 1`: checked iff the declaration's depth allows it; a throw without a directive |
| SortRule.SortOutcome | src/rules/sort.ts:33-68 | nothing without a directive; no report iff the sorted copy is unchanged; a throw iff it changed and the array has a hole |
| SortRule.HoleLacksRange | src/rules/sort.ts:53-56 | some slot of the array or of its sorted copy lacks a range iff the array has a hole: sorting neither adds nor drops a hole |
| SortRule.OnArrayExpression | src/rules/sort.ts:33-68 | the handler sorts a copy in place and does what the outcome specifies |
| SortRule.ArrayComparerPreorder | src/utils/comparer.ts:138-159 | on comparable elements both array comparers are total preorders |
| SortRule.QuietArrayIsSorted | src/rules/sort.ts:46-51 | a directive-covered array of comparable elements that is not reported is sorted |
| SortRule.SortedArrayQuiet | src/rules/sort.ts:46-51 | an array in order is never reported |
| SortRule.ReversedArrayMirrors | src/rules/sort.ts:42-46 | on comparable, pairwise distinguishable elements, `:reversed` sorts into exactly the reverse order |
| SortRule.MixedKindOrder | tests/sort.test.ts:96-107 | forward order is booleans, numbers, bigints, strings, identifiers, member expressions; reversed order is the opposite |
| SortRule.OutOfOrderPairSwapped | src/rules/sort.ts:46-66 | two elements out of order give a fix swapping their ranges |
| SortRule.TwoOneReported | tests/sort.test.ts:112-124 | `[2, 1]` under `@sort` is reported with a fix that swaps the two ranges |
| UniqueRule.Dedupe | src/rules/unique.ts:39 | `Array.from(new Set(keys))` holds exactly the keys of the input, without repeats, and is no longer |
| UniqueRule.DedupeKeepsFirstOrder | src/rules/unique.ts:39 | kept keys are in the order of their first occurrences |
| UniqueRule.DedupeKeepsAllIffDistinct | src/rules/unique.ts:39-41 | the lengths agree iff the input has no repeats |
| UniqueRule.DedupeIdempotent | src/rules/unique.ts:39 | deduplicating twice changes nothing more |
| UniqueRule.DistinctDedupeIdentity | src/rules/unique.ts:39 | distinct keys are kept as they are |
| UniqueRule.DedupeStep | src/rules/unique.ts:39 | a `Set` ignores a key it holds and appends a new one |
| UniqueRule.Keys | src/rules/unique.ts:39 | one source text per element, holes as the hole text |
| UniqueRule.FixedArray | src/rules/unique.ts:46-47 | the fix text is the kept texts joined by `", "` between `[` and `]` |
| UniqueRule.UniqueOutcome | src/rules/unique.ts:30-51 | nothing without a directive; never a throw; a report iff some text repeats; the fix replaces the array with the first occurrences joined by `", "` in brackets |
| UniqueRule.OnArrayExpression | src/rules/unique.ts:30-51 | a report iff a `@unique` directive ends on the line above the array and some element text repeats; never a throw; the fix rewrites the array with the first occurrences |
| UniqueRule.RepeatedNumberRemoved | tests/unique.test.ts:54-62 | `[1, 2, 2, 4, 5]` loses the second `2`, for any four distinct texts |
| UniqueRule.RepeatedNumberFixText | tests/unique.test.ts:59-62 | the fix text is `[1, 2, 4, 5]` |
| UniqueRule.RepeatedNameRemoved | tests/unique.test.ts:66-74 | `["Alice", "Bob", "Alice"]` keeps the first two, for any two distinct texts |
| UniqueRule.SparseRepeatRemoved | tests/unique.test.ts:78-86 | `[1, 2, , 1]` keeps the hole's text and drops the repeat, for any three distinct texts |
| UniqueRule.SparseRepeatFixText | tests/unique.test.ts:83-86 | the fix text with an empty hole text is `[1, 2, ]` |

## Left out

- Numbers are modelled as integers. IEEE doubles, `NaN`, and the subtraction `l - r` on
  non-integers are not modelled.
- Literal keys of properties and enum members carry a string or `null`. Numeric and
  other literal keys, converted by `??` and compared as their values, are not modelled.
- Strings are sequences of code points standing for UTF-16 code units. Surrogate pairs
  are not modelled: `<` compares code points. The whitespace that `trim` removes is the
  ECMAScript WhiteSpace and LineTerminator set, listed code point by code point.
- Config.ParseDecimalString: `parseInt` past 2^53 loses precision in JavaScript; the
  model parses exactly.
- `FixUtils.getFixedText` (src/utils/fix) is not part of this model. The fix records
  the node's range and the `{ from, to }` pairs it would be given.
- `ArrayUtils.zip2` (src/utils/array) is not part of this model. It is modelled as
  pairing elements index by index over two lists of equal length.
- `sourceCode.getText` of a hole in the unique rule is a parameter (`holeText`).
  Comment lookup by line in the sort-keys rule is the parameter `configAt`, built from
  the comments by `ConfigAt`.
- The `format-date` and `no-deprecated-use` rules, the `dist` build, the rule registry
  and the ESLint glue (`createRule`, `context.report`, the fixer) are outside the core.
- StableSort.Sort: a stable insertion sort stands for `Array.prototype.sort`. On
  comparators that are not transitive (mixed unranked node types, holes), V8's TimSort
  may order differently. The model proves the resulting order only under a total
  preorder.
- Stability of `Sort` (the order of ties) is not stated as a lemma.
- SortRule.ReversedArrayMirrors: requires elements that no two compare equal. With
  ties, the stable sort keeps ties in input order in both directions, so the reversed
  sort is not the exact reverse.
- Comparer.ArrayValueCompareTransitive: requires hole-free elements, no two distinct
  node types that both rank 3. Holes tie with everything, and two unranked types both
  compare 0, so the comparer is not transitive there.
- Comparer.PropertyCompareTransitiveOnSimpleKeys: requires literal or identifier keys.
  With member-expression keys `compareProperty` is not transitive
  (`PropertyCompareNotTransitive`), so the sort-keys handlers are proved only through
  `SortAndDiff`, which holds for any comparator.
- SortKeysAnnotation.GetParentNodeConfig: the walk ends at the last ancestor given. The
  root's `parent` is taken to end the loop, as `null` does in the source.
- The test examples are stated for every string or number of the shape the test uses,
  not for the literal texts alone.
