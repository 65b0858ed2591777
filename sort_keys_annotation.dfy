/**
  * The `sort-keys-annotation` rule: under a `@sort-keys` comment, object literals,
  * interface bodies, type literals and enums must list their keys in comparer order.
  * Nested containers are checked only as deep as the directive's `deep` option reaches.
  */
module SortKeysAnnotation {
  import opened Wrappers
  import opened Strings
  import opened Arrays
  import opened Ast
  import opened Config
  import opened Comparer
  import opened Report
  import opened SortDiff

  const AnnotationName: String := "@sort-keys"

  /**
    * What the depth gate finds: the anchoring declaration's config and the nesting
    * level of the node below it; nothing; or a throw, when the declaration has no
    * `@sort-keys` comment and `config.deepLevel` is read from `null`.
    */
  datatype Gate = Reached(config: Config, deepLevel: nat) | NotReached | NullConfigAccess

  /** `line => ConfigUtils.getConfig(sourceCode, '@sort-keys', line)`: the directive ending on `line`. */
  function ConfigAt(comments: seq<Comment>): int -> Option<Config> {
    (line: int) => GetConfig(comments, AnnotationName, line)
  }

  /** `types.includes(a.type)`, as a predicate on ancestors. */
  function TypeIn(types: seq<NodeType>): Ancestor -> bool {
    (a: Ancestor) => a.nodeType in types
  }

  /** The anchor's config against the level reached: `config.deepLevel < deepLevel` rejects. */
  function Decide(config: Option<Config>, level: nat): (g: Gate)
    ensures g.Reached? ==> g.deepLevel == level <= g.config.deepLevel
  {
    match config
    case None => NullConfigAccess
    case Some(c) => if c.deepLevel < level then NotReached else Reached(c, level)
  }

  /**
    * The depth gate, as a specification: the first ancestor whose type is in
    * `parentTypes` anchors the node; the level is 1 plus the number of ancestors up to
    * and including the anchor whose type is in `countingTypes`; the anchor's comment
    * must allow that level.
    */
  function ParentNodeConfig(configAt: int -> Option<Config>, ancestors: seq<Ancestor>, parentTypes: seq<NodeType>,
                            countingTypes: seq<NodeType>): (g: Gate)
    ensures g.Reached? ==> 1 <= g.deepLevel <= g.config.deepLevel
  {
    match FindIndex(ancestors, TypeIn(parentTypes))
    case None => NotReached
    case Some(k) =>
      var level := 1 + Count(ancestors[..k + 1], TypeIn(countingTypes));
      Decide(configAt(ancestors[k].line - 1), level)
  }

  lemma FirstAnchor(ancestors: seq<Ancestor>, parentTypes: seq<NodeType>, i: nat)
    requires i < |ancestors| && ancestors[i].nodeType in parentTypes
    requires forall j :: 0 <= j < i ==> ancestors[j].nodeType !in parentTypes
    ensures FindIndex(ancestors, TypeIn(parentTypes)) == Some(i)
  {
    var r := FindIndex(ancestors, TypeIn(parentTypes));
    assert r.Some?;
  }

  lemma AnchoredAt(configAt: int -> Option<Config>, ancestors: seq<Ancestor>, parentTypes: seq<NodeType>,
                   countingTypes: seq<NodeType>, k: nat)
    requires k < |ancestors| && ancestors[k].nodeType in parentTypes
    requires forall j :: 0 <= j < k ==> ancestors[j].nodeType !in parentTypes
    ensures ParentNodeConfig(configAt, ancestors, parentTypes, countingTypes)
      == Decide(configAt(ancestors[k].line - 1), 1 + Count(ancestors[..k + 1], TypeIn(countingTypes)))
  {
    FirstAnchor(ancestors, parentTypes, k);
  }

  lemma NoAnchor(ancestors: seq<Ancestor>, parentTypes: seq<NodeType>)
    requires forall j :: 0 <= j < |ancestors| ==> ancestors[j].nodeType !in parentTypes
    ensures FindIndex(ancestors, TypeIn(parentTypes)) == None
  {
  }

  /**
    * `getParentNodeConfig`: walks up from the node's parent, counting the ancestors of
    * a counting type, and stops at the first ancestor of a parent type.
    */
  method GetParentNodeConfig(configAt: int -> Option<Config>, ancestors: seq<Ancestor>, parentTypes: seq<NodeType>,
                             countingTypes: seq<NodeType>) returns (g: Gate)
    ensures g == ParentNodeConfig(configAt, ancestors, parentTypes, countingTypes)
  {
    var i := 0;
    var deepLevel := 1;
    while i < |ancestors|
      invariant 0 <= i <= |ancestors|
      invariant forall j :: 0 <= j < i ==> ancestors[j].nodeType !in parentTypes
      invariant deepLevel == 1 + Count(ancestors[..i], TypeIn(countingTypes))
    {
      var current := ancestors[i];
      if current.nodeType in countingTypes {
        deepLevel := deepLevel + 1;
      }
      assert deepLevel == 1 + Count(ancestors[..i + 1], TypeIn(countingTypes)) by {
        CountStep(ancestors, TypeIn(countingTypes), i);
      }
      if current.nodeType in parentTypes {
        var config := configAt(current.line - 1);
        AnchoredAt(configAt, ancestors, parentTypes, countingTypes, i);
        if config.None? {
          return NullConfigAccess;
        }
        if config.value.deepLevel < deepLevel {
          return NotReached;
        }
        return Reached(config.value, deepLevel);
      }
      i := i + 1;
    }
    NoAnchor(ancestors, parentTypes);
    return NotReached;
  }

  /** `getCurrentNodeConfig`: the directive in the comment ending just above the node itself. */
  function GetCurrentNodeConfig(comments: seq<Comment>, node: Container): (r: Option<Config>)
    ensures (forall k :: 0 <= k < |comments| ==> !EndsOn(comments[k], node.line - 1)) ==> r.None?
  {
    GetConfig(comments, AnnotationName, node.line - 1)
  }

  function MemberRange(m: Member): Option<Range> {
    Some(m.range)
  }

  /** A nested container's handler: gate, then sort-and-diff its members under the gate's config. */
  function GatedCheck(comments: seq<Comment>, node: Container, parentTypes: seq<NodeType>,
                      countingTypes: seq<NodeType>, makeComparer: bool -> (Member, Member) -> int): (o: Outcome)
    ensures o.TypeError? <==> ParentNodeConfig(ConfigAt(comments), node.ancestors, parentTypes, countingTypes).NullConfigAccess?
    ensures ParentNodeConfig(ConfigAt(comments), node.ancestors, parentTypes, countingTypes).NotReached? ==> o.NoReport?
  {
    match ParentNodeConfig(ConfigAt(comments), node.ancestors, parentTypes, countingTypes)
    case NotReached => NoReport
    case NullConfigAccess => TypeError
    case Reached(config, _) =>
      SortAndDiff(node.range, node.members, makeComparer(config.isReversed), MemberRange)
  }

  method OnNested(comments: seq<Comment>, node: Container, parentTypes: seq<NodeType>,
                  countingTypes: seq<NodeType>, makeComparer: bool -> (Member, Member) -> int) returns (o: Outcome)
    ensures o == GatedCheck(comments, node, parentTypes, countingTypes, makeComparer)
  {
    var result := GetParentNodeConfig(ConfigAt(comments), node.ancestors, parentTypes, countingTypes);
    match result
    case NotReached => o := NoReport;
    case NullConfigAccess => o := TypeError;
    case Reached(config, _) =>
      o := CheckAndReport(node.range, node.members, makeComparer(config.isReversed), MemberRange);
  }

  const ObjectAnchors: seq<NodeType> := [VariableDeclaration, TSTypeAliasDeclaration]
  const ObjectCounted: seq<NodeType> := [ObjectExpression]

  /** The `ObjectExpression` handler: anchored at a variable or type alias declaration, counting object literals. */
  method OnObjectExpression(comments: seq<Comment>, node: Container) returns (o: Outcome)
    ensures o == GatedCheck(comments, node, ObjectAnchors, ObjectCounted, MakeObjectPropertyComparer)
  {
    o := OnNested(comments, node, ObjectAnchors, ObjectCounted, MakeObjectPropertyComparer);
  }

  /** The `TSInterfaceBody` handler: anchored at an interface declaration, counting interface bodies. */
  method OnInterfaceBody(comments: seq<Comment>, node: Container) returns (o: Outcome)
    ensures o == GatedCheck(comments, node, [TSInterfaceDeclaration], [TSInterfaceBody], MakeInterfacePropertyComparer)
  {
    o := OnNested(comments, node, [TSInterfaceDeclaration], [TSInterfaceBody], MakeInterfacePropertyComparer);
  }

  /** The `TSTypeLiteral` handler: anchored at an interface or type alias, counting interface bodies and type literals. */
  method OnTypeLiteral(comments: seq<Comment>, node: Container) returns (o: Outcome)
    ensures o == GatedCheck(comments, node, [TSInterfaceDeclaration, TSTypeAliasDeclaration],
                            [TSInterfaceBody, TSTypeLiteral], MakeInterfacePropertyComparer)
  {
    o := OnNested(comments, node, [TSInterfaceDeclaration, TSTypeAliasDeclaration],
                  [TSInterfaceBody, TSTypeLiteral], MakeInterfacePropertyComparer);
  }

  /** The `TSEnumDeclaration` handler: the enum's own comment, no depth walk, and never a throw. */
  method OnEnumDeclaration(comments: seq<Comment>, node: Container) returns (o: Outcome)
    ensures GetCurrentNodeConfig(comments, node).None? ==> o == NoReport
    ensures GetCurrentNodeConfig(comments, node).Some? ==>
      o == SortAndDiff(node.range, node.members,
                       MakeEnumMemberComparer(GetCurrentNodeConfig(comments, node).value.isReversed), MemberRange)
    ensures !o.TypeError?
  {
    var config := GetCurrentNodeConfig(comments, node);
    if config.None? {
      return NoReport;
    }
    o := CheckAndReport(node.range, node.members, MakeEnumMemberComparer(config.value.isReversed), MemberRange);
  }

  /** `n` levels of object nesting, innermost first: each level is a `Property` inside an `ObjectExpression`. */
  function NestedInObjects(n: nat, line: int): (chain: seq<Ancestor>)
    ensures |chain| == 2 * n
    ensures forall j :: 0 <= j < |chain| ==> chain[j].nodeType in {Property, ObjectExpression}
  {
    if n == 0 then [] else NestedInObjects(n - 1, line) + [Ancestor(Property, line), Ancestor(ObjectExpression, line)]
  }

  lemma {:induction false} NestedInObjectsCount(n: nat, line: int)
    ensures Count(NestedInObjects(n, line), TypeIn(ObjectCounted)) == n
  {
    if n > 0 {
      var p := TypeIn(ObjectCounted);
      NestedInObjectsCount(n - 1, line);
      CountAppend(NestedInObjects(n - 1, line), [Ancestor(Property, line), Ancestor(ObjectExpression, line)], p);
    }
  }

  /** The ancestors of an object literal `n` levels inside `const x = { ... }`, parent first. */
  function UnderDeclaration(n: nat, line: int): (ancestors: seq<Ancestor>)
    ensures |ancestors| == 2 * n + 2
  {
    NestedInObjects(n, line) + [Ancestor(OtherType("VariableDeclarator"), line), Ancestor(VariableDeclaration, line)]
  }

  /** The declaration, last of the chain, is the first anchor. */
  lemma DeclarationAnchors(n: nat, line: int)
    ensures var ancestors := UnderDeclaration(n, line);
      && ancestors[2 * n + 1].nodeType in ObjectAnchors && ancestors[2 * n + 1].line == line
      && forall j :: 0 <= j < 2 * n + 1 ==> ancestors[j].nodeType !in ObjectAnchors
  {
  }

  /** The chain holds one object literal per level. */
  lemma DeclarationCount(n: nat, line: int)
    ensures Count(UnderDeclaration(n, line), TypeIn(ObjectCounted)) == n
  {
    var chain := NestedInObjects(n, line);
    var tail := [Ancestor(OtherType("VariableDeclarator"), line), Ancestor(VariableDeclaration, line)];
    var counted := TypeIn(ObjectCounted);
    assert Count(tail, counted) == 0 by {
      assert !counted(tail[0]) && !counted(tail[1]);
    }
    CountAppend(chain, tail, counted);
    NestedInObjectsCount(n, line);
  }

  /**
    * An object literal `n` levels inside `const x = { ... }` sits at level `n + 1`: it
    * is checked iff the declaration's directive allows that depth, and a declaration
    * without a directive makes the handler throw.
    */
  lemma NestedObjectGate(configAt: int -> Option<Config>, n: nat, line: int)
    ensures ParentNodeConfig(configAt, UnderDeclaration(n, line), ObjectAnchors, ObjectCounted)
        == match configAt(line - 1)
           case None => NullConfigAccess
           case Some(c) => if n + 1 <= c.deepLevel then Reached(c, n + 1) else NotReached
  {
    var ancestors := UnderDeclaration(n, line);
    var k := 2 * n + 1;
    DeclarationAnchors(n, line);
    AnchoredAt(configAt, ancestors, ObjectAnchors, ObjectCounted, k);
    assert ancestors[..k + 1] == ancestors;
    DeclarationCount(n, line);
  }
}
