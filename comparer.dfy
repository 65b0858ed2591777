/**
  * The comparers that order array values, object and interface property keys and
  * enum members. Every comparer returns a number whose sign gives the order; the
  * reversed comparers negate it.
  */
module Comparer {
  import opened Wrappers
  import opened Strings
  import opened Ast
  import Arrays

  const AstNodeTypeOrders: seq<NodeType> := [Literal, Identifier, MemberExpression]
  const LiteralTypeOrders: seq<String> := ["null", "boolean", "number", "bigint", "string"]

  /** `getAstNodeTypeOrder`: the position of the type in `AstNodeTypeOrders`, or 3 for every other type. */
  function AstNodeTypeOrder(t: NodeType): (rank: nat)
    ensures rank <= |AstNodeTypeOrders|
    ensures rank < |AstNodeTypeOrders| <==> t in AstNodeTypeOrders
    ensures rank < |AstNodeTypeOrders| ==> AstNodeTypeOrders[rank] == t
  {
    if t in AstNodeTypeOrders then Arrays.IndexOf(AstNodeTypeOrders, t) else |AstNodeTypeOrders|
  }

  /** Literal 0, Identifier 1, MemberExpression 2, anything else 3. */
  lemma AstNodeTypeRanks(t: NodeType)
    ensures AstNodeTypeOrder(Literal) == 0 && AstNodeTypeOrder(Identifier) == 1
    ensures AstNodeTypeOrder(MemberExpression) == 2
    ensures t !in {Literal, Identifier, MemberExpression} ==> AstNodeTypeOrder(t) == 3
  {
  }

  /** JavaScript `typeof` of a literal value: null and regular expressions are both 'object', never 'null'. */
  function TypeOf(v: LiteralValue): (tag: String)
    ensures tag != "null"
    ensures tag == "object" <==> v.NullValue? || v.RegExpValue?
    ensures tag != "object" ==> tag in LiteralTypeOrders
  {
    match v
    case NullValue => "object"
    case BooleanValue(_) => "boolean"
    case NumberValue(_) => "number"
    case BigIntValue(_) => "bigint"
    case StringValue(_) => "string"
    case RegExpValue(_) => "object"
  }

  /** `getLiteralTypeOrder`: the position of the tag in `LiteralTypeOrders`, or 5 for any other tag. */
  function LiteralTypeOrder(tag: String): (rank: nat)
    ensures rank <= |LiteralTypeOrders|
    ensures rank < |LiteralTypeOrders| <==> tag in LiteralTypeOrders
    ensures rank < |LiteralTypeOrders| ==> LiteralTypeOrders[rank] == tag
  {
    if tag in LiteralTypeOrders then Arrays.IndexOf(LiteralTypeOrders, tag) else |LiteralTypeOrders|
  }

  /**
    * The rank of each literal: boolean 1, number 2, bigint 3, string 4. Since `typeof null`
    * is 'object', null ranks 5 with regular expressions, after strings; the 'null' entry
    * of the table is never used.
    */
  lemma LiteralRanks(v: LiteralValue)
    ensures LiteralTypeOrder(TypeOf(v)) == match v
      case NullValue => 5
      case BooleanValue(_) => 1
      case NumberValue(_) => 2
      case BigIntValue(_) => 3
      case StringValue(_) => 4
      case RegExpValue(_) => 5
  {
    assert "object" !in LiteralTypeOrders;
    assert LiteralTypeOrders[1] == "boolean" && LiteralTypeOrders[2] == "number";
    assert LiteralTypeOrders[3] == "bigint" && LiteralTypeOrders[4] == "string";
  }

  /** Different `typeof` tags always get different ranks. */
  lemma LiteralRankInjective(l: LiteralValue, r: LiteralValue)
    ensures TypeOf(l) != TypeOf(r) ==> LiteralTypeOrder(TypeOf(l)) != LiteralTypeOrder(TypeOf(r))
  {
    LiteralRanks(l);
    LiteralRanks(r);
  }

  /**
    * `compareLiterals`: by `typeof` rank first; within a tag false before true,
    * numbers and bigints numerically, strings lexically; two 'object' values tie.
    */
  function CompareLiterals(l: LiteralValue, r: LiteralValue): (c: int)
    ensures TypeOf(l) != TypeOf(r) ==>
      c != 0 && (c < 0 <==> LiteralTypeOrder(TypeOf(l)) < LiteralTypeOrder(TypeOf(r)))
    ensures l.BooleanValue? && r.BooleanValue? ==> (c == 0 <==> l.b == r.b) && (c < 0 <==> !l.b && r.b)
    ensures l.NumberValue? && r.NumberValue? ==> (c == 0 <==> l.n == r.n) && (c < 0 <==> l.n < r.n)
    ensures l.BigIntValue? && r.BigIntValue? ==> (c == 0 <==> l.i == r.i) && (c < 0 <==> l.i < r.i)
    ensures l.StringValue? && r.StringValue? ==> (c == 0 <==> l.s == r.s) && (c < 0 <==> Less(l.s, r.s))
    ensures TypeOf(l) == "object" && TypeOf(r) == "object" ==> c == 0
  {
    LiteralRankInjective(l, r);
    if TypeOf(l) != TypeOf(r) then
      LiteralTypeOrder(TypeOf(l)) - LiteralTypeOrder(TypeOf(r))
    else
      match (l, r)
      case (BooleanValue(a), BooleanValue(b)) => if a == b then 0 else if b then -1 else 1
      case (NumberValue(a), NumberValue(b)) => a - b
      case (BigIntValue(a), BigIntValue(b)) => if a == b then 0 else if a < b then -1 else 1
      case (StringValue(a), StringValue(b)) => Compare(a, b)
      case _ => 0
  }

  /** Swapping the operands negates the result exactly. */
  lemma CompareLiteralsAntisymmetric(l: LiteralValue, r: LiteralValue)
    ensures CompareLiterals(l, r) == -CompareLiterals(r, l)
  {
  }

  /** A value ties with itself, and ties only with itself unless both are 'object'-tagged. */
  lemma CompareLiteralsTies(l: LiteralValue, r: LiteralValue)
    ensures CompareLiterals(l, l) == 0
    ensures CompareLiterals(l, r) == 0 <==> l == r || (TypeOf(l) == "object" && TypeOf(r) == "object")
  {
    LiteralRankInjective(l, r);
  }

  /** The order `CompareLiterals(a, b) <= 0` is transitive: literals are a total preorder. */
  lemma CompareLiteralsTransitive(a: LiteralValue, b: LiteralValue, c: LiteralValue)
    requires CompareLiterals(a, b) <= 0 && CompareLiterals(b, c) <= 0
    ensures CompareLiterals(a, c) <= 0
  {
    LiteralRankInjective(a, b);
    LiteralRankInjective(b, c);
    LiteralRankInjective(a, c);
    if TypeOf(a) == TypeOf(b) == TypeOf(c) && a.StringValue? {
      CompareTransitive(a.s, b.s, c.s);
    }
  }

  /** The name of an `Identifier` or `PrivateIdentifier` key. */
  predicate IsName(k: Key) {
    k.IdentifierKey? || k.PrivateIdentifierKey?
  }

  /** An `a.b` or `a.#b` key: a member expression whose object is an identifier and whose property is a name. */
  predicate IsNamedMember(k: Key) {
    k.MemberKey? && k.obj.IdentifierKey? && IsName(k.property)
  }

  /**
    * `compareProperty`: two literal keys by their string value (null as "");
    * two identifier keys, and two `a.b` member keys whose object is an identifier,
    * put computed keys last and then compare names; otherwise by node type rank.
    */
  function CompareProperty(l: Member, r: Member): (c: int)
    ensures l.key.LiteralKey? && r.key.LiteralKey? ==>
      var a, b := l.key.value.GetOr(""), r.key.value.GetOr("");
      (c == 0 <==> a == b) && (c < 0 <==> Less(a, b))
    ensures (l.key.IdentifierKey? && r.key.IdentifierKey?) || (IsNamedMember(l.key) && IsNamedMember(r.key)) ==>
      l.computed != r.computed ==> (c < 0 <==> r.computed) && c != 0
    ensures l.key.IdentifierKey? && r.key.IdentifierKey? && l.computed == r.computed ==>
      (c == 0 <==> l.key.name == r.key.name) && (c < 0 <==> Less(l.key.name, r.key.name))
    ensures IsNamedMember(l.key) && IsNamedMember(r.key) && l.computed == r.computed ==>
      var lo, ro, lp, rp := l.key.obj.name, r.key.obj.name, l.key.property.name, r.key.property.name;
      (c == 0 <==> lo == ro && lp == rp) && (c < 0 <==> Less(lo, ro) || (lo == ro && Less(lp, rp)))
    ensures l.key.Type() != r.key.Type() ==>
      var lr, rr := AstNodeTypeOrder(l.key.Type()), AstNodeTypeOrder(r.key.Type());
      (c == 0 <==> lr == rr) && (c < 0 <==> lr < rr)
    ensures (l.key.Type() == r.key.Type() && !l.key.LiteralKey? && !l.key.IdentifierKey?
      && !(IsNamedMember(l.key) && IsNamedMember(r.key))) ==> c == 0
  {
    match (l.key, r.key)
    case (LiteralKey(a), LiteralKey(b)) => Compare(a.GetOr(""), b.GetOr(""))
    case (IdentifierKey(a), IdentifierKey(b)) =>
      if l.computed != r.computed then (if l.computed then 1 else -1)
      else Compare(a, b)
    case (MemberKey(lo, lp), MemberKey(ro, rp)) =>
      if lo.IdentifierKey? && ro.IdentifierKey? && IsName(lp) && IsName(rp) then
        if l.computed != r.computed then (if l.computed then 1 else -1)
        else if lo.name != ro.name then Compare(lo.name, ro.name)
        else Compare(lp.name, rp.name)
      else AstNodeTypeOrder(l.key.Type()) - AstNodeTypeOrder(r.key.Type())
    case _ => AstNodeTypeOrder(l.key.Type()) - AstNodeTypeOrder(r.key.Type())
  }

  /** `makeObjectPropertyComparer`'s inner comparer: only two `Property` elements are ordered. */
  function ObjectPropertyCompare(l: Member, r: Member): (c: int)
    ensures l.memberType == Property && r.memberType == Property ==> c == CompareProperty(l, r)
    ensures c != 0 ==> l.memberType == Property && r.memberType == Property
  {
    if l.memberType == Property && r.memberType == Property then CompareProperty(l, r) else 0
  }

  /** `makeInterfacePropertyComparer`'s inner comparer: only two `TSPropertySignature` elements are ordered. */
  function InterfacePropertyCompare(l: Member, r: Member): (c: int)
    ensures l.memberType == TSPropertySignature && r.memberType == TSPropertySignature ==> c == CompareProperty(l, r)
    ensures c != 0 ==> l.memberType == TSPropertySignature && r.memberType == TSPropertySignature
  {
    if l.memberType == TSPropertySignature && r.memberType == TSPropertySignature then CompareProperty(l, r) else 0
  }

  /** The literal value of an enum member's literal id. */
  function KeyLiteral(v: Option<String>): LiteralValue {
    match v
    case None => NullValue
    case Some(s) => StringValue(s)
  }

  /** `makeEnumMemberComparer`'s inner comparer: literal ids as literals, identifier ids by name, else by type rank. */
  function EnumMemberCompare(l: Member, r: Member): (c: int)
    ensures l.key.LiteralKey? && r.key.LiteralKey? ==> c == CompareLiterals(KeyLiteral(l.key.value), KeyLiteral(r.key.value))
    ensures l.key.IdentifierKey? && r.key.IdentifierKey? ==>
      (c == 0 <==> l.key.name == r.key.name) && (c < 0 <==> Less(l.key.name, r.key.name))
    ensures l.key.Type() != r.key.Type() ==>
      var lr, rr := AstNodeTypeOrder(l.key.Type()), AstNodeTypeOrder(r.key.Type());
      (c == 0 <==> lr == rr) && (c < 0 <==> lr < rr)
  {
    match (l.key, r.key)
    case (LiteralKey(a), LiteralKey(b)) => CompareLiterals(KeyLiteral(a), KeyLiteral(b))
    case (IdentifierKey(a), IdentifierKey(b)) => Compare(a, b)
    case _ => AstNodeTypeOrder(l.key.Type()) - AstNodeTypeOrder(r.key.Type())
  }

  /**
    * `makeArrayValueComparer`'s inner comparer: a hole ties with anything; two literals
    * compare as literals; two nodes of one other type compare their source text; nodes
    * of different types compare by type rank.
    */
  function ArrayValueCompare(l: ArrayElement, r: ArrayElement): (c: int)
    ensures l.None? || r.None? ==> c == 0
    ensures l.Some? && r.Some? && l.value.shape.LiteralNode? && r.value.shape.LiteralNode? ==>
      c == CompareLiterals(l.value.shape.value, r.value.shape.value)
    ensures l.Some? && r.Some? && l.value.Type() == r.value.Type() != Literal ==>
      (c == 0 <==> l.value.text == r.value.text) && (c < 0 <==> Less(l.value.text, r.value.text))
    ensures l.Some? && r.Some? && l.value.Type() != r.value.Type() ==>
      var lr, rr := AstNodeTypeOrder(l.value.Type()), AstNodeTypeOrder(r.value.Type());
      (c == 0 <==> lr == rr) && (c < 0 <==> lr < rr)
  {
    if l.None? || r.None? then 0
    else if l.value.shape.LiteralNode? && r.value.shape.LiteralNode? then
      CompareLiterals(l.value.shape.value, r.value.shape.value)
    else if l.value.Type() == r.value.Type() then
      Compare(l.value.text, r.value.text)
    else
      AstNodeTypeOrder(l.value.Type()) - AstNodeTypeOrder(r.value.Type())
  }

  /** The comparer `(l, r) => -cmp(l, r)` that each factory returns when `isReversed`: same ties, opposite order. */
  function Reverse<T(!new)>(cmp: (T, T) -> int): (rev: (T, T) -> int)
    ensures forall l, r :: (rev(l, r) == 0 <==> cmp(l, r) == 0) && (rev(l, r) < 0 <==> cmp(l, r) > 0)
  {
    (l: T, r: T) => -cmp(l, r)
  }

  /**
    * Each factory returns a comparer that negates on swapped operands, and whose
    * reversed form is the forward comparer with the operands swapped.
    */
  function MakeObjectPropertyComparer(isReversed: bool): (cmp: (Member, Member) -> int)
    ensures forall l, r :: cmp(l, r) == -cmp(r, l)
    ensures forall l, r :: cmp(l, r) == if isReversed then ObjectPropertyCompare(r, l) else ObjectPropertyCompare(l, r)
  {
    assert forall l, r :: ObjectPropertyCompare(l, r) == -ObjectPropertyCompare(r, l) by {
      forall l, r ensures ObjectPropertyCompare(l, r) == -ObjectPropertyCompare(r, l) {
        CompareMembersAntisymmetric(l, r);
      }
    }
    if isReversed then Reverse(ObjectPropertyCompare) else ObjectPropertyCompare
  }

  function MakeInterfacePropertyComparer(isReversed: bool): (cmp: (Member, Member) -> int)
    ensures forall l, r :: cmp(l, r) == -cmp(r, l)
    ensures forall l, r :: cmp(l, r) == if isReversed then InterfacePropertyCompare(r, l) else InterfacePropertyCompare(l, r)
  {
    assert forall l, r :: InterfacePropertyCompare(l, r) == -InterfacePropertyCompare(r, l) by {
      forall l, r ensures InterfacePropertyCompare(l, r) == -InterfacePropertyCompare(r, l) {
        CompareMembersAntisymmetric(l, r);
      }
    }
    if isReversed then Reverse(InterfacePropertyCompare) else InterfacePropertyCompare
  }

  function MakeEnumMemberComparer(isReversed: bool): (cmp: (Member, Member) -> int)
    ensures forall l, r :: cmp(l, r) == -cmp(r, l)
    ensures forall l, r :: cmp(l, r) == if isReversed then EnumMemberCompare(r, l) else EnumMemberCompare(l, r)
  {
    assert forall l, r :: EnumMemberCompare(l, r) == -EnumMemberCompare(r, l) by {
      forall l, r ensures EnumMemberCompare(l, r) == -EnumMemberCompare(r, l) {
        CompareMembersAntisymmetric(l, r);
      }
    }
    if isReversed then Reverse(EnumMemberCompare) else EnumMemberCompare
  }

  function MakeArrayValueComparer(isReversed: bool): (cmp: (ArrayElement, ArrayElement) -> int)
    ensures forall l, r :: cmp(l, r) == -cmp(r, l)
    ensures forall l, r :: cmp(l, r) == if isReversed then ArrayValueCompare(r, l) else ArrayValueCompare(l, r)
  {
    assert forall l, r :: ArrayValueCompare(l, r) == -ArrayValueCompare(r, l) by {
      forall l, r ensures ArrayValueCompare(l, r) == -ArrayValueCompare(r, l) {
        ArrayValueCompareAntisymmetric(l, r);
      }
    }
    if isReversed then Reverse(ArrayValueCompare) else ArrayValueCompare
  }

  /** Swapping the operands of any property comparer negates its result exactly. */
  lemma CompareMembersAntisymmetric(l: Member, r: Member)
    ensures CompareProperty(l, r) == -CompareProperty(r, l)
    ensures ObjectPropertyCompare(l, r) == -ObjectPropertyCompare(r, l)
    ensures InterfacePropertyCompare(l, r) == -InterfacePropertyCompare(r, l)
    ensures EnumMemberCompare(l, r) == -EnumMemberCompare(r, l)
  {
    if l.key.LiteralKey? && r.key.LiteralKey? {
      CompareLiteralsAntisymmetric(KeyLiteral(l.key.value), KeyLiteral(r.key.value));
    }
  }

  lemma ArrayValueCompareAntisymmetric(l: ArrayElement, r: ArrayElement)
    ensures ArrayValueCompare(l, r) == -ArrayValueCompare(r, l)
  {
    if l.Some? && r.Some? && l.value.shape.LiteralNode? && r.value.shape.LiteralNode? {
      CompareLiteralsAntisymmetric(l.value.shape.value, r.value.shape.value);
    }
  }

  /**
    * `compareProperty` is not transitive: with computed member keys, `[a.x]` sorts
    * before `[b.z]`, yet both tie with `[f().y]`, whose object is a call and so falls
    * back to the type rank, equal for all three.
    */
  lemma PropertyCompareNotTransitive(rg: Range)
    ensures var ax := Member(0, Property, MemberKey(IdentifierKey("a"), IdentifierKey("x")), true, rg);
      var fy := Member(1, Property, MemberKey(OtherKey(OtherType("CallExpression")), IdentifierKey("y")), true, rg);
      var bz := Member(2, Property, MemberKey(IdentifierKey("b"), IdentifierKey("z")), true, rg);
      && ObjectPropertyCompare(ax, fy) == 0 && ObjectPropertyCompare(fy, bz) == 0
      && ObjectPropertyCompare(ax, bz) < 0
  {
    assert Less("a", "b");
  }

  /** A key that is a string literal, null, or a plain identifier. */
  predicate IsSimpleKey(k: Key) {
    k.LiteralKey? || k.IdentifierKey?
  }

  /** On literal and identifier keys `CompareProperty(a, b) <= 0` is transitive. */
  lemma PropertyCompareTransitiveOnSimpleKeys(a: Member, b: Member, c: Member)
    requires IsSimpleKey(a.key) && IsSimpleKey(b.key) && IsSimpleKey(c.key)
    requires CompareProperty(a, b) <= 0 && CompareProperty(b, c) <= 0
    ensures CompareProperty(a, c) <= 0
  {
    AstNodeTypeRanks(Literal);
    if a.key.LiteralKey? && b.key.LiteralKey? && c.key.LiteralKey? {
      CompareTransitive(a.key.value.GetOr(""), b.key.value.GetOr(""), c.key.value.GetOr(""));
    } else if a.key.IdentifierKey? && b.key.IdentifierKey? && c.key.IdentifierKey?
      && a.computed == b.computed == c.computed
    {
      CompareTransitive(a.key.name, b.key.name, c.key.name);
    }
  }

  /**
    * Two present elements the array comparer orders consistently: they are not two
    * nodes of different types that both rank 3 (which tie although each ties
    * differently with a third node of either type).
    */
  predicate Comparable(l: ArrayElement, r: ArrayElement) {
    && l.Some? && r.Some?
    && (AstNodeTypeOrder(l.value.Type()) == 3 && AstNodeTypeOrder(r.value.Type()) == 3
        ==> l.value.Type() == r.value.Type())
  }

  lemma RankDistinguishes(l: ArrayElement, r: ArrayElement)
    requires Comparable(l, r)
    ensures l.value.Type() != r.value.Type() ==> AstNodeTypeOrder(l.value.Type()) != AstNodeTypeOrder(r.value.Type())
  {
  }

  /** On comparable elements `ArrayValueCompare(a, b) <= 0` is transitive. */
  lemma ArrayValueCompareTransitive(a: ArrayElement, b: ArrayElement, c: ArrayElement)
    requires Comparable(a, b) && Comparable(b, c) && Comparable(a, c)
    requires ArrayValueCompare(a, b) <= 0 && ArrayValueCompare(b, c) <= 0
    ensures ArrayValueCompare(a, c) <= 0
  {
    if a.value.Type() == b.value.Type() == c.value.Type() {
      SameTypeTransitive(a, b, c);
    } else {
      MixedTypesTransitive(a, b, c);
    }
  }

  /** Three elements of one type: literals compare as literals, other nodes by source text. */
  lemma SameTypeTransitive(a: ArrayElement, b: ArrayElement, c: ArrayElement)
    requires a.Some? && b.Some? && c.Some? && a.value.Type() == b.value.Type() == c.value.Type()
    requires ArrayValueCompare(a, b) <= 0 && ArrayValueCompare(b, c) <= 0
    ensures ArrayValueCompare(a, c) <= 0
  {
    if a.value.Type() == Literal {
      CompareLiteralsTransitive(a.value.shape.value, b.value.shape.value, c.value.shape.value);
    } else {
      CompareTransitive(a.value.text, b.value.text, c.value.text);
    }
  }

  /** Elements of more than one type: the ordered pairs follow the type ranks. */
  lemma MixedTypesTransitive(a: ArrayElement, b: ArrayElement, c: ArrayElement)
    requires Comparable(a, b) && Comparable(b, c) && Comparable(a, c)
    requires !(a.value.Type() == b.value.Type() == c.value.Type())
    requires ArrayValueCompare(a, b) <= 0 && ArrayValueCompare(b, c) <= 0
    ensures ArrayValueCompare(a, c) <= 0
  {
    RankDistinguishes(a, b);
    RankDistinguishes(b, c);
    RankDistinguishes(a, c);
  }
}
