/**
  * The part of the typescript-eslint syntax tree the rules read. Nodes are
  * values; two nodes are the same node (`===`) iff they are equal, which their
  * `id` makes true only of one node.
  */
module Ast {
  import opened Strings
  import opened Wrappers

  /** The `type` tag of a node; the types no rule names are `OtherType(name)`. */
  datatype NodeType =
    | Literal | Identifier | PrivateIdentifier | MemberExpression
    | Property | TSPropertySignature | TSEnumMember
    | ArrayExpression | ObjectExpression | TSInterfaceBody | TSTypeLiteral
    | VariableDeclaration | TSTypeAliasDeclaration | TSInterfaceDeclaration | TSEnumDeclaration
    | OtherType(name: String)

  type NonLiteralType = t: NodeType | t != Literal witness Identifier

  type OtherKeyType = t: NodeType | t !in {Literal, Identifier, PrivateIdentifier, MemberExpression}
    witness Property

  /** A node's `range`: character offsets into the source text. */
  datatype Range = Range(start: int, end: int)

  /**
    * The `value` of a `Literal` node. Numbers are modelled as integers;
    * `typeof` tags null and regular expressions alike as 'object'.
    */
  datatype LiteralValue =
    | NullValue
    | BooleanValue(b: bool)
    | NumberValue(n: int)
    | BigIntValue(i: int)
    | StringValue(s: String)
    | RegExpValue(pattern: String)

  /** What the array comparer can see of an element: a literal's value, or the type of any other node. */
  datatype Shape = LiteralNode(value: LiteralValue) | NonLiteralNode(nodeType: NonLiteralType)

  /** An array element (an Expression or SpreadElement); `text` is its slice of the source text. */
  datatype Element = Element(id: nat, shape: Shape, range: Range, text: String) {
    function Type(): NodeType {
      match shape
      case LiteralNode(_) => Literal
      case NonLiteralNode(t) => t
    }
  }

  /** An entry of `ArrayExpression.elements`: `None` is a hole, `[1, , 2]`. */
  type ArrayElement = Option<Element>

  /**
    * The `key` of a property or interface member, or the `id` of an enum member.
    * A literal key carries its string value (`None` for `null`).
    */
  datatype Key =
    | LiteralKey(value: Option<String>)
    | IdentifierKey(name: String)
    | PrivateIdentifierKey(name: String)
    | MemberKey(obj: Key, property: Key)
    | OtherKey(keyType: OtherKeyType)
  {
    function Type(): NodeType {
      match this
      case LiteralKey(_) => Literal
      case IdentifierKey(_) => Identifier
      case PrivateIdentifierKey(_) => PrivateIdentifier
      case MemberKey(_, _) => MemberExpression
      case OtherKey(t) => t
    }
  }

  /**
    * An object-literal element, a type element, or an enum member: its own `type`
    * (`Property`, `SpreadElement`, `TSPropertySignature`, `TSEnumMember`, ...),
    * its key and whether that key is computed (`[k]: v`).
    */
  datatype Member = Member(id: nat, memberType: NodeType, key: Key, computed: bool, range: Range)

  /** A node above the one being checked: its type and the line it starts on. */
  datatype Ancestor = Ancestor(nodeType: NodeType, line: int)

  /** An `ArrayExpression`: its range, start line and elements. */
  datatype ArrayNode = ArrayNode(range: Range, line: int, elements: seq<ArrayElement>)

  /**
    * An `ObjectExpression`, `TSInterfaceBody`, `TSTypeLiteral` or `TSEnumDeclaration`:
    * its range, start line, the nodes above it (parent first, up to the root) and its
    * `properties` / `body` / `members`.
    */
  datatype Container = Container(range: Range, line: int, ancestors: seq<Ancestor>, members: seq<Member>)
}
