/** The part of the JSX syntax tree the rules look at. Text between tags
    is a `Literal` holding a string, as the parser the rules were written
    against produces it. */
module Jsx {
  import opened Base

  /** The value of a `Literal` node. */
  datatype LitValue =
    | LStr(s: string)
    | LNum(n: int)
    | LBool(b: bool)
    | LNull
    | LRegExp(source: string)

  datatype Node =
    | Literal(value: LitValue)
    | Identifier(name: string)
    | ExpressionContainer(expression: Node)                 // JSXExpressionContainer: `{expr}`
    | ObjectExpression(properties: seq<Property>)
    | Element(tag: Option<string>, attributes: seq<Attribute>, children: seq<Node>)
    | OtherNode(kind: string)                               // template literals, member accesses, calls, ...

  /** An attribute of an opening element. A `JsxAttribute` written without a
      value (`<input disabled/>`) has the value `null`, modelled as `None`. */
  datatype Attribute =
    | JsxAttribute(name: string, value: Option<Node>)
    | SpreadAttribute(argument: Node)

  /** A member of an object literal: `key: value`, or a spread `...arg`,
      which has no `value`. */
  datatype Property =
    | Property(key: string, value: Node)
    | SpreadElement(argument: Node)

  /** A configured regular expression, seen only through its `test`. */
  type Regex = string -> bool

  /** `node.openingElement.name.name` as `RegExp.prototype.test` sees it:
      an element named by a member expression (`<a.b>`) has no name and is
      tested as "undefined". */
  function NameText(name: Option<string>): string {
    match name
    case Some(n) => n
    case None => "undefined"
  }

  /** `if (node.type === 'JSXExpressionContainer') node = node.expression`. */
  function Unwrap(n: Node): Node {
    if n.ExpressionContainer? then n.expression else n
  }
}
