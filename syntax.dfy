/**
 * The input a template hands to the parser, and the tree the parser builds.
 *
 * A template such as  css`a { color: ${x}; }`  reaches the grammar as a
 * sequence of text spans and interpolated values. The model flattens it into
 * one sequence of elements: every character of every text span is one `Ch`
 * element and every interpolated value is one `Interp` element, in source
 * order.
 */
module Syntax {

  datatype Option<+T> = None | Some(value: T)

  /** A JavaScript value spliced into the template. */
  datatype Embedded =
    | Str(s: string)        // a string
    | Fn(id: nat)           // a function; opaque, told apart only by an identifier
    | Tagged(node: Node)    // an object carrying a `tag`: a tree built by an earlier parse
    | Other                 // any other value: number, boolean, null, undefined, untagged object

  datatype Elem = Ch(c: char) | Interp(v: Embedded)

  type Input = seq<Elem>

  /** An element of a node's array: a text leaf or a nested node. */
  datatype Child = Text(s: string) | Sub(n: Node)

  /**
   * One constructor per production tag. The fields are the values the
   * production captures, in the order they appear in the node's array.
   */
  datatype Node =
    | ExtCss(v: Embedded)
    | ExtProperty(v: Embedded)
    | ExtValue(v: Embedded)
    | ExtSelector(v: Embedded)
    | ExtAt(v: Embedded)
    | Hex(text: string)
    | Id(text: string)
    | Important
    | Func(name: string, arg: Node)
    | PseudoArgs(sel: Option<Node>)
    | Pseudo(name: string, args: Option<Node>)
    | Attrib(name: string, op: string, str: string, flag: Option<string>)
    | SelectorTerm(parts: seq<Child>)
    | Combinator(op: string)
    | Selector(items: seq<Node>)
    | Value(lit: string, unit: Option<string>)
    | Term(t: Node)
    | Operator(op: string)
    | Expr(items: seq<Node>)
    | Declaration(prop: Node, value: Node, important: Option<Node>)
    | AtTerm(t: Node)
    | AtExpr(items: seq<Node>)
    | AtRule(name: string, expr: Option<Node>)
    | Rule(head: Node, body: Node)
    | Recover(text: string)
    | Set(items: seq<Node>)

  /** The `tag` property of a node: the name given to `match`. */
  function Tag(n: Node): string
  {
    match n
    case ExtCss(_) => "ext_css"
    case ExtProperty(_) => "ext_property"
    case ExtValue(_) => "ext_value"
    case ExtSelector(_) => "ext_selector"
    case ExtAt(_) => "ext_at"
    case Hex(_) => "hex"
    case Id(_) => "id"
    case Important => "important"
    case Func(_, _) => "func"
    case PseudoArgs(_) => "pseudo_args"
    case Pseudo(_, _) => "pseudo"
    case Attrib(_, _, _, _) => "attrib"
    case SelectorTerm(_) => "selector_term"
    case Combinator(_) => "combinator"
    case Selector(_) => "selector"
    case Value(_, _) => "value"
    case Term(_) => "term"
    case Operator(_) => "operator"
    case Expr(_) => "expr"
    case Declaration(_, _, _) => "declaration"
    case AtTerm(_) => "at_term"
    case AtExpr(_) => "at_expr"
    case AtRule(_, _) => "at_rule"
    case Rule(_, _) => "rule"
    case Recover(_) => "recover"
    case Set(_) => "set"
  }

  /** Turns a text span into input elements. */
  function Chars(t: string): (s: Input)
    ensures |s| == |t|
    ensures forall i | 0 <= i < |t| :: s[i] == Ch(t[i])
  {
    seq(|t|, i requires 0 <= i < |t| => Ch(t[i]))
  }
}
