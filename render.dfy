/**
 * The renderer of src/stringify.mjs: a tree back to CSS text.
 *
 * Rendering dispatches on the node's tag. Tags with a template of their own
 * use it; every other tag joins its children, separated by a space for
 * `expr`, `selector` and `at_expr`, by ";\n" for `set`, and by nothing
 * otherwise.
 *
 * The source's function is not total: for `pseudo_args` it calls itself on
 * the very same node and never returns, and for `pseudo` it renders the
 * node's second element, which is either such a `pseudo_args` node or
 * missing (`undefined`, whose `tag` cannot be read). Those outcomes are
 * modelled as errors, so that Stringify is a total function.
 */
module Render {
  import opened Syntax

  datatype RenderError =
    | StackOverflow   // the call on a pseudo_args node recurses on itself for ever
    | TypeError       // a pseudo node without arguments renders `undefined`
    | Unrenderable    // a spliced Other value, which the grammar never accepts

  datatype Rendered = Ok(text: string) | Err(error: RenderError)

  /** `pre + a + post`, or the error of `a`. */
  function Wrap(pre: string, a: Rendered, post: string): Rendered
  {
    match a
    case Ok(t) => Ok(pre + t + post)
    case Err(e) => Err(e)
  }

  /** `a + mid + b`, evaluated left to right: the first error wins. */
  function Join2(a: Rendered, mid: string, b: Rendered): Rendered
  {
    match a
    case Err(e) => Err(e)
    case Ok(x) =>
      match b
      case Err(e) => Err(e)
      case Ok(y) => Ok(x + mid + y)
  }

  /** The value wrapped by an ext_* node: itself if a string, its rendering if a tree, a placeholder if a function. */
  function StringifyEmbedded(v: Embedded): (r: Rendered)
    ensures v.Fn? ==> r == Ok("/*ext*/")
    ensures v.Str? ==> r == Ok(v.s)
    ensures v.Tagged? ==> r == Stringify(v.node)
    ensures v == Other ==> r.Err?
  {
    match v
    case Fn(_) => Ok("/*ext*/")
    case Str(t) => Ok(t)
    case Tagged(n) => Stringify(n)
    case Other => Err(Unrenderable)
  }

  /** A child of a node: a string is returned unchanged, a node is rendered. */
  function StringifyChild(c: Child): Rendered
  {
    match c
    case Text(t) => Ok(t)
    case Sub(n) => Stringify(n)
  }

  /**
   * `stringify(x)` for a node `x`. A leaf (an identifier, a colour,
   * `!important`, an attribute test, recovered text, a combinator, an
   * operator, a value) always renders; a pseudo_args node, and a pseudo node
   * without arguments, never do.
   */
  function Stringify(n: Node): (r: Rendered)
    ensures n.Id? || n.Hex? || n.Important? || n.Attrib? || n.Recover? || n.Combinator? || n.Operator? || n.Value? ==> r.Ok?
    ensures n.PseudoArgs? || (n.Pseudo? && n.args.None?) ==> r.Err?
  {
    match n
    case ExtCss(v) => StringifyEmbedded(v)
    case ExtProperty(v) => StringifyEmbedded(v)
    case ExtValue(v) => StringifyEmbedded(v)
    case ExtSelector(v) => StringifyEmbedded(v)
    case ExtAt(v) => StringifyEmbedded(v)
    case Id(t) => Ok(t)
    case Hex(t) => Ok(t)
    case Important => Ok("!important")
    case PseudoArgs(_) => Err(StackOverflow)
    case Pseudo(name, args) =>
      (match args
       case None => Err(TypeError)
       case Some(a) => Wrap(":" + name, Stringify(a), ""))
    case Attrib(name, op, str, flag) =>
      Ok("[" + name + op + str + (match flag case Some(f) => f case None => "") + "]")
    case Func(name, arg) => Wrap(name + "(", Stringify(arg), ")")
    case Declaration(prop, value, imp) =>
      var head := Join2(Stringify(prop), ": ", Stringify(value));
      (match imp
       case None => head
       case Some(i) => Join2(head, " ", Stringify(i)))
    case AtRule(name, expr) =>
      (match expr
       case None => Ok("@" + name + " ")
       case Some(e) => Wrap("@" + name + " ", Stringify(e), " "))
    case Rule(head, body) => Join2(Stringify(head), "{\n", Wrap("", Stringify(body), "\n}"))
    case Recover(t) => Ok("/*" + t + "*/")
    // Every other tag: the children joined by the tag's separator
    case SelectorTerm(parts) => JoinChildren(parts, "")
    case Combinator(op) => Ok(op)
    case Selector(items) => JoinNodes(items, " ")
    case Value(lit, unit) => Ok(lit + (match unit case Some(u) => u case None => ""))
    case Term(t) => Stringify(t)
    case Operator(op) => Ok(op)
    case Expr(items) => JoinNodes(items, " ")
    case AtTerm(t) => Stringify(t)
    case AtExpr(items) => JoinNodes(items, " ")
    case Set(items) => JoinNodes(items, ";\n")
  }

  /**
   * The loop of the default path, as a fold from the left: the separator
   * goes before every child but the first, and the first child that fails
   * to render ends the loop.
   */
  function JoinChildren(kids: seq<Child>, sep: string): (r: Rendered)
    ensures r.Ok? <==> forall i | 0 <= i < |kids| :: StringifyChild(kids[i]).Ok?
    ensures |kids| == 0 ==> r == Ok("")
  {
    if |kids| == 0 then Ok("")
    else
      match JoinChildren(kids[..|kids| - 1], sep)
      case Err(e) => Err(e)
      case Ok(prefix) =>
        match StringifyChild(kids[|kids| - 1])
        case Err(e) => Err(e)
        case Ok(t) => Ok(if |kids| == 1 then t else prefix + sep + t)
  }

  /** JoinChildren for children that are all nodes. */
  function JoinNodes(items: seq<Node>, sep: string): (r: Rendered)
    ensures r.Ok? <==> forall i | 0 <= i < |items| :: Stringify(items[i]).Ok?
    ensures |items| == 0 ==> r == Ok("")
  {
    if |items| == 0 then Ok("")
    else
      match JoinNodes(items[..|items| - 1], sep)
      case Err(e) => Err(e)
      case Ok(prefix) =>
        match Stringify(items[|items| - 1])
        case Err(e) => Err(e)
        case Ok(t) => Ok(if |items| == 1 then t else prefix + sep + t)
  }

  // ---------------------------------------------------------------------
  // The default path as the source writes it (stringify.mjs:4-13, 50-56)

  /** The tags without a case of their own in the switch. */
  predicate ByJoin(n: Node)
  {
    n.SelectorTerm? || n.Combinator? || n.Selector? || n.Value? || n.Term? || n.Operator?
    || n.Expr? || n.AtTerm? || n.AtExpr? || n.Set?
  }

  /** The separator the switch assigns. */
  function Separator(n: Node): (sep: string)
    ensures sep == " " <==> n.Expr? || n.Selector? || n.AtExpr?
    ensures sep == ";\n" <==> n.Set?
    ensures sep == "" <==> !(n.Expr? || n.Selector? || n.AtExpr? || n.Set?)
  {
    if n.Expr? || n.Selector? || n.AtExpr? then " "
    else if n.Set? then ";\n"
    else ""
  }

  function Subs(items: seq<Node>): (kids: seq<Child>)
    ensures |kids| == |items|
    ensures forall i | 0 <= i < |items| :: kids[i] == Sub(items[i])
  {
    seq(|items|, i requires 0 <= i < |items| => Sub(items[i]))
  }

  /** The node as the JavaScript array the grammar builds: its captured values in order. */
  function Kids(n: Node): seq<Child>
    requires ByJoin(n)
  {
    match n
    case SelectorTerm(parts) => parts
    case Combinator(op) => [Text(op)]
    case Selector(items) => Subs(items)
    case Value(lit, unit) => [Text(lit)] + (match unit case Some(u) => [Text(u)] case None => [])
    case Term(t) => [Sub(t)]
    case Operator(op) => [Text(op)]
    case Expr(items) => Subs(items)
    case AtTerm(t) => [Sub(t)]
    case AtExpr(items) => Subs(items)
    case Set(items) => Subs(items)
  }
}
