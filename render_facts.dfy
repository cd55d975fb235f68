/**
 * What the renderer of src/stringify.mjs guarantees: which trees it can
 * render at all, how the default path joins a node's children, and the
 * loop of that path written out as the source writes it.
 */
module RenderFacts {
  import opened Syntax
  import opened Lexer
  import opened Grammar
  import opened GrammarFacts
  import opened Render

  // ---------------------------------------------------------------------
  // Which trees render

  /**
   * The trees Stringify renders without error: no pseudo_args node, every
   * pseudo node has an argument, and no splice holds an Other value.
   */
  predicate Renderable(n: Node)
  {
    match n
    case ExtCss(v) => EmbeddedRenderable(v)
    case ExtProperty(v) => EmbeddedRenderable(v)
    case ExtValue(v) => EmbeddedRenderable(v)
    case ExtSelector(v) => EmbeddedRenderable(v)
    case ExtAt(v) => EmbeddedRenderable(v)
    case PseudoArgs(_) => false
    case Pseudo(_, args) => args.Some? && Renderable(args.value)
    case Func(_, arg) => Renderable(arg)
    case Declaration(prop, value, imp) => Renderable(prop) && Renderable(value) && (imp.Some? ==> Renderable(imp.value))
    case AtRule(_, e) => e.Some? ==> Renderable(e.value)
    case Rule(head, body) => Renderable(head) && Renderable(body)
    case SelectorTerm(parts) => forall j | 0 <= j < |parts| :: ChildRenderable(parts[j])
    case Selector(items) => forall i | 0 <= i < |items| :: Renderable(items[i])
    case Expr(items) => forall i | 0 <= i < |items| :: Renderable(items[i])
    case AtExpr(items) => forall i | 0 <= i < |items| :: Renderable(items[i])
    case Set(items) => forall i | 0 <= i < |items| :: Renderable(items[i])
    case Term(t) => Renderable(t)
    case AtTerm(t) => Renderable(t)
    case _ => true
  }

  predicate EmbeddedRenderable(v: Embedded)
  {
    match v
    case Tagged(m) => Renderable(m)
    case Other => false
    case _ => true
  }

  predicate ChildRenderable(c: Child)
  {
    match c
    case Text(_) => true
    case Sub(m) => Renderable(m)
  }

  /** Rendering succeeds exactly on the renderable trees. */
  lemma {:induction false} RenderOkIff(n: Node)
    ensures Stringify(n).Ok? <==> Renderable(n)
    decreases n, 2
  {
    if n.ExtCss? || n.ExtProperty? || n.ExtValue? || n.ExtSelector? || n.ExtAt? {
      EmbeddedOkIff(n.v);
    } else if n.Pseudo? || n.Func? || n.AtRule? || n.Term? || n.AtTerm? {
      WrapperOkIff(n);
    } else if n.Declaration? || n.Rule? {
      PairOkIff(n);
    } else if n.SelectorTerm? {
      PartsOkIff(n);
    } else if n.Selector? || n.Expr? || n.AtExpr? || n.Set? {
      ItemsOkIff(n.items, Separator(n));
    }
  }

  /** The tags that render one optional child inside a template. */
  lemma {:induction false} WrapperOkIff(n: Node)
    requires n.Pseudo? || n.Func? || n.AtRule? || n.Term? || n.AtTerm?
    ensures Stringify(n).Ok? <==> Renderable(n)
    decreases n, 1
  {
    match n
    case Pseudo(_, args) => if args.Some? { RenderOkIff(args.value); }
    case Func(_, arg) => RenderOkIff(arg);
    case AtRule(_, e) => if e.Some? { RenderOkIff(e.value); }
    case Term(t) => RenderOkIff(t);
    case AtTerm(t) => RenderOkIff(t);
  }

  /** The tags that render two or three children inside a template. */
  lemma {:induction false} PairOkIff(n: Node)
    requires n.Declaration? || n.Rule?
    ensures Stringify(n).Ok? <==> Renderable(n)
    decreases n, 1
  {
    match n
    case Declaration(prop, value, imp) =>
      RenderOkIff(prop);
      RenderOkIff(value);
      if imp.Some? { RenderOkIff(imp.value); }
    case Rule(head, body) =>
      RenderOkIff(head);
      RenderOkIff(body);
  }

  lemma {:induction false} PartsOkIff(n: Node)
    requires n.SelectorTerm?
    ensures Stringify(n).Ok? <==> Renderable(n)
    decreases n, 1
  {
    var parts := n.parts;
    forall j | 0 <= j < |parts|
      ensures StringifyChild(parts[j]).Ok? <==> ChildRenderable(parts[j])
    {
      if parts[j].Sub? { RenderOkIff(parts[j].n); }
    }
  }

  lemma {:induction false} EmbeddedOkIff(v: Embedded)
    ensures StringifyEmbedded(v).Ok? <==> EmbeddedRenderable(v)
    decreases v
  {
    if v.Tagged? { RenderOkIff(v.node); }
  }

  lemma {:induction false} ItemsOkIff(items: seq<Node>, sep: string)
    ensures JoinNodes(items, sep).Ok? <==> forall i | 0 <= i < |items| :: Renderable(items[i])
    decreases items, 1
  {
    forall i | 0 <= i < |items|
      ensures Stringify(items[i]).Ok? <==> Renderable(items[i])
    {
      RenderOkIff(items[i]);
    }
  }

  /** A pseudo-class read by the grammar never renders: it has no argument, or its argument is a pseudo_args node. */
  lemma ParsedPseudoNeverRenders(s: Input, p: nat)
    requires p <= |s|
    ensures ParsePseudo(s, p).Match? ==> Stringify(ParsePseudo(s, p).value).Err?
  {
    PseudoFacts(s, p);
  }

  /** A pseudo node without an argument, or with a pseudo_args one, fails; by RenderOkIff so does every tree holding it. */
  lemma PseudoFails(name: string, args: Option<Node>)
    requires args.Some? ==> args.value.PseudoArgs?
    ensures !Renderable(Pseudo(name, args))
    ensures Stringify(Pseudo(name, args)).Err?
  {
    RenderOkIff(Pseudo(name, args));
  }

  // ---------------------------------------------------------------------
  // The default path: joining the children

  /**
   * An independent statement of the join: the texts with the separator
   * between each two neighbours, built from the right.
   */
  function Intercalate(texts: seq<string>, sep: string): string
  {
    if |texts| == 0 then ""
    else if |texts| == 1 then texts[0]
    else texts[0] + sep + Intercalate(texts[1..], sep)
  }

  lemma {:induction false} IntercalateSnoc(texts: seq<string>, sep: string, t: string)
    requires |texts| > 0
    ensures Intercalate(texts + [t], sep) == Intercalate(texts, sep) + sep + t
    decreases |texts|
  {
    if |texts| == 1 {
      assert (texts + [t])[1..] == [t];
    } else {
      assert (texts + [t])[1..] == texts[1..] + [t];
      IntercalateSnoc(texts[1..], sep, t);
    }
  }

  /** When every child renders, the join is their texts with the separator between each two neighbours. */
  lemma {:induction false} JoinIsIntercalate(kids: seq<Child>, sep: string, texts: seq<string>)
    requires |texts| == |kids|
    requires forall i | 0 <= i < |kids| :: StringifyChild(kids[i]) == Ok(texts[i])
    ensures JoinChildren(kids, sep) == Ok(Intercalate(texts, sep))
    decreases |kids|
  {
    if |kids| > 1 {
      var n := |kids| - 1;
      JoinIsIntercalate(kids[..n], sep, texts[..n]);
      IntercalateSnoc(texts[..n], sep, texts[n]);
      assert texts[..n] + [texts[n]] == texts;
    }
  }

  /** Once a prefix of the children fails, the whole join fails the same way. */
  lemma {:induction false} JoinErrorPropagates(kids: seq<Child>, sep: string, k: nat)
    requires k <= |kids| && JoinChildren(kids[..k], sep).Err?
    ensures JoinChildren(kids, sep) == JoinChildren(kids[..k], sep)
    decreases |kids|
  {
    if k < |kids| {
      var n := |kids| - 1;
      assert kids[..n][..k] == kids[..k];
      JoinErrorPropagates(kids[..n], sep, k);
    } else {
      assert kids[..k] == kids;
    }
  }

  /** The join fails with the error of the first child that fails. */
  lemma JoinFirstError(kids: seq<Child>, sep: string, k: nat)
    requires k < |kids| && JoinChildren(kids[..k], sep).Ok? && StringifyChild(kids[k]).Err?
    ensures JoinChildren(kids, sep) == StringifyChild(kids[k])
  {
    assert kids[..k + 1][..k] == kids[..k];
    JoinErrorPropagates(kids, sep, k + 1);
  }

  lemma {:induction false} JoinNodesIsJoinChildren(items: seq<Node>, sep: string)
    ensures JoinNodes(items, sep) == JoinChildren(Subs(items), sep)
    decreases |items|
  {
    if |items| > 0 {
      var n := |items| - 1;
      JoinNodesIsJoinChildren(items[..n], sep);
      SubsPrefix(items, n);
      var kids := Subs(items);
      assert JoinChildren(kids, sep) == JoinLast(JoinChildren(kids[..n], sep), StringifyChild(kids[n]), n == 0, sep);
      assert JoinNodes(items, sep) == JoinLast(JoinNodes(items[..n], sep), Stringify(items[n]), n == 0, sep);
    }
  }

  /** One round of the loop: the prefix so far, then the last child. */
  function JoinLast(prefix: Rendered, last: Rendered, first: bool, sep: string): Rendered
  {
    match prefix
    case Err(e) => Err(e)
    case Ok(p) =>
      match last
      case Err(e) => Err(e)
      case Ok(t) => Ok(if first then t else p + sep + t)
  }

  lemma SubsPrefix(items: seq<Node>, n: nat)
    requires n < |items|
    ensures Subs(items)[..n] == Subs(items[..n]) && Subs(items)[n] == Sub(items[n])
  {
  }

  /**
   * A node without a template of its own renders as the loop at the end of
   * the source renders it: its array of children, joined by the separator
   * the switch assigns to its tag.
   */
  lemma DefaultPathIsJoin(n: Node)
    requires ByJoin(n)
    ensures Stringify(n) == JoinChildren(Kids(n), Separator(n))
  {
    if n.Selector? || n.Expr? || n.AtExpr? || n.Set? {
      ListIsJoin(n);
    } else if n.Value? {
      ValueIsJoin(n.lit, n.unit);
    } else if n.Term? || n.AtTerm? || n.Combinator? || n.Operator? {
      SingleIsJoin(n);
    }
  }

  lemma ListIsJoin(n: Node)
    requires n.Selector? || n.Expr? || n.AtExpr? || n.Set?
    ensures Stringify(n) == JoinChildren(Kids(n), Separator(n))
  {
    var sep := Separator(n);
    assert sep == if n.Set? then ";\n" else " ";
    assert Stringify(n) == JoinNodes(n.items, sep);
    assert Kids(n) == Subs(n.items);
    JoinNodesIsJoinChildren(n.items, sep);
  }

  /** The tags whose array holds a single child render as that child. */
  lemma SingleIsJoin(n: Node)
    requires n.Term? || n.AtTerm? || n.Combinator? || n.Operator?
    ensures Stringify(n) == JoinChildren(Kids(n), "")
    ensures Separator(n) == ""
  {
    var kids := Kids(n);
    assert |kids| == 1 && kids[..0] == [];
  }

  lemma ValueIsJoin(lit: string, unit: Option<string>)
    ensures Stringify(Value(lit, unit)) == JoinChildren(Kids(Value(lit, unit)), "")
  {
    var kids := Kids(Value(lit, unit));
    assert kids[..1] == [Text(lit)];
    assert JoinChildren(kids[..1], "") == Ok(lit);
    if unit.Some? {
      assert kids[1] == Text(unit.value);
      assert lit + "" + unit.value == lit + unit.value;
    }
  }

  /**
   * When every child renders, a node without a template of its own renders
   * as the children's texts with the tag's separator between each two
   * neighbours: one space in a value expression, a selector and an
   * at-expression, ";\n" between the items of a set, nothing elsewhere.
   */
  lemma DefaultPathIsIntercalate(n: Node, texts: seq<string>)
    requires ByJoin(n)
    requires |texts| == |Kids(n)|
    requires forall i | 0 <= i < |texts| :: StringifyChild(Kids(n)[i]) == Ok(texts[i])
    ensures Stringify(n) == Ok(Intercalate(texts, Separator(n)))
    ensures n.Expr? || n.Selector? || n.AtExpr? ==> Stringify(n) == Ok(Intercalate(texts, " "))
    ensures n.Set? ==> Stringify(n) == Ok(Intercalate(texts, ";\n"))
  {
    DefaultPathIsJoin(n);
    JoinIsIntercalate(Kids(n), Separator(n), texts);
  }

  /**
   * The default path as the source runs it: the separator chosen by the
   * switch, then a loop over the children that puts the separator before
   * every child but the first. A child that fails to render ends it.
   */
  method RenderByJoin(n: Node) returns (r: Rendered)
    requires ByJoin(n)
    ensures r == Stringify(n)
  {
    var separator := "";
    if n.Expr? || n.Selector? || n.AtExpr? {
      separator := " ";
    } else if n.Set? {
      separator := ";\n";
    }
    var kids := Kids(n);
    var output := "";
    var i := 0;
    while i < |kids|
      invariant 0 <= i <= |kids|
      invariant JoinChildren(kids[..i], separator) == Ok(output)
    {
      var t := StringifyChild(kids[i]);
      if t.Err? {
        JoinFirstError(kids, separator, i);
        DefaultPathIsJoin(n);
        return t;
      }
      if i != 0 {
        output := output + separator;
      }
      output := output + t.text;
      assert kids[..i + 1][..i] == kids[..i];
      i := i + 1;
    }
    assert kids[..i] == kids;
    DefaultPathIsJoin(n);
    r := Ok(output);
  }

  // ---------------------------------------------------------------------
  // The templates (stringify.mjs:15-47)

  /** A splice renders as the string it holds, as the tree it holds, or as a placeholder for a function. */
  lemma SpliceRendering(v: Embedded)
    ensures v.Fn? ==> Stringify(ExtValue(v)) == Ok("/*ext*/")
    ensures v.Str? ==> Stringify(ExtValue(v)) == Ok(v.s)
    ensures v.Tagged? ==> Stringify(ExtCss(v)) == Stringify(v.node) && Stringify(ExtValue(v)) == Stringify(v.node)
    ensures StringifyEmbedded(v) == Stringify(ExtCss(v)) == Stringify(ExtProperty(v)) == Stringify(ExtValue(v))
      == Stringify(ExtSelector(v)) == Stringify(ExtAt(v))
  {
  }

  /** `prop: value`, then ` !important` when the declaration has it. */
  lemma DeclarationRendering(prop: Node, value: Node, p: string, v: string)
    requires Stringify(prop) == Ok(p) && Stringify(value) == Ok(v)
    ensures Stringify(Declaration(prop, value, None)) == Ok(p + ": " + v)
    ensures Stringify(Declaration(prop, value, Some(Important))) == Ok(p + ": " + v + " !important")
  {
  }

  /** The head, `{`, a line break, the body, a line break and `}`. */
  lemma RuleRendering(head: Node, body: Node, h: string, b: string)
    requires Stringify(head) == Ok(h) && Stringify(body) == Ok(b)
    ensures Stringify(Rule(head, body)) == Ok(h + "{\n" + b + "\n}")
  {
  }

  /** `@name ` and, when there is an expression, the expression and one more space. */
  lemma AtRuleRendering(name: string, expr: Node, e: string)
    requires Stringify(expr) == Ok(e)
    ensures Stringify(AtRule(name, None)) == Ok("@" + name + " ")
    ensures Stringify(AtRule(name, Some(expr))) == Ok("@" + name + " " + e + " ")
  {
  }

  /** Recovered text comes back inside a comment, so that it has no effect as CSS. */
  lemma RecoverRendering(t: string)
    ensures Stringify(Recover(t)) == Ok("/*" + t + "*/")
  {
  }

  /**
   * A parsed identifier or hex colour renders as the text it was read from,
   * without the ignorable text after it; a parsed `! important` renders as
   * `!important`, whatever lay between the two.
   */
  lemma LeafRendering(s: Input, p: nat)
    requires p <= |s|
    ensures ParseId(s, p).Match? ==> Stringify(ParseId(s, p).value) == Ok(Slice(s, p, IdentEnd(s, p).value))
    ensures ParseHex(s, p).Match? ==> Stringify(ParseHex(s, p).value) == Ok(Slice(s, p, HexEnd(s, p).value))
    ensures ParseImportant(s, p).Match? ==> Stringify(ParseImportant(s, p).value) == Ok("!important")
  {
  }

  /** An attribute test without a flag renders the flag as empty. */
  lemma AttribRendering(name: string, op: string, str: string, f: string)
    ensures Stringify(Attrib(name, op, str, None)) == Ok("[" + name + op + str + "]")
    ensures Stringify(Attrib(name, op, str, Some(f))) == Ok("[" + name + op + str + f + "]")
  {
  }
}
