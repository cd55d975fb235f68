/**
 * What the productions of src/grammar.mjs guarantee: which input each one
 * accepts, what it consumes, and the shape of the tree it builds.
 */
module GrammarFacts {
  import opened Syntax
  import opened Lexer
  import opened Grammar

  // ---------------------------------------------------------------------
  // Splices (grammar.mjs:21-46)

  /** The splice at `p` is accepted for `tag`: an interpolated value that extTag lets through. */
  predicate Accepts(s: Input, p: nat, tag: string)
  {
    p < |s| && s[p].Interp? && s[p].v != Str("") && s[p].v != Other
    && (s[p].v.Tagged? ==> Tag(s[p].v.node) == tag)
  }

  /**
   * Each ext_* production matches exactly when the element at `p` is an
   * interpolated value accepted for its tag; it wraps that value unchanged
   * and consumes no other interpolation. ext_at consumes nothing else;
   * ext_property, ext_value and ext_selector also take the ignorable text
   * after it; ext_css takes every `;` after it, with the ignorable text
   * between them.
   */
  lemma SpliceProductions(s: Input, p: nat)
    requires p <= |s|
    ensures ParseExtCss(s, p).Match? <==> Accepts(s, p, "set")
    ensures ParseExtProperty(s, p).Match? <==> Accepts(s, p, "id")
    ensures ParseExtValue(s, p).Match? <==> Accepts(s, p, "expr")
    ensures ParseExtSelector(s, p).Match? <==> Accepts(s, p, "selector")
    ensures ParseExtAt(s, p).Match? <==> Accepts(s, p, "at_expr")
    ensures ParseExtCss(s, p).Match? ==>
      var r := ParseExtCss(s, p);
      r.value == ExtCss(s[p].v) && r.next == SemicolonsEnd(s, p + 1)
    ensures ParseExtProperty(s, p).Match? ==>
      var r := ParseExtProperty(s, p);
      r.value == ExtProperty(s[p].v) && r.next == IgnoreEnd(s, p + 1)
    ensures ParseExtValue(s, p).Match? ==>
      var r := ParseExtValue(s, p);
      r.value == ExtValue(s[p].v) && r.next == IgnoreEnd(s, p + 1)
    ensures ParseExtSelector(s, p).Match? ==>
      var r := ParseExtSelector(s, p);
      r.value == ExtSelector(s[p].v) && r.next == IgnoreEnd(s, p + 1)
    ensures ParseExtAt(s, p).Match? ==> ParseExtAt(s, p) == Match(ExtAt(s[p].v), p + 1)
  {
  }

  /** A string or a function is accepted for every tag; a tree only for its own tag. */
  lemma SpliceAcceptsStringsAndFunctions(s: Input, p: nat, tag: string)
    requires p < |s| && s[p].Interp?
    ensures (s[p].v.Str? && s[p].v.s != "") || s[p].v.Fn? ==> Accepts(s, p, tag)
    ensures s[p].v.Tagged? ==> (Accepts(s, p, tag) <==> Tag(s[p].v.node) == tag)
    ensures s[p].v == Other || s[p].v == Str("") ==> !Accepts(s, p, tag)
  {
  }

  // ---------------------------------------------------------------------
  // Recovery (grammar.mjs:170-172)

  /**
   * recover matches exactly when a character other than `;` and `}` comes
   * first. Its text is the longest run of such characters, plus the `;`
   * that ends it if there is one; it never holds a `}`, and after it only
   * ignorable text is consumed.
   */
  lemma RecoverFacts(s: Input, p: nat)
    requires p <= |s|
    ensures ParseRecover(s, p).Match? <==> InClass(s, p, IsNotSemiOrBrace)
    ensures ParseRecover(s, p).Match? ==>
      var r := ParseRecover(s, p);
      var t := r.value.text;
      && 1 <= |t| && p + |t| <= r.next && IsText(s, p, p + |t|) && Slice(s, p, p + |t|) == t
      && t[0] != ';' && t[0] != '}'
      && (forall i | 0 <= i < |t| :: t[i] != '}')
      && (forall i | 0 <= i < |t| - 1 :: t[i] != ';')
      && (t[|t| - 1] != ';' ==> !InClass(s, p + |t|, IsNotSemiOrBrace) && !IsCh(s, p + |t|, ';'))
      && r.next == IgnoreEnd(s, p + |t|)
  {
    if InClass(s, p, IsNotSemiOrBrace) {
      var run := RunEnd(s, p, IsNotSemiOrBrace);
      var e := if IsCh(s, run, ';') then run + 1 else run;
      assert ParseRecover(s, p) == Match(Recover(Slice(s, p, e)), IgnoreEnd(s, e));
      RecoverText(s, p, e);
      var r := ParseRecover(s, p);
      assert r.value.text == Slice(s, p, e) && r.next == IgnoreEnd(s, e);
      assert p + |r.value.text| == e;
    }
  }

  /** The text recover keeps: the run of characters other than `;` and `}` at `p`, and the `;` after it if there is one. */
  lemma RecoverText(s: Input, p: nat, e: nat)
    requires p <= |s| && InClass(s, p, IsNotSemiOrBrace)
    requires var run := RunEnd(s, p, IsNotSemiOrBrace); e == if IsCh(s, run, ';') then run + 1 else run
    ensures var t := Slice(s, p, e);
      && 1 <= |t| && p + |t| == e <= |s| && IsText(s, p, e)
      && t[0] != ';' && t[0] != '}'
      && (forall i | 0 <= i < |t| :: t[i] != '}')
      && (forall i | 0 <= i < |t| - 1 :: t[i] != ';')
      && (t[|t| - 1] != ';' ==> !InClass(s, e, IsNotSemiOrBrace) && !IsCh(s, e, ';'))
  {
    var t := Slice(s, p, e);
    forall i | 0 <= i < |t|
      ensures t[i] != '}'
    {
      assert s[p + i] == Ch(t[i]);
    }
    forall i | 0 <= i < |t| - 1
      ensures t[i] != ';'
    {
      assert s[p + i] == Ch(t[i]);
    }
    assert s[p] == Ch(t[0]);
  }

  // ---------------------------------------------------------------------
  // Rules (grammar.mjs:161-168)

  /** The lookahead of rule, stated directly: a `{` is ahead, with only characters other than `;` and `}` before it. */
  ghost predicate OpenBraceAhead(s: Input, p: nat)
  {
    exists k :: p < k < |s| && s[k] == Ch('{') && forall i | p <= i < k :: InClass(s, i, IsNotSemiOrBrace)
  }

  lemma {:induction false} BraceAheadIff(s: Input, p: nat)
    requires p <= |s|
    ensures BraceAhead(s, p) <==> OpenBraceAhead(s, p)
    decreases |s| - p
  {
    if BraceAhead(s, p) {
      if IsCh(s, p + 1, '{') {
        assert forall i | p <= i < p + 1 :: InClass(s, i, IsNotSemiOrBrace);
      } else {
        BraceAheadIff(s, p + 1);
        var k :| p + 1 < k < |s| && s[k] == Ch('{') && forall i | p + 1 <= i < k :: InClass(s, i, IsNotSemiOrBrace);
        assert forall i | p <= i < k :: InClass(s, i, IsNotSemiOrBrace);
      }
    }
    if OpenBraceAhead(s, p) {
      var k :| p < k < |s| && s[k] == Ch('{') && forall i | p <= i < k :: InClass(s, i, IsNotSemiOrBrace);
      assert InClass(s, p, IsNotSemiOrBrace);
      if k > p + 1 {
        assert forall i | p + 1 <= i < k :: InClass(s, i, IsNotSemiOrBrace);
        assert OpenBraceAhead(s, p + 1);
        BraceAheadIff(s, p + 1);
      }
    }
  }

  /**
   * A rule needs a `{` ahead before any `;` or `}`; the lookahead consumes
   * nothing, so the head is read from `p` itself: an at-rule, or else a
   * selector, immediately followed by `{`. The body is a set closed by `}`.
   * Conversely, these parts together always make a rule.
   */
  lemma RuleFacts(s: Input, p: nat)
    requires p <= |s|
    ensures ParseRule(s, p).Match? ==> OpenBraceAhead(s, p)
    ensures ParseRule(s, p).Match? ==>
      var r := ParseRule(s, p);
      var head := ParseRuleHead(s, p);
      && head.Match? && head.value == r.value.head && IsCh(s, head.next, '{')
      && (r.value.head.AtRule? || r.value.head.Selector?)
      && var body := ParseSet(s, IgnoreEnd(s, head.next + 1));
         body.value == r.value.body && IsCh(s, body.next, '}') && r.next == IgnoreEnd(s, body.next + 1)
    ensures OpenBraceAhead(s, p) ==>
      var head := ParseRuleHead(s, p);
      head.Match? && IsCh(s, head.next, '{') && IsCh(s, ParseSet(s, IgnoreEnd(s, head.next + 1)).next, '}') ==>
        ParseRule(s, p).Match?
  {
    BraceAheadIff(s, p);
    if ParseRule(s, p).Match? {
      assert BraceAhead(s, p);
      RuleHead(s, p);
      RuleBody(s, p);
    }
  }

  lemma RuleHead(s: Input, p: nat)
    requires p <= |s|
    ensures ParseRule(s, p).Match? ==>
      && (ParseRule(s, p).value.head.AtRule? || ParseRule(s, p).value.head.Selector?)
      && ParseRuleHead(s, p).Match?
      && ParseRule(s, p).value.head == ParseRuleHead(s, p).value
  {
  }

  /** The head is directly followed by `{`; the rest is the closing step on the set read after it. */
  lemma RuleBody(s: Input, p: nat)
    requires p <= |s|
    ensures ParseRule(s, p).Match? ==>
      var head := ParseRuleHead(s, p);
      && head.Match? && IsCh(s, head.next, '{')
      && ParseRule(s, p) == RuleClose(s, head.value, ParseSet(s, IgnoreEnd(s, head.next + 1)))
  {
  }

  /** Text with no `{` before the next `;` or `}` is never a rule. */
  lemma {:induction false} NoRuleWithoutBrace(s: Input, p: nat, k: nat)
    requires p <= k <= |s|
    requires forall i | p <= i < k :: s[i] != Ch('{')
    requires !InClass(s, k, IsNotSemiOrBrace)
    ensures !BraceAhead(s, p) && ParseRule(s, p).NoMatch?
    decreases k - p
  {
    if p < k {
      NoRuleWithoutBrace(s, p + 1, k);
      if p + 1 < k {
        assert s[p + 1] != Ch('{');
      }
    }
  }

  // ---------------------------------------------------------------------
  // The set (grammar.mjs:174-182)

  /** The four alternatives of a round of the set. */
  predicate IsSetItem(n: Node)
  {
    n.Rule? || n.ExtCss? || n.Declaration? || n.Recover?
  }

  lemma {:induction false} SetItemsFacts(s: Input, p: nat)
    requires p <= |s|
    ensures forall i | 0 <= i < |SetItems(s, p).items| :: IsSetItem(SetItems(s, p).items[i])
    ensures |SetItems(s, p).items| <= SetItems(s, p).next - p
    ensures SetItem(s, SetItems(s, p).next).NoMatch?
    decreases |s| - p
  {
    match SetItem(s, p)
    case NoMatch =>
    case Match(n, q) =>
      SetItemsFacts(s, q);
      var rest := SetItems(s, q).items;
      assert SetItems(s, p).items == [n] + rest;
      forall i | 0 <= i < |[n] + rest|
        ensures IsSetItem(([n] + rest)[i])
      {
        if i > 0 { assert ([n] + rest)[i] == rest[i - 1]; }
      }
  }

  /**
   * The set never fails. Each of its items is a rule, a spliced set, a
   * declaration or a recovered stretch, and each consumed at least one
   * element. It stops only where no alternative applies, which is at the
   * end of the input, at a `;` or `}`, or at an interpolated value; what is
   * left there is not part of the tree.
   */
  lemma SetFacts(s: Input, p: nat)
    requires p <= |s|
    ensures var r := ParseSet(s, p);
      && (forall i | 0 <= i < |r.value.items| :: IsSetItem(r.value.items[i]))
      && |r.value.items| <= r.next - p
      && SetItem(s, r.next).NoMatch?
      && (r.next == |s| || IsCh(s, r.next, ';') || IsCh(s, r.next, '}') || s[r.next].Interp?)
  {
    SetItemsFacts(s, p);
    var q := ParseSet(s, p).next;
    RecoverFacts(s, q);
  }

  /** A declaration statement is the declaration followed by every `;` round after it. */
  lemma DeclarationStatementFacts(s: Input, p: nat)
    requires p <= |s|
    ensures DeclarationStatement(s, p).Match? <==> ParseDeclaration(s, p).Match?
    ensures DeclarationStatement(s, p).Match? ==>
      DeclarationStatement(s, p).value == ParseDeclaration(s, p).value
      && DeclarationStatement(s, p).next == SemicolonsEnd(s, ParseDeclaration(s, p).next)
      && !IsCh(s, DeclarationStatement(s, p).next, ';')
  {
  }

  // ---------------------------------------------------------------------
  // Alternating sequences: value expressions and selectors

  /**
   * Items each of which is an `isItem` or an `isSep` followed by an
   * `isItem`. A non-empty such sequence therefore ends with an `isItem`,
   * and a separator never stands alone.
   */
  ghost predicate Separated(items: seq<Node>, isSep: Node -> bool, isItem: Node -> bool)
  {
    && (forall i | 0 <= i < |items| :: isItem(items[i]) || isSep(items[i]))
    && (forall i | 0 <= i < |items| :: isSep(items[i]) ==> i + 1 < |items| && isItem(items[i + 1]))
  }

  lemma SeparatedConcat(a: seq<Node>, b: seq<Node>, isSep: Node -> bool, isItem: Node -> bool)
    requires Separated(a, isSep, isItem) && Separated(b, isSep, isItem)
    ensures Separated(a + b, isSep, isItem)
  {
    var c := a + b;
    forall i | 0 <= i < |c|
      ensures isItem(c[i]) || isSep(c[i])
    {
      if i < |a| { assert c[i] == a[i]; } else { assert c[i] == b[i - |a|]; }
    }
    forall i | 0 <= i < |c| && isSep(c[i])
      ensures i + 1 < |c| && isItem(c[i + 1])
    {
      if i < |a| {
        assert c[i] == a[i] && c[i + 1] == a[i + 1];
      } else {
        assert c[i] == b[i - |a|] && c[i + 1] == b[i + 1 - |a|];
      }
    }
  }

  /** An operator node: one of `/ , * + -`. */
  predicate IsOperatorNode(n: Node)
  {
    n.Operator? && |n.op| == 1 && IsOperatorChar(n.op[0])
  }

  /** A term node: a splice, a function, an identifier, a colour or a value. */
  predicate IsTermNode(n: Node)
  {
    n.Term? && (n.t.ExtValue? || n.t.Func? || n.t.Id? || n.t.Hex? || n.t.Value?)
  }

  /** A value expression: a term, then terms each preceded by at most one operator. */
  ghost predicate ExprShape(items: seq<Node>)
  {
    |items| > 0 && IsTermNode(items[0]) && Separated(items, IsOperatorNode, IsTermNode)
  }

  lemma ExprStepShape(s: Input, p: nat)
    requires p <= |s|
    ensures ExprStep(s, p).Match? ==> Separated(ExprStep(s, p).value, IsOperatorNode, IsTermNode)
  {
    var o := ParseOperator(s, p);
    if o.Match? {
      var t := ParseTerm(s, o.next);
      if t.Match? {
        assert IsOperatorNode(o.value) && !IsOperatorNode(t.value);
        SeparatedStep([o.value, t.value], IsOperatorNode, IsTermNode);
      }
    } else {
      var t := ParseTerm(s, p);
      if t.Match? {
        assert !IsOperatorNode(t.value);
        SeparatedStep([t.value], IsOperatorNode, IsTermNode);
      }
    }
  }

  /** A lone item, or a separator followed by an item. */
  lemma SeparatedStep(items: seq<Node>, isSep: Node -> bool, isItem: Node -> bool)
    requires |items| == 1 ==> isItem(items[0])
    requires |items| == 2 ==> isSep(items[0]) && isItem(items[1])
    requires 1 <= |items| <= 2 && !isSep(items[|items| - 1])
    ensures Separated(items, isSep, isItem)
  {
  }

  lemma {:induction false} ExprStepsShape(s: Input, p: nat)
    requires p <= |s|
    ensures Separated(ExprSteps(s, p).items, IsOperatorNode, IsTermNode)
    decreases |s| - p
  {
    match ExprStep(s, p)
    case NoMatch =>
    case Match(items, q) =>
      ExprStepsShape(s, q);
      ExprStepShape(s, p);
      SeparatedConcat(items, ExprSteps(s, q).items, IsOperatorNode, IsTermNode);
  }

  /** value_expr: a term first, and never an operator without a term after it. */
  lemma ExprFacts(s: Input, p: nat)
    requires p <= |s|
    ensures ParseExpr(s, p).Match? ==> ExprShape(ParseExpr(s, p).value.items)
  {
    var t := ParseTerm(s, p);
    if t.Match? {
      var rest := ExprSteps(s, t.next).items;
      assert ParseExpr(s, p).value.items == [t.value] + rest;
      ExprStepsShape(s, t.next);
      assert !IsOperatorNode(t.value);
      SeparatedStep([t.value], IsOperatorNode, IsTermNode);
      SeparatedConcat([t.value], rest, IsOperatorNode, IsTermNode);
    }
  }

  /** At `#` a term is a hex colour or nothing: no other alternative starts with `#`. */
  lemma TermAtHash(s: Input, p: nat)
    requires p <= |s| && IsCh(s, p, '#')
    ensures ParseTerm(s, p).Match? <==> HexEnd(s, p).Some?
    ensures ParseTerm(s, p).Match? ==> ParseTerm(s, p).value == Term(Hex(Slice(s, p, HexEnd(s, p).value)))
  {
  }

  /** At an interpolated value a term is that value if extTag accepts it for `expr`, and nothing otherwise. */
  lemma TermAtSplice(s: Input, p: nat)
    requires p < |s| && s[p].Interp?
    ensures ParseTerm(s, p).Match? <==> Accepts(s, p, "expr")
    ensures ParseTerm(s, p).Match? ==> ParseTerm(s, p).value == Term(ExtValue(s[p].v))
  {
  }

  /** At a digit a term is a number, with its unit if one follows. */
  lemma TermAtDigit(s: Input, p: nat)
    requires p <= |s| && InClass(s, p, IsDigit)
    ensures NumberEnd(s, p).Some? && ParseTerm(s, p).Match?
    ensures ParseTerm(s, p).value.t.Value? && ParseTerm(s, p).value.t.lit == Slice(s, p, NumberEnd(s, p).value)
    ensures ParseTerm(s, p) == Match(Term(ParseValue(s, p).value), ParseValue(s, p).next)
  {
    assert RunEnd(s, p, IsDigit) > p;
    assert IdentEnd(s, p).None?;
  }

  /** An identifier that no `(` follows is an id term; func is tried first and fails. */
  lemma TermAtIdentifier(s: Input, p: nat)
    requires p <= |s| && IdentEnd(s, p).Some? && !IsCh(s, IdentEnd(s, p).value, '(')
    ensures ParseTerm(s, p) == Match(Term(Id(Slice(s, p, IdentEnd(s, p).value))), IgnoreEnd(s, IdentEnd(s, p).value))
  {
  }

  /** value: a number with the unit that directly follows it, if any, or else a quoted string, which has no unit. */
  lemma ValueFacts(s: Input, p: nat)
    requires p <= |s|
    ensures ParseValue(s, p).Match? <==> NumberEnd(s, p).Some? || StringEnd(s, p).Some?
    ensures ParseValue(s, p).Match? && NumberEnd(s, p).Some? ==>
      var v := ParseValue(s, p).value;
      var q := NumberEnd(s, p).value;
      v.lit == Slice(s, p, q) && (v.unit.Some? <==> UnitEnd(s, q).Some?)
      && (v.unit.Some? ==> v.unit.value == Slice(s, q, UnitEnd(s, q).value))
    ensures ParseValue(s, p).Match? && NumberEnd(s, p).None? ==>
      ParseValue(s, p).value == Value(Slice(s, p, StringEnd(s, p).value), None)
  {
  }

  /** func: an identifier directly followed by `(`; its argument is one value, never a value expression. */
  lemma FuncFacts(s: Input, p: nat)
    requires p <= |s|
    ensures ParseFunc(s, p).Match? ==>
      var f := ParseFunc(s, p).value;
      && IdentEnd(s, p).Some? && IsCh(s, IdentEnd(s, p).value, '(')
      && f.name == Slice(s, p, IdentEnd(s, p).value)
      && f.arg.Value?
  {
  }

  /** `!`, optional ignorable text, then the word `important`. */
  lemma ImportantIff(s: Input, p: nat)
    requires p <= |s|
    ensures ParseImportant(s, p).Match? <==> IsCh(s, p, '!') && HasLit(s, IgnoreEnd(s, p + 1), "important")
  {
  }

  /**
   * A declaration: a property (an identifier or a spliced property) directly
   * followed by `:`, then a value expression, then optionally `!important`.
   */
  lemma DeclarationFacts(s: Input, p: nat)
    requires p <= |s|
    ensures ParseDeclaration(s, p).Match? ==>
      var d := ParseDeclaration(s, p).value;
      var prop := ParseProperty(s, p);
      && prop.Match? && prop.value == d.prop && IsCh(s, prop.next, ':')
      && (d.prop.Id? || d.prop.ExtProperty?)
      && d.value.Expr? && ExprShape(d.value.items)
      && (d.important.Some? ==> d.important.value == Important)
  {
    if ParseDeclaration(s, p).Match? {
      DeclarationParts(s, p);
      DeclarationValue(s, p);
      ExprFacts(s, ValueStart(s, p));
    }
  }

  lemma DeclarationParts(s: Input, p: nat)
    requires p <= |s|
    ensures ParseDeclaration(s, p).Match? ==>
      var d := ParseDeclaration(s, p).value;
      var prop := ParseProperty(s, p);
      && prop.Match? && prop.value == d.prop && IsCh(s, prop.next, ':')
      && (d.prop.Id? || d.prop.ExtProperty?)
      && (d.important.Some? ==> d.important.value == Important)
  {
  }

  /** Where the value of a declaration starting at `p` begins: after the property, the `:` and ignorable text. */
  function ValueStart(s: Input, p: nat): (w: nat)
    requires p <= |s|
    ensures w <= |s|
  {
    var prop := ParseProperty(s, p);
    if prop.Match? && IsCh(s, prop.next, ':') then IgnoreEnd(s, prop.next + 1) else p
  }

  lemma DeclarationValue(s: Input, p: nat)
    requires p <= |s|
    ensures ParseDeclaration(s, p).Match? ==>
      ParseExpr(s, ValueStart(s, p)).Match? && ParseExpr(s, ValueStart(s, p)).value == ParseDeclaration(s, p).value.value
  {
  }

  // ---------------------------------------------------------------------
  // Selectors (grammar.mjs:70-108)

  /** A piece of a selector term: simple selector text, or a splice, an attribute test or a pseudo-class. */
  predicate IsSelectorPart(c: Child)
  {
    c.Text? || (c.Sub? && (c.n.ExtSelector? || c.n.Attrib? || c.n.Pseudo?))
  }

  predicate IsSelectorTermNode(n: Node)
  {
    n.SelectorTerm? && |n.parts| > 0 && forall j | 0 <= j < |n.parts| :: IsSelectorPart(n.parts[j])
  }

  /** A combinator node: one of `> + ~`. */
  predicate IsCombinatorNode(n: Node)
  {
    n.Combinator? && |n.op| == 1 && IsCombinatorChar(n.op[0])
  }

  lemma SelectorPartFacts(s: Input, p: nat)
    requires p <= |s|
    ensures ParseSelectorPart(s, p).Match? ==> IsSelectorPart(ParseSelectorPart(s, p).value)
  {
  }

  lemma {:induction false} SelectorPartsFacts(s: Input, p: nat)
    requires p <= |s|
    ensures forall j | 0 <= j < |SelectorParts(s, p).items| :: IsSelectorPart(SelectorParts(s, p).items[j])
    decreases |s| - p
  {
    match ParseSelectorPart(s, p)
    case NoMatch =>
    case Match(c, q) =>
      SelectorPartsFacts(s, q);
      SelectorPartFacts(s, p);
      assert SelectorParts(s, p).items == [c] + SelectorParts(s, q).items;
  }

  /** selector_term: one or more parts, each a text, an interpolation, an attrib or a pseudo. */
  lemma SelectorTermFacts(s: Input, p: nat)
    requires p <= |s|
    ensures ParseSelectorTerm(s, p).Match? ==> IsSelectorTermNode(ParseSelectorTerm(s, p).value)
  {
    if ParseSelectorTerm(s, p).Match? {
      var first := ParseSelectorPart(s, p);
      SelectorPartFacts(s, p);
      SelectorPartsFacts(s, first.next);
      var parts := [first.value] + SelectorParts(s, first.next).items;
      forall j | 0 <= j < |parts|
        ensures IsSelectorPart(parts[j])
      {
        if j > 0 { assert parts[j] == SelectorParts(s, first.next).items[j - 1]; }
      }
    }
  }

  lemma SelectorStepShape(s: Input, p: nat)
    requires p <= |s|
    ensures SelectorStep(s, p).Match? ==>
      |SelectorStep(s, p).value| > 0 && Separated(SelectorStep(s, p).value, IsCombinatorNode, IsSelectorTermNode)
  {
    var c := ParseCombinator(s, p);
    if c.Match? {
      SelectorTermFacts(s, c.next);
      assert IsCombinatorNode(c.value);
    } else {
      SelectorTermFacts(s, p);
    }
  }

  lemma {:induction false} SelectorStepsShape(s: Input, p: nat)
    requires p <= |s|
    ensures Separated(SelectorSteps(s, p).items, IsCombinatorNode, IsSelectorTermNode)
    decreases |s| - p
  {
    match SelectorStep(s, p)
    case NoMatch =>
    case Match(items, q) =>
      SelectorStepsShape(s, q);
      SelectorStepShape(s, p);
      SeparatedConcat(items, SelectorSteps(s, q).items, IsCombinatorNode, IsSelectorTermNode);
  }

  /**
   * A selector: selector terms, each preceded by at most one of the
   * combinators `>`, `+`, `~`. It may begin with a combinator (as in a
   * nested `> a`) but always ends with a term, and no combinator stands
   * alone.
   */
  lemma SelectorFacts(s: Input, p: nat)
    requires p <= |s|
    ensures ParseSelector(s, p).Match? ==>
      var items := ParseSelector(s, p).value.items;
      |items| > 0 && Separated(items, IsCombinatorNode, IsSelectorTermNode)
  {
    if ParseSelector(s, p).Match? {
      SelectorStepShape(s, p);
      var first := SelectorStep(s, p);
      SelectorStepsShape(s, first.next);
      SeparatedConcat(first.value, SelectorSteps(s, first.next).items, IsCombinatorNode, IsSelectorTermNode);
    }
  }

  /**
   * attrib: `[`, a name, an operator (`=`, or one of `~ | ^ $ *` directly
   * before `=`), a quoted string kept with its quotes, and an optional
   * one-letter flag.
   */
  lemma AttribFacts(s: Input, p: nat)
    requires p <= |s|
    ensures ParseAttrib(s, p).Match? ==>
      var a := ParseAttrib(s, p).value;
      && IsCh(s, p, '[') && |a.name| > 0
      && (a.op == "=" || (|a.op| == 2 && IsAttribOpChar(a.op[0]) && a.op[1] == '='))
      && |a.str| >= 2 && (a.str[0] == '"' || a.str[0] == '\'') && a.str[|a.str| - 1] == a.str[0]
      && (a.flag.Some? ==> |a.flag.value| == 1 && IsFlagChar(a.flag.value[0]))
  {
    if ParseAttrib(s, p).Match? {
      var a := IgnoreEnd(s, p + 1);
      var b := IdentEnd(s, a).value;
      var c := IgnoreEnd(s, b);
      assert ParseAttrib(s, p) == AttribOperator(s, Slice(s, a, b), c);
      OperatorText(s, c);
      StringText(s, IgnoreEnd(s, AttribOpEnd(s, c).value));
    }
  }

  /** The text of an attribute operator: `=`, or one of `~ | ^ $ *` and `=`. */
  lemma OperatorText(s: Input, c: nat)
    requires c <= |s| && AttribOpEnd(s, c).Some?
    ensures var op := Slice(s, c, AttribOpEnd(s, c).value);
      op == "=" || (|op| == 2 && IsAttribOpChar(op[0]) && op[1] == '=')
  {
    var d := AttribOpEnd(s, c).value;
    var op := Slice(s, c, d);
    assert s[c] == Ch(op[0]) && s[d - 1] == Ch(op[|op| - 1]);
  }

  /** The text of a string token keeps its quotes: it opens and closes with the same one. */
  lemma StringText(s: Input, e: nat)
    requires e <= |s| && StringEnd(s, e).Some?
    ensures var str := Slice(s, e, StringEnd(s, e).value);
      |str| >= 2 && (str[0] == '"' || str[0] == '\'') && str[|str| - 1] == str[0]
  {
    var f := StringEnd(s, e).value;
    var str := Slice(s, e, f);
    assert s[e] == Ch(str[0]) && s[f - 1] == Ch(str[|str| - 1]);
  }

  /**
   * pseudo_args: `(`, ignorable text, an optional selector, ignorable text
   * and `)`, with nothing consumed after the `)`. The node holds the
   * selector when one was read.
   */
  lemma PseudoArgsFacts(s: Input, p: nat)
    requires p <= |s|
    ensures ParsePseudoArgs(s, p).Match? ==> IsCh(s, p, '(')
    ensures IsCh(s, p, '(') ==>
      var q := IgnoreEnd(s, p + 1);
      var sel := ParseSelector(s, q);
      var close := IgnoreEnd(s, if sel.Match? then sel.next else q);
      && (ParsePseudoArgs(s, p).Match? <==> IsCh(s, close, ')'))
      && (ParsePseudoArgs(s, p).Match? ==>
            && ParsePseudoArgs(s, p).next == close + 1
            && ParsePseudoArgs(s, p).value == PseudoArgs(if sel.Match? then Some(sel.value) else None))
      && (sel.Match? ==> sel.value.Selector?)
  {
  }

  /**
   * pseudo: `:` or `::`, then a name read as an identifier, then the
   * arguments when pseudo_args matches right after the name. No ignorable
   * text is consumed after it.
   */
  lemma PseudoFacts(s: Input, p: nat)
    requires p <= |s|
    ensures ParsePseudo(s, p).Match? ==> IsCh(s, p, ':')
    ensures IsCh(s, p, ':') ==>
      var q := if IsCh(s, p + 1, ':') then p + 2 else p + 1;
      && (ParsePseudo(s, p).Match? <==> IdentEnd(s, q).Some?)
      && (ParsePseudo(s, p).Match? ==>
            var e := IdentEnd(s, q).value;
            var args := ParsePseudoArgs(s, e);
            var n := ParsePseudo(s, p).value;
            && n.name == Slice(s, q, e) && |n.name| > 0
            && (n.args.Some? <==> args.Match?)
            && (args.Match? ==> n.args.value == args.value && n.args.value.PseudoArgs? && ParsePseudo(s, p).next == args.next)
            && (args.NoMatch? ==> ParsePseudo(s, p).next == e))
  {
  }

  // ---------------------------------------------------------------------
  // At-rules (grammar.mjs:139-159)

  /**
   * The parenthesised alternative of at_term: at `(`, it is the closing
   * step applied to the declaration read after the `(` and the ignorable
   * text; Grammar.ParenClose states what that step keeps and consumes.
   */
  lemma ParenDeclarationFacts(s: Input, p: nat)
    requires p <= |s|
    ensures IsCh(s, p, '(') ==> ParenDeclaration(s, p) == ParenClose(s, ParseDeclaration(s, IgnoreEnd(s, p + 1)))
  {
  }

  /** An at_term wraps a spliced at-expression, an identifier or a parenthesised declaration. */
  predicate IsAtTermNode(n: Node)
  {
    n.AtTerm? && (n.t.ExtAt? || n.t.Id? || n.t.Declaration?)
  }

  lemma {:induction false} AtStepsFacts(s: Input, p: nat)
    requires p <= |s|
    ensures forall i | 0 <= i < |AtSteps(s, p).items| :: IsAtTermNode(AtSteps(s, p).items[i])
    decreases |s| - p
  {
    match AtStep(s, p)
    case NoMatch =>
    case Match(items, q) =>
      AtStepsFacts(s, q);
      assert AtSteps(s, p).items == items + AtSteps(s, q).items;
  }

  /** at_expr: at least one term; the commas between terms are consumed and not kept. */
  lemma AtExprFacts(s: Input, p: nat)
    requires p <= |s|
    ensures ParseAtExpr(s, p).Match? ==>
      var items := ParseAtExpr(s, p).value.items;
      |items| > 0 && forall i | 0 <= i < |items| :: IsAtTermNode(items[i])
  {
    var t := ParseAtTerm(s, p);
    if t.Match? {
      AtStepsFacts(s, t.next);
      var items := [t.value] + AtSteps(s, t.next).items;
      assert ParseAtExpr(s, p).value.items == items;
      forall i | 0 <= i < |items|
        ensures IsAtTermNode(items[i])
      {
        if i > 0 { assert items[i] == AtSteps(s, t.next).items[i - 1]; }
      }
    }
  }

  /** at_rule: `@`, a name, then an optional at-expression. */
  lemma AtRuleFacts(s: Input, p: nat)
    requires p <= |s|
    ensures ParseAtRule(s, p).Match? ==>
      var n := ParseAtRule(s, p).value;
      IsCh(s, p, '@') && |n.name| > 0 && (n.expr.Some? ==> n.expr.value.AtExpr? && |n.expr.value.items| > 0)
  {
    if ParseAtRule(s, p).Match? {
      var q := IdentEnd(s, p + 1).value;
      AtExprFacts(s, IgnoreEnd(s, q));
    }
  }
}
