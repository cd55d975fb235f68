/**
 * One input parsed and then rendered back: the template text "color:red;"
 * read by the grammar from the start, and the tree it builds rendered.
 */
module Walkthrough {
  import opened Syntax
  import opened Lexer
  import opened Grammar
  import opened Render
  import GrammarFacts

  /** The tree "color:red;" parses to: a set holding one declaration. */
  function ColorRedTree(): Node
  {
    Set([Declaration(Id("color"), Expr([Term(Id("red"))]), None)])
  }

  /**
   * "color:red;" is a set of one declaration without `!important`, the `;`
   * consumed; it renders with a space after the colon and without the `;`.
   */
  lemma ColorRed()
    ensures Parse(Chars("color:red;")) == ColorRedTree()
    ensures Stringify(Parse(Chars("color:red;"))) == Ok("color: red")
  {
    var t := "color:red;";
    var s := Chars(t);
    ColorRedDeclaration(t, s);
    ColorRedSet(t, s);
    ColorRedRendering();
  }

  /** The declaration reads the identifier "color", the `:` and the one-term value "red", and stops at the `;`. */
  lemma ColorRedDeclaration(t: string, s: Input)
    requires t == "color:red;" && s == Chars(t)
    ensures ParseDeclaration(s, 0) == Match(Declaration(Id("color"), Expr([Term(Id("red"))]), None), 9)
  {
    ColorRedProperty(t, s);
    ColorRedValue(t, s);
    assert IgnoreEnd(s, 6) == 6;
    assert s[9] == Ch(';');
    assert ParseImportant(s, 9) == NoMatch;
  }

  lemma ColorRedProperty(t: string, s: Input)
    requires t == "color:red;" && s == Chars(t)
    ensures ParseProperty(s, 0) == Match(Id("color"), 5) && IsCh(s, 5, ':') && IgnoreEnd(s, 6) == 6
  {
    assert s[0] == Ch('c') && s[1] == Ch('o') && s[2] == Ch('l') && s[3] == Ch('o') && s[4] == Ch('r');
    assert s[5] == Ch(':') && s[6] == Ch('r');
    assert RunEnd(s, 1, IsNameChar) == 5;
    assert IdentEnd(s, 0) == Some(5);
    NothingIgnorable(s, 5);
    NothingIgnorable(s, 6);
    SliceChars(t, 0, 5);
    assert t[0..5] == "color";
    assert ParseId(s, 0) == Match(Id("color"), 5);
  }

  lemma ColorRedValue(t: string, s: Input)
    requires t == "color:red;" && s == Chars(t)
    ensures ParseExpr(s, 6) == Match(Expr([Term(Id("red"))]), 9)
  {
    ColorRedTerm(t, s);
    assert s[9] == Ch(';');
    NothingAtSemicolon(s, 9);
    assert [Term(Id("red"))] + [] == [Term(Id("red"))];
  }

  lemma ColorRedTerm(t: string, s: Input)
    requires t == "color:red;" && s == Chars(t)
    ensures ParseTerm(s, 6) == Match(Term(Id("red")), 9)
  {
    assert s[6] == Ch('r') && s[7] == Ch('e') && s[8] == Ch('d') && s[9] == Ch(';');
    assert RunEnd(s, 7, IsNameChar) == 9;
    assert IdentEnd(s, 6) == Some(9);
    NothingIgnorable(s, 9);
    GrammarFacts.TermAtIdentifier(s, 6);
    SliceChars(t, 6, 9);
    assert t[6..9] == "red";
  }

  /** At a `;` no value expression goes on: no operator and no term starts there. */
  lemma NothingAtSemicolon(s: Input, p: nat)
    requires p <= |s| && IsCh(s, p, ';')
    ensures ExprSteps(s, p) == Repeated([], p)
  {
    assert ParseOperator(s, p) == NoMatch;
    assert IdentEnd(s, p).None? && HexEnd(s, p).None? && NumberEnd(s, p).None? && StringEnd(s, p).None?;
    assert ParseTerm(s, p) == NoMatch;
  }

  /** The set takes the declaration and its `;` and then meets the end of the input. */
  lemma ColorRedSet(t: string, s: Input)
    requires t == "color:red;" && s == Chars(t)
    requires ParseDeclaration(s, 0) == Match(Declaration(Id("color"), Expr([Term(Id("red"))]), None), 9)
    ensures Parse(s) == ColorRedTree()
  {
    ColorRedNoRule(t, s);
    assert s[9] == Ch(';');
    assert SemicolonsEnd(s, 9) == 10;
    assert SetItem(s, 0) == Match(Declaration(Id("color"), Expr([Term(Id("red"))]), None), 10);
    EndOfInput(s);
    assert SetItems(s, 0).items == [Declaration(Id("color"), Expr([Term(Id("red"))]), None)];
  }

  /** No `{` comes before the `;`, so the set does not try a rule. */
  lemma ColorRedNoRule(t: string, s: Input)
    requires t == "color:red;" && s == Chars(t)
    ensures ParseRule(s, 0) == NoMatch
  {
    forall i | 0 <= i < 9
      ensures s[i] != Ch('{')
    {
      assert s[i] == Ch(t[i]);
    }
    assert s[9] == Ch(';');
    GrammarFacts.NoRuleWithoutBrace(s, 0, 9);
  }

  /** At the end of the input the set has no further round. */
  lemma EndOfInput(s: Input)
    ensures SetItems(s, |s|) == Repeated([], |s|)
  {
    assert !BraceAhead(s, |s|);
    assert ParseRecover(s, |s|) == NoMatch;
    assert SetItem(s, |s|) == NoMatch;
  }

  lemma ColorRedRendering()
    ensures Stringify(ColorRedTree()) == Ok("color: red")
  {
    var d := Declaration(Id("color"), Expr([Term(Id("red"))]), None);
    assert Stringify(Expr([Term(Id("red"))])) == Ok("red");
    assert Stringify(d) == Ok("color: red");
    assert JoinNodes([d], ";\n") == Ok("color: red");
  }
}
