/**
 * A sign after a term is read as an operator (grammar.mjs:123-130).
 *
 * Each round of a value expression tries `operator?` before the term, and
 * `-` and `+` are operator characters. So in "0 -1px", a shorthand with the
 * two values 0 and -1px, the `-` becomes an operator and the term after it
 * is 1px: the tree holds three items, and the renderer puts a space after
 * the operator too, giving "0 - 1px", which is a different value. The sign
 * of a number token is evidently meant to stay with the number when it is
 * directly followed by one.
 *
 * The terms are read by the main grammar, with the corrected identifier;
 * with the identifier as written (grammar.mjs:13) 0 and 1px would be
 * identifiers, and the operator and the rendering would be the same.
 *
 * The main grammar keeps the expression as written. ExprStepIntended is the
 * repaired round: a sign directly followed by a number is read as the
 * start of that number's term.
 */
module SignFinding {
  import opened Syntax
  import opened Lexer
  import opened Grammar
  import opened Render

  // ---------------------------------------------------------------------
  // As written

  /** A sign in operator position becomes an operator whenever a term follows it. */
  lemma SignAfterTermIsOperator(s: Input, p: nat)
    requires p < |s| && InClass(s, p, IsSign) && ParseTerm(s, IgnoreEnd(s, p + 1)).Match?
    ensures ExprStep(s, p).Match?
    ensures ExprStep(s, p).value == [Operator([s[p].c]), ParseTerm(s, IgnoreEnd(s, p + 1)).value]
  {
  }

  /** "0 -1px" as written, with the corrected identifier: the number 0, the operator `-`, and the value 1px, rendered as "0 - 1px". */
  lemma ZeroMinusOnePxAsWritten()
    ensures ParseExpr(Chars("0 -1px"), 0)
      == Match(Expr([Term(Value("0", None)), Operator("-"), Term(Value("1", Some("px")))]), 6)
    ensures Stringify(Expr([Term(Value("0", None)), Operator("-"), Term(Value("1", Some("px")))])) == Ok("0 - 1px")
  {
    ZeroMinusOnePxParsed("0 -1px", Chars("0 -1px"));
    ThreeItemsRendering();
  }

  lemma ZeroMinusOnePxParsed(t: string, s: Input)
    requires t == "0 -1px" && s == Chars(t)
    ensures ParseExpr(s, 0)
      == Match(Expr([Term(Value("0", None)), Operator("-"), Term(Value("1", Some("px")))]), 6)
  {
    ZeroTerm(t, s);
    OperatorRoundAsWritten(t, s);
    assert [Term(Value("0", None))] + [Operator("-"), Term(Value("1", Some("px")))]
      == [Term(Value("0", None)), Operator("-"), Term(Value("1", Some("px")))];
  }

  /** After "0 " the rounds as written are the operator `-` and the value 1px, and then the end. */
  lemma OperatorRoundAsWritten(t: string, s: Input)
    requires t == "0 -1px" && s == Chars(t)
    ensures ExprSteps(s, 2) == Repeated([Operator("-"), Term(Value("1", Some("px")))], 6)
  {
    OnePxTerm(t, s);
    assert s[2] == Ch('-') && s[3] == Ch('1');
    NothingIgnorable(s, 3);
    assert ExprStep(s, 2) == Match([Operator("-"), Term(Value("1", Some("px")))], 6);
    assert ExprStep(s, 6) == NoMatch;
    assert ExprSteps(s, 6) == Repeated([], 6);
    assert [Operator("-"), Term(Value("1", Some("px")))] + [] == [Operator("-"), Term(Value("1", Some("px")))];
  }

  lemma ZeroTerm(t: string, s: Input)
    requires t == "0 -1px" && s == Chars(t)
    ensures ParseTerm(s, 0) == Match(Term(Value("0", None)), 2)
  {
    assert s[0] == Ch('0') && s[1] == Ch(' ') && s[2] == Ch('-');
    assert RunEnd(s, 0, IsDigit) == 1;
    assert MantissaEnd(s, 0) == Some(1);
    assert NumberEnd(s, 0) == Some(1);
    assert UnitEnd(s, 1) == None;
    assert RunEnd(s, 1, IsSpace) == 2;
    NothingIgnorable(s, 2);
    assert IgnoreEnd(s, 1) == 2;
    SliceChars(t, 0, 1);
    assert t[0..1] == "0";
    assert ParseValue(s, 0) == Match(Value("0", None), 2);
    assert IdentEnd(s, 0) == None;
  }

  lemma OnePxTerm(t: string, s: Input)
    requires t == "0 -1px" && s == Chars(t)
    ensures ParseTerm(s, 3) == Match(Term(Value("1", Some("px"))), 6)
  {
    assert s[3] == Ch('1') && s[4] == Ch('p') && s[5] == Ch('x');
    assert RunEnd(s, 3, IsDigit) == 4;
    assert MantissaEnd(s, 3) == Some(4);
    assert ExponentEnd(s, 4) == 4;
    assert NumberEnd(s, 3) == Some(4);
    assert RunEnd(s, 4, IsWord) == 6;
    assert UnitEnd(s, 4) == Some(6);
    SliceChars(t, 3, 4);
    SliceChars(t, 4, 6);
    assert t[3..4] == "1" && t[4..6] == "px";
    assert ParseValue(s, 3) == Match(Value("1", Some("px")), 6);
    assert IdentEnd(s, 3) == None;
  }

  lemma ThreeItemsRendering()
    ensures Stringify(Expr([Term(Value("0", None)), Operator("-"), Term(Value("1", Some("px")))])) == Ok("0 - 1px")
  {
    var items := [Term(Value("0", None)), Operator("-"), Term(Value("1", Some("px")))];
    assert items[..1] == [Term(Value("0", None))];
    assert items[..2][..1] == items[..1];
    assert JoinNodes(items[..1], " ") == Ok("0");
    assert JoinNodes(items[..2], " ") == Ok("0 -");
    assert Stringify(items[2]) == Ok("1px");
  }

  // ---------------------------------------------------------------------
  // As evidently intended

  /**
   * A round of the repaired expression: a sign that a number directly
   * follows stays with it, and the round is that one value term; every
   * other round is the round as written.
   */
  function ExprStepIntended(s: Input, p: nat): (r: Result<seq<Node>>)
    requires p <= |s|
    ensures r.Match? ==> p < r.next <= |s|
    ensures InClass(s, p, IsSign) && NumberEnd(s, p).Some? ==>
      && r.Match? && |r.value| == 1 && r.value[0].Term? && r.value[0].t.Value?
      && |r.value[0].t.lit| > 0 && r.value[0].t.lit[0] == s[p].c
    ensures !(InClass(s, p, IsSign) && NumberEnd(s, p).Some?) ==> r == ExprStep(s, p)
  {
    if InClass(s, p, IsSign) && NumberEnd(s, p).Some? then
      SignStaysWithNumber(s, p);
      var t := ParseTerm(s, p);
      Match([t.value], t.next)
    else ExprStep(s, p)
  }

  function ExprStepsIntended(s: Input, p: nat): (r: Repeated<Node>)
    requires p <= |s|
    ensures p <= r.next <= |s|
    decreases |s| - p
  {
    match ExprStepIntended(s, p)
    case NoMatch => Repeated([], p)
    case Match(items, q) =>
      var rest := ExprStepsIntended(s, q);
      Repeated(items + rest.items, rest.next)
  }

  function ParseExprIntended(s: Input, p: nat): (r: Result<Node>)
    requires p <= |s|
    ensures r.Match? ==> p < r.next <= |s| && r.value.Expr?
  {
    match ParseTerm(s, p)
    case NoMatch => NoMatch
    case Match(t, q) =>
      var more := ExprStepsIntended(s, q);
      Match(Expr([t] + more.items), more.next)
  }

  /**
   * A term read at a sign directly followed by a number is one value whose
   * number starts with that sign: the sign stays with the number.
   */
  lemma SignStaysWithNumber(s: Input, p: nat)
    requires p <= |s| && InClass(s, p, IsSign) && NumberEnd(s, p).Some?
    ensures ParseTerm(s, p).Match? && ParseTerm(s, p).value.Term? && ParseTerm(s, p).value.t.Value?
    ensures |ParseTerm(s, p).value.t.lit| > 0 && ParseTerm(s, p).value.t.lit[0] == s[p].c
  {
    var q := NumberEnd(s, p).value;
    assert IdentEnd(s, p).None?;
    assert HexEnd(s, p).None?;
    var v := ParseValue(s, p);
    assert v.Match? && v.value.lit == Slice(s, p, q);
    assert Slice(s, p, q)[0] == s[p].c;
  }

  /** Repaired, "0 -1px" is the two values 0 and -1px, and renders as it was written. */
  lemma ZeroMinusOnePxIntended()
    ensures ParseExprIntended(Chars("0 -1px"), 0) == Match(Expr([Term(Value("0", None)), Term(Value("-1", Some("px")))]), 6)
    ensures Stringify(Expr([Term(Value("0", None)), Term(Value("-1", Some("px")))])) == Ok("0 -1px")
  {
    ZeroMinusOnePxParsedIntended("0 -1px", Chars("0 -1px"));
    TwoItemsRendering();
  }

  lemma ZeroMinusOnePxParsedIntended(t: string, s: Input)
    requires t == "0 -1px" && s == Chars(t)
    ensures ParseExprIntended(s, 0) == Match(Expr([Term(Value("0", None)), Term(Value("-1", Some("px")))]), 6)
  {
    ZeroTerm(t, s);
    SignedRoundIntended(t, s);
    assert [Term(Value("0", None))] + [Term(Value("-1", Some("px")))]
      == [Term(Value("0", None)), Term(Value("-1", Some("px")))];
  }

  /** After "0 " the repaired rounds are the one value -1px, and then the end. */
  lemma SignedRoundIntended(t: string, s: Input)
    requires t == "0 -1px" && s == Chars(t)
    ensures ExprStepsIntended(s, 2) == Repeated([Term(Value("-1", Some("px")))], 6)
  {
    MinusOnePxTerm(t, s);
    assert ExprStepIntended(s, 2) == Match([Term(Value("-1", Some("px")))], 6);
    assert ExprStepIntended(s, 6) == NoMatch;
    assert ExprStepsIntended(s, 6) == Repeated([], 6);
    assert [Term(Value("-1", Some("px")))] + [] == [Term(Value("-1", Some("px")))];
  }

  lemma TwoItemsRendering()
    ensures Stringify(Expr([Term(Value("0", None)), Term(Value("-1", Some("px")))])) == Ok("0 -1px")
  {
    var items := [Term(Value("0", None)), Term(Value("-1", Some("px")))];
    assert items[..1] == [Term(Value("0", None))];
    assert JoinNodes(items[..1], " ") == Ok("0");
    assert Stringify(items[1]) == Ok("-1px");
  }

  lemma MinusOnePxTerm(t: string, s: Input)
    requires t == "0 -1px" && s == Chars(t)
    ensures NumberEnd(s, 2) == Some(4)
    ensures ParseTerm(s, 2) == Match(Term(Value("-1", Some("px"))), 6)
  {
    assert s[2] == Ch('-') && s[3] == Ch('1') && s[4] == Ch('p') && s[5] == Ch('x');
    assert RunEnd(s, 3, IsDigit) == 4;
    assert MantissaEnd(s, 3) == Some(4);
    assert ExponentEnd(s, 4) == 4;
    assert RunEnd(s, 4, IsWord) == 6;
    assert UnitEnd(s, 4) == Some(6);
    SliceChars(t, 2, 4);
    SliceChars(t, 4, 6);
    assert t[2..4] == "-1" && t[4..6] == "px";
    assert ParseValue(s, 2) == Match(Value("-1", Some("px")), 6);
    assert IdentEnd(s, 2) == None;
  }
}
