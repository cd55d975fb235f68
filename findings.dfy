/**
 * Two tokens of src/grammar.mjs as written, and what they do. The main
 * grammar uses the corrected tokens; the two findings about productions are
 * in semicolon_finding.dfy and sign_finding.dfy.
 *
 * The identifier (grammar.mjs:13).
 * As written, the first character of an identifier after its hyphens is
 * `[\w_]`, and `\w` already holds the digits. value_term tries id before
 * value, so a term that starts with a digit is always read as an
 * identifier: "10px" becomes the identifier "10px", and "1.5em" becomes
 * the identifier "1" followed by a second term ".5em", which renders as
 * "1 .5em". The rest of the model uses the corrected class, a letter or
 * `_`, for which a leading digit starts a number (GrammarFacts.TermAtDigit).
 */
module Findings {
  import opened Syntax
  import opened Lexer
  import opened Grammar
  import opened Render
  import GrammarFacts

  function ParseIdAsWritten(s: Input, p: nat): (r: Result<Node>)
    requires p <= |s|
    ensures r.Match? ==> p < r.next <= |s| && r.value.Id?
  {
    match IdentEndAsWritten(s, p)
    case None => NoMatch
    case Some(q) => Match(Id(Slice(s, p, q)), IgnoreEnd(s, q))
  }

  function ParseFuncAsWritten(s: Input, p: nat): (r: Result<Node>)
    requires p <= |s|
    ensures r.Match? ==> p < r.next <= |s| && r.value.Func?
  {
    match IdentEndAsWritten(s, p)
    case None => NoMatch
    case Some(q) =>
      if !IsCh(s, q, '(') then NoMatch
      else
        var v := ParseValue(s, IgnoreEnd(s, q + 1));
        if v.Match? && IsCh(s, v.next, ')') then Match(Func(Slice(s, p, q), v.value), IgnoreEnd(s, v.next + 1))
        else NoMatch
  }

  /** value_term with the identifier as written. */
  function ParseTermAsWritten(s: Input, p: nat): (r: Result<Node>)
    requires p <= |s|
    ensures r.Match? ==> p < r.next <= |s| && r.value.Term?
  {
    var c := ParseExtValue(s, p).OrElse(ParseFuncAsWritten(s, p)).OrElse(ParseIdAsWritten(s, p))
      .OrElse(ParseHex(s, p)).OrElse(ParseValue(s, p));
    if c.Match? then Match(Term(c.value), c.next) else NoMatch
  }

  /** As written, no term that starts with a digit is a number. */
  lemma DigitTermAsWritten(s: Input, p: nat)
    requires p <= |s| && InClass(s, p, IsDigit)
    ensures ParseTermAsWritten(s, p).Match?
    ensures ParseTermAsWritten(s, p).value.t.Id? || ParseTermAsWritten(s, p).value.t.Func?
  {
  }

  // ---------------------------------------------------------------------
  // The input "1.5em"

  /**
   * As written, "1.5em" starts with the identifier "1"; the term stops
   * before ".5em", which is a second term, and the two render with a space
   * between them.
   */
  lemma OnePointFiveEmAsWritten()
    ensures ParseTermAsWritten(Chars("1.5em"), 0) == Match(Term(Id("1")), 1)
    ensures ParseTermAsWritten(Chars("1.5em"), 1) == Match(Term(Value(".5", Some("em"))), 5)
    ensures Stringify(Expr([Term(Id("1")), Term(Value(".5", Some("em")))])) == Ok("1 .5em")
  {
    OnePointFiveEmHead("1.5em", Chars("1.5em"));
    OnePointFiveEmTail("1.5em", Chars("1.5em"));
    SplitRendering();
  }

  lemma OnePointFiveEmHead(t: string, s: Input)
    requires t == "1.5em" && s == Chars(t)
    ensures ParseTermAsWritten(s, 0) == Match(Term(Id("1")), 1)
  {
    assert s[0] == Ch('1') && s[1] == Ch('.');
    assert IdentEndAsWritten(s, 0) == Some(1);
    NothingIgnorable(s, 1);
    SliceChars(t, 0, 1);
    assert t[0..1] == "1";
    assert ParseIdAsWritten(s, 0) == Match(Id("1"), 1);
    assert ParseFuncAsWritten(s, 0) == NoMatch;
  }

  lemma SplitRendering()
    ensures Stringify(Expr([Term(Id("1")), Term(Value(".5", Some("em")))])) == Ok("1 .5em")
  {
    var items := [Term(Id("1")), Term(Value(".5", Some("em")))];
    assert items[..1] == [Term(Id("1"))];
    assert JoinNodes(items[..1], " ") == Ok("1");
    assert Stringify(items[1]) == Ok(".5em");
  }

  /** The tail ".5em" is a number with a unit under either identifier class. */
  lemma OnePointFiveEmTail(t: string, s: Input)
    requires t == "1.5em" && s == Chars(t)
    ensures ParseTermAsWritten(s, 1) == Match(Term(Value(".5", Some("em"))), 5)
  {
    assert s[1] == Ch('.') && s[2] == Ch('5') && s[3] == Ch('e') && s[4] == Ch('m');
    assert RunEnd(s, 1, IsDigit) == 1;
    assert RunEnd(s, 3, IsDigit) == 3;
    assert MantissaEnd(s, 1) == Some(3);
    assert ExponentEnd(s, 3) == 3;
    assert NumberEnd(s, 1) == Some(3);
    assert RunEnd(s, 5, IsWord) == 5;
    assert UnitEnd(s, 3) == Some(5);
    SliceChars(t, 1, 3);
    SliceChars(t, 3, 5);
    assert t[1..3] == ".5" && t[3..5] == "em";
    assert ParseValue(s, 1) == Match(Value(".5", Some("em")), 5);
    assert IdentEndAsWritten(s, 1) == None;
  }

  /** With the corrected identifier, "1.5em" is the single number 1.5 with the unit em. */
  lemma OnePointFiveEm()
    ensures ParseTerm(Chars("1.5em"), 0) == Match(Term(Value("1.5", Some("em"))), 5)
  {
    OnePointFiveEmNumber("1.5em", Chars("1.5em"));
  }

  lemma OnePointFiveEmNumber(t: string, s: Input)
    requires t == "1.5em" && s == Chars(t)
    ensures ParseTerm(s, 0) == Match(Term(Value("1.5", Some("em"))), 5)
  {
    OnePointFiveEmValue(t, s);
    assert s[0] == Ch('1');
    GrammarFacts.TermAtDigit(s, 0);
  }

  lemma OnePointFiveEmValue(t: string, s: Input)
    requires t == "1.5em" && s == Chars(t)
    ensures ParseValue(s, 0) == Match(Value("1.5", Some("em")), 5)
  {
    assert s[0] == Ch('1') && s[1] == Ch('.') && s[2] == Ch('5') && s[3] == Ch('e') && s[4] == Ch('m');
    assert RunEnd(s, 0, IsDigit) == 1;
    assert RunEnd(s, 3, IsDigit) == 3;
    assert MantissaEnd(s, 0) == Some(3);
    assert ExponentEnd(s, 3) == 3;
    assert NumberEnd(s, 0) == Some(3);
    assert RunEnd(s, 5, IsWord) == 5;
    assert UnitEnd(s, 3) == Some(5);
    SliceChars(t, 0, 3);
    SliceChars(t, 3, 5);
    assert t[0..3] == "1.5" && t[3..5] == "em";
  }

  // ---------------------------------------------------------------------
  // The string token (grammar.mjs:18-19)
  //
  // The comment above the expression says a string may escape its quotes;
  // as written it cannot, since `[^\n"]` takes the backslash and the next
  // quote ends the string. The rest of the model uses StringClose, which
  // keeps a backslash and the character after it together.

  /** As written, a quote after a backslash still closes the string. */
  lemma EscapedQuoteClosesAsWritten(s: Input, j: nat, quote: char)
    requires j <= |s| && IsCh(s, j, '\\') && IsCh(s, j + 1, quote) && quote != '\\'
    ensures StringCloseAsWritten(s, j, quote) == Some(j + 2)
  {
  }

  /** Corrected, an escaped quote is part of the string and scanning goes on after it. */
  lemma EscapedQuoteKept(s: Input, j: nat, quote: char)
    requires j <= |s| && IsCh(s, j, '\\') && IsCh(s, j + 1, quote) && (quote == '"' || quote == '\'')
    ensures j + 2 <= |s| && StringClose(s, j, quote) == StringClose(s, j + 2, quote)
  {
  }

  /** Where no backslash occurs the correction changes nothing. */
  lemma {:induction false} StringCloseWithoutBackslash(s: Input, j: nat, quote: char)
    requires j <= |s| && (quote == '"' || quote == '\'')
    requires forall i | j <= i < |s| :: s[i] != Ch('\\')
    ensures StringClose(s, j, quote) == StringCloseAsWritten(s, j, quote)
    decreases |s| - j
  {
    if j < |s| && !IsCh(s, j, quote) && s[j].Ch? && s[j].c != '\n' {
      StringCloseWithoutBackslash(s, j + 1, quote);
    }
  }

  /** The input "a\"b" between double quotes: as written the string stops at the escaped quote; corrected it takes all six characters. */
  lemma EscapedQuoteExample()
    ensures StringEndAsWritten(Chars("\"a\\\"b\""), 0) == Some(4)
    ensures StringEnd(Chars("\"a\\\"b\""), 0) == Some(6)
  {
    var s := Chars("\"a\\\"b\"");
    assert s[0] == Ch('"') && s[1] == Ch('a') && s[2] == Ch('\\') && s[3] == Ch('"') && s[4] == Ch('b') && s[5] == Ch('"');
    assert StringCloseAsWritten(s, 3, '"') == Some(4);
    assert StringClose(s, 5, '"') == Some(6);
    assert StringClose(s, 4, '"') == Some(6);
    assert StringClose(s, 2, '"') == Some(6);
  }
}
