/**
 * A `;` that no declaration takes ends the set (grammar.mjs:169-180).
 *
 * Of the four alternatives of a round of the set, rule needs a character
 * other than `;` and `}` first, ext_css an interpolation, declaration an
 * identifier or a spliced property, and recover again a character other than
 * `;` and `}`. So at a `;` no round starts: a `;` left over after a
 * recovered stretch that ends in `;`, or after a rule, stops the set there.
 * Inside a rule the body then does not reach its `}` and the rule fails as
 * a whole; at the top level the rest of the input is left unparsed. The
 * error handling the grammar is built around, where a set absorbs whatever
 * it cannot read, evidently means such a `;` to be skipped.
 *
 * The main grammar keeps the set as written. SetItemIntended is the
 * repaired round, with a fifth alternative `(?: ; ignore?)` that consumes a
 * stray `;` and keeps nothing; the repaired set never stops at a `;`.
 */
module SemicolonFinding {
  import opened Syntax
  import opened Lexer
  import opened Grammar
  import GrammarFacts

  // ---------------------------------------------------------------------
  // As written

  /** At a `;` no round of the set matches, so the set stops there with nothing read. */
  lemma StraySemicolonEndsSet(s: Input, p: nat)
    requires p <= |s| && IsCh(s, p, ';')
    ensures SetItem(s, p).NoMatch?
    ensures ParseSet(s, p) == Match(Set([]), p)
  {
    GrammarFacts.NoRuleWithoutBrace(s, p, p);
    assert IdentEnd(s, p).None?;
  }

  /** A rule whose body stops at a `;` fails, since `}` must follow the body directly. */
  lemma StraySemicolonFailsRule(s: Input, p: nat)
    requires p <= |s|
    requires ParseRuleHead(s, p).Match? && IsCh(s, ParseRuleHead(s, p).next, '{')
    requires IsCh(s, ParseSet(s, IgnoreEnd(s, ParseRuleHead(s, p).next + 1)).next, ';')
    ensures ParseRule(s, p).NoMatch?
  {
    GrammarFacts.RuleFacts(s, p);
  }

  /**
   * "garbage;;": recover takes "garbage;", and the second `;` ends the set
   * one element before the end of the input.
   */
  lemma GarbageAsWritten()
    ensures ParseSet(Chars("garbage;;"), 0) == Match(Set([Recover("garbage;")]), 8)
  {
    GarbageParsed("garbage;;", Chars("garbage;;"));
  }

  lemma GarbageParsed(t: string, s: Input)
    requires t == "garbage;;" && s == Chars(t)
    ensures ParseSet(s, 0) == Match(Set([Recover("garbage;")]), 8)
  {
    GarbageRecovered(t, s);
    StraySemicolonEndsSet(s, 8);
    assert SetItems(s, 0) == Repeated([Recover("garbage;")], 8);
  }

  /** The first round of the set on "garbage;;" is the recovered "garbage;". */
  lemma GarbageRecovered(t: string, s: Input)
    requires t == "garbage;;" && s == Chars(t)
    ensures SetItem(s, 0) == Match(Recover("garbage;"), 8)
    ensures SetItemIntended(s, 0) == Match([Recover("garbage;")], 8)
  {
    GarbageRecoverText(t, s);
    GrammarFacts.NoRuleWithoutBrace(s, 0, 7);
    assert NoRuleIntended(s, 0);
    GarbageNoDeclaration(t, s);
    assert ParseExtCss(s, 0).NoMatch?;
  }

  /** recover on "garbage;;" keeps "garbage;" and stops at the second `;`. */
  lemma GarbageRecoverText(t: string, s: Input)
    requires t == "garbage;;" && s == Chars(t)
    ensures forall i | 0 <= i < 7 :: s[i] != Ch('{')
    ensures !InClass(s, 7, IsNotSemiOrBrace)
    ensures ParseRecover(s, 0) == Match(Recover("garbage;"), 8)
  {
    forall i | 0 <= i < 7
      ensures s[i] != Ch('{') && s[i] != Ch(';') && s[i] != Ch('}') && s[i].Ch?
    {
      assert s[i] == Ch(t[i]);
    }
    assert s[7] == Ch(';') && s[8] == Ch(';');
    assert RunEnd(s, 0, IsNotSemiOrBrace) == 7;
    NothingIgnorable(s, 8);
    SliceChars(t, 0, 8);
    assert t[0..8] == "garbage;";
  }

  /** "garbage" is not followed by `:`, so no declaration starts at 0. */
  lemma GarbageNoDeclaration(t: string, s: Input)
    requires t == "garbage;;" && s == Chars(t)
    ensures DeclarationStatement(s, 0).NoMatch?
  {
    assert s[0] == Ch('g') && s[7] == Ch(';');
    forall i | 1 <= i < 7
      ensures InClass(s, i, IsNameChar)
    {
      assert s[i] == Ch(t[i]);
    }
    assert RunEnd(s, 1, IsNameChar) == 7;
    assert IdentEnd(s, 0) == Some(7);
    NothingIgnorable(s, 7);
    assert ParseProperty(s, 0).next == 7;
  }

  // ---------------------------------------------------------------------
  // As evidently intended

  /**
   * A round of the repaired set: the four alternatives in their order, then
   * a stray `;` with the ignorable text after it, which leaves no node.
   */
  function SetItemIntended(s: Input, p: nat): (r: Result<seq<Node>>)
    requires p <= |s|
    ensures r.Match? ==> p < r.next <= |s|
    ensures r.Match? ==> forall i | 0 <= i < |r.value| :: GrammarFacts.IsSetItem(r.value[i])
    ensures IsCh(s, p, ';') ==> r.Match?
    ensures r.NoMatch? ==> !InClass(s, p, IsNotSemiOrBrace) && !IsCh(s, p, ';')
    decreases |s| - p, 1
  {
    var c := ParseRuleIntended(s, p).OrElse(ParseExtCss(s, p)).OrElse(DeclarationStatement(s, p)).OrElse(ParseRecover(s, p));
    if c.Match? then Match([c.value], c.next)
    else if IsCh(s, p, ';') then Match([], IgnoreEnd(s, p + 1))
    else NoMatch
  }

  /** rule, with the repaired set as its body. */
  function ParseRuleIntended(s: Input, p: nat): (r: Result<Node>)
    requires p <= |s|
    ensures r.Match? ==> p < r.next <= |s| && r.value.Rule?
    decreases |s| - p, 0
  {
    if !BraceAhead(s, p) then NoMatch
    else
      var head := ParseRuleHead(s, p);
      if head.NoMatch? || !IsCh(s, head.next, '{') then NoMatch
      else
        var body := ParseSetIntended(s, IgnoreEnd(s, head.next + 1));
        if IsCh(s, body.next, '}') then Match(Rule(head.value, body.value), IgnoreEnd(s, body.next + 1))
        else NoMatch
  }

  function SetItemsIntended(s: Input, p: nat): (r: Repeated<Node>)
    requires p <= |s|
    ensures p <= r.next <= |s|
    ensures SetItemIntended(s, r.next).NoMatch?
    decreases |s| - p, 2
  {
    match SetItemIntended(s, p)
    case NoMatch => Repeated([], p)
    case Match(items, q) =>
      var rest := SetItemsIntended(s, q);
      Repeated(items + rest.items, rest.next)
  }

  /**
   * The repaired set. It never stops at a `;`: only at the end of the
   * input, at a `}` or at an interpolated value no alternative accepts.
   */
  function ParseSetIntended(s: Input, p: nat): (r: Result<Node>)
    requires p <= |s|
    ensures r.Match? && p <= r.next <= |s| && r.value.Set?
    ensures !IsCh(s, r.next, ';')
    ensures r.next == |s| || IsCh(s, r.next, '}') || s[r.next].Interp?
    decreases |s| - p, 3
  {
    var items := SetItemsIntended(s, p);
    Match(Set(items.items), items.next)
  }

  /** No repaired rule starts at `p`: the lookahead fails. */
  predicate NoRuleIntended(s: Input, p: nat)
    requires p <= |s|
  {
    !BraceAhead(s, p) && ParseRuleIntended(s, p).NoMatch?
  }

  /** A round of the repaired set that does not start at a `;` is a round of the set as written. */
  lemma IntendedAgreesOffSemicolon(s: Input, p: nat)
    requires p <= |s| && !IsCh(s, p, ';') && !BraceAhead(s, p)
    ensures SetItemIntended(s, p).Match? <==> SetItem(s, p).Match?
    ensures SetItem(s, p).Match? ==> SetItemIntended(s, p) == Match([SetItem(s, p).value], SetItem(s, p).next)
  {
  }

  /** The repaired set reads "garbage;;" to the end, skipping the second `;`. */
  lemma GarbageIntended()
    ensures ParseSetIntended(Chars("garbage;;"), 0) == Match(Set([Recover("garbage;")]), 9)
  {
    GarbageParsedIntended("garbage;;", Chars("garbage;;"));
  }

  lemma GarbageParsedIntended(t: string, s: Input)
    requires t == "garbage;;" && s == Chars(t)
    ensures ParseSetIntended(s, 0) == Match(Set([Recover("garbage;")]), 9)
  {
    GarbageRecovered(t, s);
    GarbageTailIntended(t, s);
    assert [Recover("garbage;")] + [] == [Recover("garbage;")];
  }

  /** After "garbage;" the repaired set skips the second `;` and reaches the end. */
  lemma GarbageTailIntended(t: string, s: Input)
    requires t == "garbage;;" && s == Chars(t)
    ensures SetItemsIntended(s, 8) == Repeated([], 9)
  {
    assert s[8] == Ch(';');
    SkippedSemicolon(s, 8);
    NothingIgnorable(s, 9);
    IntendedAtEnd(s);
  }

  /** At a `;` the repaired round skips it. */
  lemma SkippedSemicolon(s: Input, p: nat)
    requires p <= |s| && IsCh(s, p, ';')
    ensures SetItemIntended(s, p) == Match([], IgnoreEnd(s, p + 1))
  {
    StraySemicolonEndsSet(s, p);
    assert !BraceAhead(s, p);
  }

  /** At the end of the input the repaired set has no further round. */
  lemma IntendedAtEnd(s: Input)
    ensures SetItemsIntended(s, |s|) == Repeated([], |s|)
  {
    assert !BraceAhead(s, |s|);
    assert SetItemIntended(s, |s|) == NoMatch;
  }
}
