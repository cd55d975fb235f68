/**
 * The lexical layer of the grammar: the regular expressions declared at the
 * top of src/grammar.mjs, written out as scanners over the input elements.
 *
 * Every regular expression of the grammar is applied to one text span at a
 * time, so a token never extends over an interpolated value: an `Interp`
 * element ends a token exactly as the end of the input does.
 *
 * Each scanner returns the position just after the token, or None. The
 * character classes are JavaScript's (`\s`, `\w`, `\d`) written out.
 */
module Lexer {
  import opened Syntax

  // ---------------------------------------------------------------------
  // Character classes

  /** JavaScript's `\s`. */
  predicate IsSpace(c: char)
  {
    c == ' ' || c == '\t' || c == '\n' || c == '\r' || c == '\U{000B}' || c == '\U{000C}'
    || c == '\U{00A0}' || c == '\U{1680}' || ('\U{2000}' <= c <= '\U{200A}')
    || c == '\U{2028}' || c == '\U{2029}' || c == '\U{202F}' || c == '\U{205F}'
    || c == '\U{3000}' || c == '\U{FEFF}'
  }

  predicate IsDigit(c: char) { '0' <= c <= '9' }

  predicate IsLetter(c: char) { ('a' <= c <= 'z') || ('A' <= c <= 'Z') }

  /** JavaScript's `\w`. */
  predicate IsWord(c: char) { IsLetter(c) || IsDigit(c) || c == '_' }

  predicate IsHexDigit(c: char) { IsDigit(c) || ('a' <= c <= 'f') || ('A' <= c <= 'F') }

  /** `[\w\d_-]`, the characters after the first one of an identifier or selector. */
  predicate IsNameChar(c: char) { IsWord(c) || c == '-' }

  /** `[^;}]` */
  predicate IsNotSemiOrBrace(c: char) { c != ';' && c != '}' }

  /** `[^\n\r]` */
  predicate IsNotLineBreak(c: char) { c != '\n' && c != '\r' }

  // ---------------------------------------------------------------------
  // Looking at the input

  /** The element at `i` is the text character `c`. */
  predicate IsCh(s: Input, i: nat, c: char)
  {
    i < |s| && s[i] == Ch(c)
  }

  /** The element at `i` is a text character of the class `cls`. */
  predicate InClass(s: Input, i: nat, cls: char -> bool)
  {
    i < |s| && s[i].Ch? && cls(s[i].c)
  }

  /** `s[p..q]` is a stretch of text characters, with no interpolation in it. */
  predicate IsText(s: Input, p: nat, q: nat)
  {
    p <= q <= |s| && forall i | p <= i < q :: s[i].Ch?
  }

  /** The characters of the text stretch `s[p..q]`. */
  function Slice(s: Input, p: nat, q: nat): (t: string)
    requires IsText(s, p, q)
    ensures |t| == q - p
    ensures forall i | 0 <= i < q - p :: s[p + i] == Ch(t[i])
    decreases q - p
  {
    if p == q then "" else [s[p].c] + Slice(s, p + 1, q)
  }

  /** The literal text `lit` starts at `p`. */
  predicate HasLit(s: Input, p: nat, lit: string)
  {
    p + |lit| <= |s| && forall i | 0 <= i < |lit| :: s[p + i] == Ch(lit[i])
  }

  /** A stretch of a text span, read back, is the corresponding substring. */
  lemma {:induction false} SliceChars(t: string, p: nat, q: nat)
    requires p <= q <= |t|
    ensures IsText(Chars(t), p, q) && Slice(Chars(t), p, q) == t[p..q]
  {
    var s := Chars(t);
    var r := Slice(s, p, q);
    forall i | 0 <= i < q - p
      ensures r[i] == t[p..q][i]
    {
      assert s[p + i] == Ch(r[i]);
    }
  }

  /** The end of the longest run of characters of the class `cls` from `p`. */
  function RunEnd(s: Input, p: nat, cls: char -> bool): (q: nat)
    requires p <= |s|
    ensures p <= q <= |s|
    ensures forall i | p <= i < q :: s[i].Ch? && cls(s[i].c)
    ensures !InClass(s, q, cls)
    decreases |s| - p
  {
    if InClass(s, p, cls) then RunEnd(s, p + 1, cls) else p
  }

  // ---------------------------------------------------------------------
  // ignore: whitespace, block comments and line comments (grammar.mjs:9)

  /** Scanning a block comment from inside it: the end of the first `*` `/` at or after `j`. */
  function CommentClose(s: Input, j: nat): (r: Option<nat>)
    requires j <= |s|
    ensures r.Some? ==> j + 2 <= r.value <= |s| && IsText(s, j, r.value)
    ensures r.Some? ==> s[r.value - 2] == Ch('*') && s[r.value - 1] == Ch('/')
    ensures r.Some? ==> forall i | j <= i < r.value - 2 :: !(s[i] == Ch('*') && s[i + 1] == Ch('/'))
    ensures r.None? ==> forall k | j <= k && IsText(s, j, k + 2) :: !(s[k] == Ch('*') && s[k + 1] == Ch('/'))
    decreases |s| - j
  {
    if IsCh(s, j, '*') && IsCh(s, j + 1, '/') then Some(j + 2)
    else if j < |s| && s[j].Ch? then CommentClose(s, j + 1)
    else None
  }

  /** A block comment: from its opening to the first closing after it, with no interpolation in between. */
  function BlockComment(s: Input, p: nat): (r: Option<nat>)
    requires p <= |s|
    ensures r.Some? ==> p + 4 <= r.value <= |s| && IsText(s, p, r.value) && HasLit(s, p, "/*")
    ensures r.Some? ==> s[r.value - 2] == Ch('*') && s[r.value - 1] == Ch('/')
    ensures r.Some? ==> forall i | p + 2 <= i < r.value - 2 :: !(s[i] == Ch('*') && s[i + 1] == Ch('/'))
    ensures r.None? && IsCh(s, p, '/') && IsCh(s, p + 1, '*') ==>
      forall k | p + 2 <= k && IsText(s, p + 2, k + 2) :: !(s[k] == Ch('*') && s[k + 1] == Ch('/'))
    ensures !(IsCh(s, p, '/') && IsCh(s, p + 1, '*')) ==> r.None?
  {
    if IsCh(s, p, '/') && IsCh(s, p + 1, '*') then CommentClose(s, p + 2) else None
  }

  /** `\/\/[^\n\r]*`: from `//` to the end of the line. */
  function LineComment(s: Input, p: nat): (r: Option<nat>)
    requires p <= |s|
    ensures r.Some? <==> IsCh(s, p, '/') && IsCh(s, p + 1, '/')
    ensures r.Some? ==> p + 2 <= r.value <= |s| && IsText(s, p, r.value)
    ensures r.Some? ==> (forall i | p + 2 <= i < r.value :: IsNotLineBreak(s[i].c)) && !InClass(s, r.value, IsNotLineBreak)
  {
    if IsCh(s, p, '/') && IsCh(s, p + 1, '/') then Some(RunEnd(s, p + 2, IsNotLineBreak)) else None
  }

  /**
   * One repetition of the alternation inside `ignore`: `\s+`, then a block
   * comment, then a line comment. Whitespace is taken to the end of its run;
   * where a block comment opens the piece is exactly that comment, at `//`
   * exactly the line comment.
   */
  function IgnoreStep(s: Input, p: nat): (r: Option<nat>)
    requires p <= |s|
    ensures r.Some? ==> p < r.value <= |s| && IsText(s, p, r.value)
    ensures r.Some? <==> InClass(s, p, IsSpace) || BlockComment(s, p).Some? || LineComment(s, p).Some?
    ensures InClass(s, p, IsSpace) ==>
      r.Some? && (forall i | p <= i < r.value :: IsSpace(s[i].c)) && !InClass(s, r.value, IsSpace)
    ensures IsCh(s, p, '/') && IsCh(s, p + 1, '*') ==> r == BlockComment(s, p)
    ensures IsCh(s, p, '/') && IsCh(s, p + 1, '/') ==> r == LineComment(s, p)
  {
    if InClass(s, p, IsSpace) then Some(RunEnd(s, p, IsSpace))
    else if BlockComment(s, p).Some? then BlockComment(s, p)
    else LineComment(s, p)
  }

  /** The stretch from `p` to `q` is a sequence of whole ignorable pieces, each read where the previous one ends. */
  predicate Ignorable(s: Input, p: nat, q: nat)
    requires p <= q <= |s|
    decreases q - p
  {
    p == q || (var m := IgnoreStep(s, p); m.Some? && m.value <= q && Ignorable(s, m.value, q))
  }

  /**
   * The position after the optional `ignore?` that follows most tokens: zero
   * or more ignorable pieces. It consumes whole pieces only, and no further
   * piece starts where it stops.
   */
  function IgnoreEnd(s: Input, p: nat): (q: nat)
    requires p <= |s|
    ensures p <= q <= |s| && IsText(s, p, q)
    ensures Ignorable(s, p, q)
    ensures IgnoreStep(s, q).None?
    decreases |s| - p
  {
    match IgnoreStep(s, p)
    case None => p
    case Some(q) => IgnoreEnd(s, q)
  }

  /** Nothing is ignorable at `p` when neither whitespace nor `/` is there. */
  lemma NothingIgnorable(s: Input, p: nat)
    requires p <= |s| && !InClass(s, p, IsSpace) && !IsCh(s, p, '/')
    ensures IgnoreEnd(s, p) == p
  {
  }

  // ---------------------------------------------------------------------
  // number (grammar.mjs:11): [+-]?(?:\d*[.])?\d+(?:[eE][+-]?\d+)?

  predicate IsSign(c: char) { c == '+' || c == '-' }

  predicate IsExponentMark(c: char) { c == 'e' || c == 'E' }

  /** A mantissa can start at `i`: a digit, or a `.` and a digit. */
  predicate MantissaStart(s: Input, i: nat)
  {
    InClass(s, i, IsDigit) || (IsCh(s, i, '.') && InClass(s, i + 1, IsDigit))
  }

  /** An exponent can start at `i`: `e` or `E`, an optional sign, a digit. */
  predicate ExponentStart(s: Input, i: nat)
  {
    InClass(s, i, IsExponentMark) && (InClass(s, i + 1, IsDigit) || (InClass(s, i + 1, IsSign) && InClass(s, i + 2, IsDigit)))
  }

  /**
   * The mantissa after the sign: `(?:\d*[.])?\d+`. It is digits with at
   * most one `.`, ends in a digit and is as long as it can be: no digit
   * follows it, and when it has no `.`, no `.` and digit follow it either.
   */
  function MantissaEnd(s: Input, p: nat): (r: Option<nat>)
    requires p <= |s|
    ensures r.Some? <==> MantissaStart(s, p)
    ensures r.Some? ==> p < r.value <= |s| && IsText(s, p, r.value) && InClass(s, r.value - 1, IsDigit)
    ensures r.Some? ==> forall i | p <= i < r.value :: IsDigit(s[i].c) || s[i] == Ch('.')
    ensures r.Some? ==> forall i, k | p <= i < k < r.value && s[i] == Ch('.') :: s[k] != Ch('.')
    ensures r.Some? ==> !InClass(s, r.value, IsDigit)
    ensures r.Some? && (forall i | p <= i < r.value :: s[i] != Ch('.')) ==> !MantissaStart(s, r.value)
  {
    var d := RunEnd(s, p, IsDigit);
    if IsCh(s, d, '.') && InClass(s, d + 1, IsDigit) then Some(RunEnd(s, d + 1, IsDigit))
    else if d > p then Some(d)
    else None
  }

  /** The end of the optional exponent `(?:[eE][+-]?\d+)?` after a mantissa ending at `q`. */
  function ExponentEnd(s: Input, q: nat): (e: nat)
    requires q <= |s|
    ensures q <= e <= |s| && IsText(s, q, e)
    ensures e > q <==> ExponentStart(s, q)
    ensures e > q ==> InClass(s, e - 1, IsDigit) && !InClass(s, e, IsDigit)
    ensures e > q ==> forall i | q + 2 <= i < e :: IsDigit(s[i].c)
    ensures forall i | q <= i < e :: IsDigit(s[i].c) || IsExponentMark(s[i].c) || IsSign(s[i].c)
  {
    if InClass(s, q, IsExponentMark) then
      if InClass(s, q + 1, IsSign) && InClass(s, q + 2, IsDigit) then RunEnd(s, q + 2, IsDigit)
      else if InClass(s, q + 1, IsDigit) then RunEnd(s, q + 1, IsDigit)
      else q
    else q
  }

  /**
   * The number token. It starts with a mantissa, after an optional sign,
   * and is as long as it can be: no digit follows it; when it has no
   * exponent, no exponent follows it; when it has neither `.` nor
   * exponent, no `.` and digit follow it.
   */
  function NumberEnd(s: Input, p: nat): (r: Option<nat>)
    requires p <= |s|
    ensures r.Some? <==> MantissaStart(s, p) || (InClass(s, p, IsSign) && MantissaStart(s, p + 1))
    ensures r.Some? ==> p < r.value <= |s| && IsText(s, p, r.value)
    ensures r.Some? ==> InClass(s, r.value - 1, IsDigit) && !InClass(s, r.value, IsDigit)
    ensures r.Some? && (forall i | p <= i < r.value :: s[i] != Ch('e') && s[i] != Ch('E')) ==> !ExponentStart(s, r.value)
    ensures r.Some? && (forall i | p <= i < r.value :: s[i] != Ch('e') && s[i] != Ch('E') && s[i] != Ch('.')) ==>
      !MantissaStart(s, r.value)
    ensures r.Some? ==> forall i | p <= i < r.value :: IsDigit(s[i].c) || s[i] == Ch('.') || IsExponentMark(s[i].c) || IsSign(s[i].c)
    ensures r.Some? ==> var m := if InClass(s, p, IsSign) then p + 1 else p;
      MantissaEnd(s, m).Some? && r.value == ExponentEnd(s, MantissaEnd(s, m).value)
  {
    var m := if InClass(s, p, IsSign) then p + 1 else p;
    match MantissaEnd(s, m)
    case None => None
    case Some(q) =>
      assert forall i | m <= i < q :: IsDigit(s[i].c) || s[i] == Ch('.');
      Some(ExponentEnd(s, q))
  }

  // ---------------------------------------------------------------------
  // identifier (grammar.mjs:13): -{0,2}[\w_][\w\d_-]*

  /** An identifier whose first character after the hyphens is of the class `start`. */
  function IdentWith(s: Input, p: nat, start: char -> bool): (r: Option<nat>)
    requires p <= |s|
    ensures r.Some? ==> p < r.value <= |s| && IsText(s, p, r.value)
    ensures r.Some? ==> !InClass(s, r.value, IsNameChar)
  {
    var h := if IsCh(s, p, '-') then (if IsCh(s, p + 1, '-') then p + 2 else p + 1) else p;
    if InClass(s, h, start) then Some(RunEnd(s, h + 1, IsNameChar)) else None
  }

  /** A character that may begin an identifier (after its hyphens): a letter or `_`. */
  predicate IsIdentStart(c: char) { IsLetter(c) || c == '_' }

  /** `-{0,2}` followed by a character of the class `start`, which holds no hyphen. */
  predicate HyphensThen(s: Input, p: nat, start: char -> bool)
  {
    InClass(s, p, start) || (IsCh(s, p, '-') && (InClass(s, p + 1, start) || (IsCh(s, p + 1, '-') && InClass(s, p + 2, start))))
  }

  /**
   * The identifier token. As written, the first character after the hyphens
   * may be any word character, digits included (IdentEndAsWritten); that
   * makes every number lex as an identifier (see README, Findings). The
   * model uses the corrected class: a letter or an underscore.
   */
  function IdentEnd(s: Input, p: nat): (r: Option<nat>)
    requires p <= |s|
    ensures r.Some? ==> p < r.value <= |s| && IsText(s, p, r.value) && !InClass(s, r.value, IsNameChar)
    ensures r.Some? ==> forall i | p <= i < r.value :: IsNameChar(s[i].c)
    ensures r.Some? <==> HyphensThen(s, p, IsIdentStart)
  {
    IdentWith(s, p, IsIdentStart)
  }

  function IdentEndAsWritten(s: Input, p: nat): (r: Option<nat>)
    requires p <= |s|
    ensures r.Some? ==> p < r.value <= |s| && IsText(s, p, r.value) && !InClass(s, r.value, IsNameChar)
    ensures r.Some? ==> forall i | p <= i < r.value :: IsNameChar(s[i].c)
    ensures r.Some? <==> HyphensThen(s, p, IsWord)
    ensures InClass(s, p, IsDigit) ==> r.Some?
  {
    IdentWith(s, p, IsWord)
  }

  // ---------------------------------------------------------------------
  // unit (grammar.mjs:15): %|\w+

  function UnitEnd(s: Input, p: nat): (r: Option<nat>)
    requires p <= |s|
    ensures r.Some? ==> p < r.value <= |s| && IsText(s, p, r.value)
    ensures r.Some? <==> IsCh(s, p, '%') || InClass(s, p, IsWord)
    ensures r.Some? && IsCh(s, p, '%') ==> r.value == p + 1
    ensures r.Some? && !IsCh(s, p, '%') ==> (forall i | p <= i < r.value :: IsWord(s[i].c)) && !InClass(s, r.value, IsWord)
  {
    if IsCh(s, p, '%') then Some(p + 1)
    else if InClass(s, p, IsWord) then Some(RunEnd(s, p, IsWord))
    else None
  }

  // ---------------------------------------------------------------------
  // simple_selector (grammar.mjs:17): [&*]|[#.]?[_\w][_-\w\d]*

  function SimpleSelectorEnd(s: Input, p: nat): (r: Option<nat>)
    requires p <= |s|
    ensures r.Some? ==> p < r.value <= |s| && IsText(s, p, r.value)
    ensures r.Some? <==>
      (IsCh(s, p, '&') || IsCh(s, p, '*') || InClass(s, p, IsWord) || ((IsCh(s, p, '#') || IsCh(s, p, '.')) && InClass(s, p + 1, IsWord)))
    ensures r.Some? && (IsCh(s, p, '&') || IsCh(s, p, '*')) ==> r.value == p + 1
    ensures r.Some? && !IsCh(s, p, '&') && !IsCh(s, p, '*') ==>
      (forall i | p < i < r.value :: IsNameChar(s[i].c)) && !InClass(s, r.value, IsNameChar)
  {
    if IsCh(s, p, '&') || IsCh(s, p, '*') then Some(p + 1)
    else
      var q := if IsCh(s, p, '#') || IsCh(s, p, '.') then p + 1 else p;
      if InClass(s, q, IsWord) then Some(RunEnd(s, q + 1, IsNameChar)) else None
  }

  // ---------------------------------------------------------------------
  // string (grammar.mjs:18-19): "(?:[^\n"]|\\.)*"|'(?:[^\n']|\\.)*'

  /** The characters JavaScript's `.` does not match. */
  predicate IsLineTerminator(c: char) { c == '\n' || c == '\r' || c == '\U{2028}' || c == '\U{2029}' }

  /**
   * Scanning the body of a string opened by `quote`, as written: the end of
   * the first `quote` at or after `j`, provided no line feed comes first.
   * The first alternative `[^\n"]` already takes a backslash, so the
   * `\\.` alternative never changes what is matched and a backslash
   * escapes nothing (see README, Findings).
   */
  function StringCloseAsWritten(s: Input, j: nat, quote: char): (r: Option<nat>)
    requires j <= |s|
    ensures r.Some? ==> j < r.value <= |s| && IsText(s, j, r.value) && s[r.value - 1] == Ch(quote)
    ensures r.Some? ==> forall i | j <= i < r.value - 1 :: s[i] != Ch(quote) && s[i] != Ch('\n')
    ensures r.None? ==> forall k | j <= k && IsText(s, j, k + 1) && s[k] == Ch(quote) :: !NoLineFeed(s, j, k)
    decreases |s| - j
  {
    if IsCh(s, j, quote) then Some(j + 1)
    else if j < |s| && s[j].Ch? && s[j].c != '\n' then StringCloseAsWritten(s, j + 1, quote)
    else None
  }

  /** No line feed in `s[j..k]`. */
  predicate NoLineFeed(s: Input, j: nat, k: nat)
  {
    forall i | j <= i < k && i < |s| :: s[i] != Ch('\n')
  }

  /** As written: from a quote to the next same quote, with no line feed in between. */
  function StringEndAsWritten(s: Input, p: nat): (r: Option<nat>)
    requires p <= |s|
    ensures r.Some? ==> p + 2 <= r.value <= |s| && IsText(s, p, r.value)
    ensures r.Some? ==> (IsCh(s, p, '"') || IsCh(s, p, '\'')) && s[r.value - 1] == s[p]
    ensures r.Some? ==> forall i | p < i < r.value - 1 :: s[i] != s[p] && s[i] != Ch('\n')
    ensures r.None? && (IsCh(s, p, '"') || IsCh(s, p, '\'')) ==>
      forall k | p < k && IsText(s, p, k + 1) && s[k] == s[p] :: !NoLineFeed(s, p + 1, k)
  {
    if IsCh(s, p, '"') then StringCloseAsWritten(s, p + 1, '"')
    else if IsCh(s, p, '\'') then StringCloseAsWritten(s, p + 1, '\'')
    else None
  }

  /**
   * The string body as evidently intended, `(?:[^\n"\\]|\\.)*`: a
   * backslash and the character after it (anything but a line terminator)
   * go together, so an escaped quote does not end the string. A line feed
   * ends it unescaped, as before.
   */
  function StringClose(s: Input, j: nat, quote: char): (r: Option<nat>)
    requires j <= |s| && (quote == '"' || quote == '\'')
    ensures r.Some? ==> j < r.value <= |s| && IsText(s, j, r.value) && s[r.value - 1] == Ch(quote)
    ensures r.Some? ==> IsStringBody(s, j, r.value - 1, quote)
    ensures forall e | j <= e < |s| && IsStringBody(s, j, e, quote) && s[e] == Ch(quote) :: r == Some(e + 1)
    decreases |s| - j
  {
    if IsCh(s, j, quote) then Some(j + 1)
    else if IsCh(s, j, '\\') then
      if InClass(s, j + 1, c => !IsLineTerminator(c)) then StringClose(s, j + 2, quote) else None
    else if j < |s| && s[j].Ch? && s[j].c != '\n' then StringClose(s, j + 1, quote)
    else None
  }

  /**
   * The regular expression `(?:[^\n"\\]|\\.)*` for the quote `quote`, stated
   * on its own: `s[j..e]` splits into characters other than the quote, a
   * backslash and a line feed, and pairs of a backslash and a character
   * that is not a line terminator.
   */
  predicate IsStringBody(s: Input, j: nat, e: nat, quote: char)
    decreases e - j
  {
    j == e
    || (j < e && j < |s| && s[j].Ch? && s[j].c != quote && s[j].c != '\\' && s[j].c != '\n' && IsStringBody(s, j + 1, e, quote))
    || (j + 1 < e && IsCh(s, j, '\\') && InClass(s, j + 1, c => !IsLineTerminator(c)) && IsStringBody(s, j + 2, e, quote))
  }

  /**
   * The string token as evidently intended: a quote, a body, and the same
   * quote; the body is exactly the one IsStringBody describes.
   */
  function StringEnd(s: Input, p: nat): (r: Option<nat>)
    requires p <= |s|
    ensures r.Some? ==> p + 2 <= r.value <= |s| && IsText(s, p, r.value)
    ensures r.Some? ==> (IsCh(s, p, '"') || IsCh(s, p, '\'')) && s[r.value - 1] == s[p]
    ensures r.Some? ==> IsStringBody(s, p + 1, r.value - 1, s[p].c)
    ensures forall e | p < e < |s| && (IsCh(s, p, '"') || IsCh(s, p, '\'')) && IsStringBody(s, p + 1, e, s[p].c) && s[e] == s[p] ::
      r == Some(e + 1)
  {
    if IsCh(s, p, '"') then StringClose(s, p + 1, '"')
    else if IsCh(s, p, '\'') then StringClose(s, p + 1, '\'')
    else None
  }

  // ---------------------------------------------------------------------
  // hex colour (grammar.mjs:50): #[0-9a-fA-F]{3,8}

  function HexEnd(s: Input, p: nat): (r: Option<nat>)
    requires p <= |s|
    ensures r.Some? <==> IsCh(s, p, '#') && InClass(s, p + 1, IsHexDigit) && InClass(s, p + 2, IsHexDigit) && InClass(s, p + 3, IsHexDigit)
    ensures r.Some? ==> p + 4 <= r.value <= p + 9 && r.value <= |s| && IsText(s, p, r.value)
    ensures r.Some? ==> forall i | p < i < r.value :: IsHexDigit(s[i].c)
    ensures r.Some? ==> r.value == p + 9 || !InClass(s, r.value, IsHexDigit)
  {
    if IsCh(s, p, '#') then
      var e := RunEnd(s, p + 1, IsHexDigit);
      if e - (p + 1) >= 3 then Some(if e - (p + 1) > 8 then p + 9 else e) else None
    else None
  }
}
