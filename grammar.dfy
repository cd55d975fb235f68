/**
 * The productions of src/grammar.mjs as recursive-descent functions.
 *
 * Each production takes the input and a position and either fails without
 * consuming anything (NoMatch) or returns the node it builds and the
 * position after it (Match). The composition is that of a parsing
 * expression grammar: alternatives are tried in their declared order and
 * the first that succeeds is taken for good; `?` and `*` are greedy and
 * never give back what they matched; a failed sequence rewinds to where it
 * started. The captured values of a production become the fields of its
 * node, in order; the `(?: ...)` groups are matched but not kept.
 *
 * Termination: every application that succeeds consumes at least one
 * element (stated by the ensures clauses), and the recursive cycles
 * set -> rule -> set and selector -> selector_term -> pseudo ->
 * pseudo_args -> selector pass through a literal `{`, `:` or `(`. The
 * measure is the input left, then the rank of the production within its
 * cycle.
 */
module Grammar {
  import opened Syntax
  import opened Lexer

  /** The outcome of one production at one position. */
  datatype Result<+T> = NoMatch | Match(value: T, next: nat)
  {
    /** Ordered choice: this outcome if it matched, the other one otherwise. */
    function OrElse(other: Result<T>): Result<T>
    {
      if Match? then this else other
    }
  }

  /** The outcome of a repetition: the captured values of every round, and where the last one ended. */
  datatype Repeated<+T> = Repeated(items: seq<T>, next: nat)

  // ---------------------------------------------------------------------
  // Interpolations (grammar.mjs:21-46)

  /** `x.tag`: present on tagged objects only. */
  function TagProperty(x: Embedded): Option<string>
  {
    if x.Tagged? then Some(Tag(x.node)) else None
  }

  /**
   * `extTag(tag)(x)`: `!!x && (typeof x === 'string' || typeof x === 'function'
   * || x.tag === tag) && x`. Only the empty string among the strings is
   * falsy; every function and every tagged object is truthy; an Other value
   * fails all three tests.
   */
  function ExtTag(tag: string, x: Embedded): (r: Option<Embedded>)
    ensures r.Some? <==> x != Str("") && x != Other && (x.Tagged? ==> Tag(x.node) == tag)
    ensures r.Some? ==> r.value == x
  {
    var truthy := x != Str("");
    if truthy && (x.Str? || x.Fn? || TagProperty(x) == Some(tag)) then Some(x) else None
  }

  /** `interpolation(extTag(tag))`: the interpolated value at `p`, if it is one and extTag accepts it. */
  function Splice(s: Input, p: nat, tag: string): (r: Option<Embedded>)
    requires p <= |s|
    ensures r.Some? ==> p < |s| && s[p] == Interp(r.value)
  {
    if p < |s| && s[p].Interp? then ExtTag(tag, s[p].v) else None
  }

  /** The stretch from `p` to `e` is rounds of a `;` followed by the ignorable text after it. */
  predicate SemicolonRounds(s: Input, p: nat, e: nat)
    requires p <= e <= |s|
    decreases e - p
  {
    p == e || (IsCh(s, p, ';') && var m := IgnoreEnd(s, p + 1); m <= e && SemicolonRounds(s, m, e))
  }

  /** `(?: ${/;/} ${ignore}?)*`: it consumes whole rounds only, and stops where no `;` follows. */
  function SemicolonsEnd(s: Input, p: nat): (e: nat)
    requires p <= |s|
    ensures p <= e <= |s| && IsText(s, p, e)
    ensures SemicolonRounds(s, p, e)
    ensures !IsCh(s, e, ';')
    decreases |s| - p
  {
    if IsCh(s, p, ';') then SemicolonsEnd(s, IgnoreEnd(s, p + 1)) else p
  }

  function ParseExtCss(s: Input, p: nat): (r: Result<Node>)
    requires p <= |s|
    ensures r.Match? ==> p < r.next <= |s| && r.value.ExtCss?
  {
    match Splice(s, p, "set")
    case None => NoMatch
    case Some(v) => Match(ExtCss(v), SemicolonsEnd(s, p + 1))
  }

  function ParseExtProperty(s: Input, p: nat): (r: Result<Node>)
    requires p <= |s|
    ensures r.Match? ==> p < r.next <= |s| && r.value.ExtProperty?
  {
    match Splice(s, p, "id")
    case None => NoMatch
    case Some(v) => Match(ExtProperty(v), IgnoreEnd(s, p + 1))
  }

  function ParseExtValue(s: Input, p: nat): (r: Result<Node>)
    requires p <= |s|
    ensures r.Match? ==> p < r.next <= |s| && r.value.ExtValue?
  {
    match Splice(s, p, "expr")
    case None => NoMatch
    case Some(v) => Match(ExtValue(v), IgnoreEnd(s, p + 1))
  }

  function ParseExtSelector(s: Input, p: nat): (r: Result<Node>)
    requires p <= |s|
    ensures r.Match? ==> p < r.next <= |s| && r.value.ExtSelector?
  {
    match Splice(s, p, "selector")
    case None => NoMatch
    case Some(v) => Match(ExtSelector(v), IgnoreEnd(s, p + 1))
  }

  function ParseExtAt(s: Input, p: nat): (r: Result<Node>)
    requires p <= |s|
    ensures r.Match? ==> p < r.next <= |s| && r.value.ExtAt?
  {
    match Splice(s, p, "at_expr")
    case None => NoMatch
    case Some(v) => Match(ExtAt(v), p + 1)
  }

  // ---------------------------------------------------------------------
  // Values (grammar.mjs:48-68, 110-137)

  function ParseHex(s: Input, p: nat): (r: Result<Node>)
    requires p <= |s|
    ensures r.Match? ==> p < r.next <= |s| && r.value.Hex?
  {
    match HexEnd(s, p)
    case None => NoMatch
    case Some(q) => Match(Hex(Slice(s, p, q)), IgnoreEnd(s, q))
  }

  function ParseId(s: Input, p: nat): (r: Result<Node>)
    requires p <= |s|
    ensures r.Match? ==> p < r.next <= |s| && r.value.Id?
    ensures r.Match? <==> IdentEnd(s, p).Some?
  {
    match IdentEnd(s, p)
    case None => NoMatch
    case Some(q) => Match(Id(Slice(s, p, q)), IgnoreEnd(s, q))
  }

  function ParseImportant(s: Input, p: nat): (r: Result<Node>)
    requires p <= |s|
    ensures r.Match? ==> p < r.next <= |s| && r.value.Important?
  {
    if IsCh(s, p, '!') then
      var q := IgnoreEnd(s, p + 1);
      if HasLit(s, q, "important") then Match(Important, IgnoreEnd(s, q + 9)) else NoMatch
    else NoMatch
  }

  /** `value`: a number with an optional unit, or a string; then `ignore?`. */
  function ParseValue(s: Input, p: nat): (r: Result<Node>)
    requires p <= |s|
    ensures r.Match? ==> p < r.next <= |s| && r.value.Value?
    ensures r.Match? <==> NumberEnd(s, p).Some? || StringEnd(s, p).Some?
  {
    match NumberEnd(s, p)
    case Some(q) =>
      (match UnitEnd(s, q)
       case Some(u) => Match(Value(Slice(s, p, q), Some(Slice(s, q, u))), IgnoreEnd(s, u))
       case None => Match(Value(Slice(s, p, q), None), IgnoreEnd(s, q)))
    case None =>
      (match StringEnd(s, p)
       case Some(q) => Match(Value(Slice(s, p, q), None), IgnoreEnd(s, q))
       case None => NoMatch)
  }

  /** `func`: an identifier, `(`, a single `value` (not a value expression), `)`. */
  function ParseFunc(s: Input, p: nat): (r: Result<Node>)
    requires p <= |s|
    ensures r.Match? ==> p < r.next <= |s| && r.value.Func?
    ensures r.Match? ==> IdentEnd(s, p).Some? && IsCh(s, IdentEnd(s, p).value, '(') && r.value.arg.Value?
  {
    match IdentEnd(s, p)
    case None => NoMatch
    case Some(q) =>
      if !IsCh(s, q, '(') then NoMatch
      else
        var v := ParseValue(s, IgnoreEnd(s, q + 1));
        if v.Match? && IsCh(s, v.next, ')') then Match(Func(Slice(s, p, q), v.value), IgnoreEnd(s, v.next + 1))
        else NoMatch
  }

  /** `value_term`, tagged `term`: ext_value | func | id | hex | value, first success wins. */
  function ParseTerm(s: Input, p: nat): (r: Result<Node>)
    requires p <= |s|
    ensures r.Match? ==> p < r.next <= |s| && r.value.Term?
    ensures r.Match? ==> r.value.t.ExtValue? || r.value.t.Func? || r.value.t.Id? || r.value.t.Hex? || r.value.t.Value?
  {
    var c := ParseExtValue(s, p).OrElse(ParseFunc(s, p)).OrElse(ParseId(s, p)).OrElse(ParseHex(s, p)).OrElse(ParseValue(s, p));
    if c.Match? then Match(Term(c.value), c.next) else NoMatch
  }

  predicate IsOperatorChar(c: char) { c == '/' || c == ',' || c == '*' || c == '+' || c == '-' }

  function ParseOperator(s: Input, p: nat): (r: Result<Node>)
    requires p <= |s|
    ensures r.Match? ==> p < r.next <= |s| && r.value.Operator?
  {
    if InClass(s, p, IsOperatorChar) then Match(Operator([s[p].c]), IgnoreEnd(s, p + 1)) else NoMatch
  }

  /** One round of `(${operator}? ${value_term})`. An operator once matched is kept: if no term follows, the round fails. */
  function ExprStep(s: Input, p: nat): (r: Result<seq<Node>>)
    requires p <= |s|
    ensures r.Match? ==> p < r.next <= |s|
  {
    var o := ParseOperator(s, p);
    if o.Match? then
      var t := ParseTerm(s, o.next);
      if t.Match? then Match([o.value, t.value], t.next) else NoMatch
    else
      var t := ParseTerm(s, p);
      if t.Match? then Match([t.value], t.next) else NoMatch
  }

  function ExprSteps(s: Input, p: nat): (r: Repeated<Node>)
    requires p <= |s|
    ensures p <= r.next <= |s|
    decreases |s| - p
  {
    match ExprStep(s, p)
    case NoMatch => Repeated([], p)
    case Match(items, q) =>
      var rest := ExprSteps(s, q);
      Repeated(items + rest.items, rest.next)
  }

  /** `value_expr`, tagged `expr`. */
  function ParseExpr(s: Input, p: nat): (r: Result<Node>)
    requires p <= |s|
    ensures r.Match? ==> p < r.next <= |s| && r.value.Expr?
  {
    match ParseTerm(s, p)
    case NoMatch => NoMatch
    case Match(t, q) =>
      var more := ExprSteps(s, q);
      Match(Expr([t] + more.items), more.next)
  }

  /** `(${id} | ${ext_property})`: the property of a declaration. */
  function ParseProperty(s: Input, p: nat): (r: Result<Node>)
    requires p <= |s|
    ensures r.Match? ==> p < r.next <= |s| && (r.value.Id? || r.value.ExtProperty?)
  {
    ParseId(s, p).OrElse(ParseExtProperty(s, p))
  }

  function ParseDeclaration(s: Input, p: nat): (r: Result<Node>)
    requires p <= |s|
    ensures r.Match? ==> p < r.next <= |s| && r.value.Declaration?
  {
    var prop := ParseProperty(s, p);
    if prop.NoMatch? || !IsCh(s, prop.next, ':') then NoMatch
    else
      match ParseExpr(s, IgnoreEnd(s, prop.next + 1))
      case NoMatch => NoMatch
      case Match(e, q) =>
        var imp := ParseImportant(s, q);
        if imp.Match? then Match(Declaration(prop.value, e, Some(imp.value)), imp.next)
        else Match(Declaration(prop.value, e, None), q)
  }

  // ---------------------------------------------------------------------
  // Selectors (grammar.mjs:70-108)

  predicate IsCombinatorChar(c: char) { c == '>' || c == '+' || c == '~' }

  function ParseCombinator(s: Input, p: nat): (r: Result<Node>)
    requires p <= |s|
    ensures r.Match? ==> p < r.next <= |s| && r.value.Combinator?
  {
    if InClass(s, p, IsCombinatorChar) then Match(Combinator([s[p].c]), IgnoreEnd(s, p + 1)) else NoMatch
  }

  predicate IsAttribOpChar(c: char) { c == '~' || c == '|' || c == '^' || c == '$' || c == '*' }

  /** `[~|^$*]?=` */
  function AttribOpEnd(s: Input, p: nat): (r: Option<nat>)
    requires p <= |s|
    ensures r.Some? ==> p < r.value <= |s| && IsText(s, p, r.value)
    ensures r.Some? <==> IsCh(s, p, '=') || (InClass(s, p, IsAttribOpChar) && IsCh(s, p + 1, '='))
    ensures r.Some? ==> IsCh(s, r.value - 1, '=') && (r.value == p + 1 || InClass(s, p, IsAttribOpChar))
  {
    if InClass(s, p, IsAttribOpChar) && IsCh(s, p + 1, '=') then Some(p + 2)
    else if IsCh(s, p, '=') then Some(p + 1)
    else None
  }

  predicate IsFlagChar(c: char) { c == 'i' || c == 'I' || c == 's' || c == 'S' }

  /** `attrib`: `[`, an identifier, the operator, a string, an optional flag and `]`, with ignorable text between. */
  function ParseAttrib(s: Input, p: nat): (r: Result<Node>)
    requires p <= |s|
    ensures r.Match? ==> p < r.next <= |s| && r.value.Attrib?
    ensures r.Match? ==> IsCh(s, p, '[') && IdentEnd(s, IgnoreEnd(s, p + 1)).Some?
  {
    if !IsCh(s, p, '[') then NoMatch
    else
      var a := IgnoreEnd(s, p + 1);
      match IdentEnd(s, a)
      case None => NoMatch
      case Some(b) => AttribOperator(s, Slice(s, a, b), IgnoreEnd(s, b))
  }

  /** The rest of an attrib after its name: the operator read at `c`, then the string and what follows it. */
  function AttribOperator(s: Input, name: string, c: nat): (r: Result<Node>)
    requires c <= |s|
    ensures r.Match? ==> c < r.next <= |s| && r.value.Attrib? && r.value.name == name
    ensures r.Match? ==> AttribOpEnd(s, c).Some? && r.value.op == Slice(s, c, AttribOpEnd(s, c).value)
    ensures r.Match? ==>
      var e := IgnoreEnd(s, AttribOpEnd(s, c).value);
      StringEnd(s, e).Some? && r.value.str == Slice(s, e, StringEnd(s, e).value)
    ensures r.Match? && r.value.flag.Some? ==> |r.value.flag.value| == 1 && IsFlagChar(r.value.flag.value[0])
  {
    match AttribOpEnd(s, c)
    case None => NoMatch
    case Some(d) => AttribString(s, name, Slice(s, c, d), IgnoreEnd(s, d))
  }

  /** The rest of an attrib after its operator: the string read at `e`, then the flag and the closing `]`. */
  function AttribString(s: Input, name: string, op: string, e: nat): (r: Result<Node>)
    requires e <= |s|
    ensures r.Match? ==> e < r.next <= |s| && r.value.Attrib? && r.value.name == name && r.value.op == op
    ensures r.Match? ==> StringEnd(s, e).Some? && r.value.str == Slice(s, e, StringEnd(s, e).value)
    ensures r.Match? && r.value.flag.Some? ==> |r.value.flag.value| == 1 && IsFlagChar(r.value.flag.value[0])
  {
    match StringEnd(s, e)
    case None => NoMatch
    case Some(f) => AttribClose(s, name, op, Slice(s, e, f), IgnoreEnd(s, f))
  }

  /**
   * The end of an attrib, at `g` after its string: an optional one-letter
   * flag `[iIsS]`, then `]`, which must follow after the ignorable text.
   */
  function AttribClose(s: Input, name: string, op: string, str: string, g: nat): (r: Result<Node>)
    requires g <= |s|
    ensures r.Match? <==> IsCh(s, IgnoreEnd(s, if InClass(s, g, IsFlagChar) then g + 1 else g), ']')
    ensures r.Match? ==> g < r.next <= |s| && r.value.Attrib? && r.value.name == name && r.value.op == op && r.value.str == str
    ensures r.Match? ==> (r.value.flag.Some? <==> InClass(s, g, IsFlagChar))
    ensures r.Match? && r.value.flag.Some? ==> r.value.flag.value == [s[g].c] && IsFlagChar(s[g].c)
  {
    var flag := if InClass(s, g, IsFlagChar) then Some([s[g].c]) else None;
    var h := IgnoreEnd(s, if flag.Some? then g + 1 else g);
    if IsCh(s, h, ']') then Match(Attrib(name, op, str, flag), IgnoreEnd(s, h + 1))
    else NoMatch
  }

  /** `pseudo`: `:` or `::`, an identifier, optional arguments; no `ignore?` after it. */
  function ParsePseudo(s: Input, p: nat): (r: Result<Node>)
    requires p <= |s|
    ensures r.Match? ==> p < r.next <= |s| && r.value.Pseudo?
    ensures r.Match? <==> IsCh(s, p, ':') && IdentEnd(s, if IsCh(s, p + 1, ':') then p + 2 else p + 1).Some?
    decreases |s| - p, 0
  {
    if !IsCh(s, p, ':') then NoMatch
    else
      var q := if IsCh(s, p + 1, ':') then p + 2 else p + 1;
      match IdentEnd(s, q)
      case None => NoMatch
      case Some(e) =>
        var args := ParsePseudoArgs(s, e);
        if args.Match? then Match(Pseudo(Slice(s, q, e), Some(args.value)), args.next)
        else Match(Pseudo(Slice(s, q, e), None), e)
  }

  /** `pseudo_args`: `(`, an optional selector, `)`. */
  function ParsePseudoArgs(s: Input, p: nat): (r: Result<Node>)
    requires p <= |s|
    ensures r.Match? ==> p < r.next <= |s| && r.value.PseudoArgs?
    ensures r.Match? ==> IsCh(s, p, '(') && IsCh(s, r.next - 1, ')')
    decreases |s| - p, 7
  {
    if !IsCh(s, p, '(') then NoMatch
    else
      var q := IgnoreEnd(s, p + 1);
      var sel := ParseSelector(s, q);
      var close := IgnoreEnd(s, if sel.Match? then sel.next else q);
      if IsCh(s, close, ')') then Match(PseudoArgs(if sel.Match? then Some(sel.value) else None), close + 1)
      else NoMatch
  }

  /** One alternative of a selector term: ext_selector | simple_selector | attrib | pseudo. */
  function ParseSelectorPart(s: Input, p: nat): (r: Result<Child>)
    requires p <= |s|
    ensures r.Match? ==> p < r.next <= |s|
    decreases |s| - p, 1
  {
    var ext := ParseExtSelector(s, p);
    if ext.Match? then Match(Sub(ext.value), ext.next)
    else match SimpleSelectorEnd(s, p)
      case Some(q) => Match(Text(Slice(s, p, q)), q)
      case None =>
        var attrib := ParseAttrib(s, p);
        if attrib.Match? then Match(Sub(attrib.value), attrib.next)
        else
          var pseudo := ParsePseudo(s, p);
          if pseudo.Match? then Match(Sub(pseudo.value), pseudo.next) else NoMatch
  }

  function SelectorParts(s: Input, p: nat): (r: Repeated<Child>)
    requires p <= |s|
    ensures p <= r.next <= |s|
    decreases |s| - p, 2
  {
    match ParseSelectorPart(s, p)
    case NoMatch => Repeated([], p)
    case Match(c, q) =>
      var rest := SelectorParts(s, q);
      Repeated([c] + rest.items, rest.next)
  }

  function ParseSelectorTerm(s: Input, p: nat): (r: Result<Node>)
    requires p <= |s|
    ensures r.Match? ==> p < r.next <= |s| && r.value.SelectorTerm?
    decreases |s| - p, 3
  {
    match ParseSelectorPart(s, p)
    case NoMatch => NoMatch
    case Match(first, q) =>
      var more := SelectorParts(s, q);
      Match(SelectorTerm([first] + more.items), IgnoreEnd(s, more.next))
  }

  /** One round of `(${combinator}? ${selector_term})`. */
  function SelectorStep(s: Input, p: nat): (r: Result<seq<Node>>)
    requires p <= |s|
    ensures r.Match? ==> p < r.next <= |s|
    decreases |s| - p, 4
  {
    var c := ParseCombinator(s, p);
    if c.Match? then
      var t := ParseSelectorTerm(s, c.next);
      if t.Match? then Match([c.value, t.value], t.next) else NoMatch
    else
      var t := ParseSelectorTerm(s, p);
      if t.Match? then Match([t.value], t.next) else NoMatch
  }

  function SelectorSteps(s: Input, p: nat): (r: Repeated<Node>)
    requires p <= |s|
    ensures p <= r.next <= |s|
    decreases |s| - p, 5
  {
    match SelectorStep(s, p)
    case NoMatch => Repeated([], p)
    case Match(items, q) =>
      var rest := SelectorSteps(s, q);
      Repeated(items + rest.items, rest.next)
  }

  function ParseSelector(s: Input, p: nat): (r: Result<Node>)
    requires p <= |s|
    ensures r.Match? ==> p < r.next <= |s| && r.value.Selector?
    decreases |s| - p, 6
  {
    match SelectorStep(s, p)
    case NoMatch => NoMatch
    case Match(first, q) =>
      var more := SelectorSteps(s, q);
      Match(Selector(first + more.items), IgnoreEnd(s, more.next))
  }

  // ---------------------------------------------------------------------
  // At-rules (grammar.mjs:139-159)

  /** `at_term`: ext_at | id | `(` declaration `)`; the parentheses are not kept. */
  function ParseAtTerm(s: Input, p: nat): (r: Result<Node>)
    requires p <= |s|
    ensures r.Match? ==> p < r.next <= |s| && r.value.AtTerm?
    ensures r.Match? ==> r.value.t.ExtAt? || r.value.t.Id? || r.value.t.Declaration?
  {
    var c := ParseExtAt(s, p).OrElse(ParseId(s, p)).OrElse(ParenDeclaration(s, p));
    if c.Match? then Match(AtTerm(c.value), c.next) else NoMatch
  }

  /** `(?: ${/\(/} ${ignore}?) ${declaration} (?: ${/\)/} ${ignore}?)` */
  function ParenDeclaration(s: Input, p: nat): (r: Result<Node>)
    requires p <= |s|
    ensures r.Match? ==> p < r.next <= |s| && r.value.Declaration?
    ensures r.Match? ==> IsCh(s, p, '(')
  {
    if !IsCh(s, p, '(') then NoMatch
    else ParenClose(s, ParseDeclaration(s, IgnoreEnd(s, p + 1)))
  }

  /** The closing `${/\)/} ${ignore}?` after a declaration: the declaration is kept. */
  function ParenClose(s: Input, d: Result<Node>): (r: Result<Node>)
    requires d.Match? ==> d.next <= |s|
    ensures r.Match? <==> d.Match? && IsCh(s, d.next, ')')
    ensures r.Match? ==> r.value == d.value && d.next < r.next <= |s| && r.next == IgnoreEnd(s, d.next + 1)
  {
    if d.Match? && IsCh(s, d.next, ')') then Match(d.value, IgnoreEnd(s, d.next + 1)) else NoMatch
  }

  /** One round of `((?: , ignore?) | at_term)`; a comma is matched but not kept. */
  function AtStep(s: Input, p: nat): (r: Result<seq<Node>>)
    requires p <= |s|
    ensures r.Match? ==> p < r.next <= |s|
  {
    if IsCh(s, p, ',') then Match([], IgnoreEnd(s, p + 1))
    else
      var t := ParseAtTerm(s, p);
      if t.Match? then Match([t.value], t.next) else NoMatch
  }

  function AtSteps(s: Input, p: nat): (r: Repeated<Node>)
    requires p <= |s|
    ensures p <= r.next <= |s|
    decreases |s| - p
  {
    match AtStep(s, p)
    case NoMatch => Repeated([], p)
    case Match(items, q) =>
      var rest := AtSteps(s, q);
      Repeated(items + rest.items, rest.next)
  }

  function ParseAtExpr(s: Input, p: nat): (r: Result<Node>)
    requires p <= |s|
    ensures r.Match? ==> p < r.next <= |s| && r.value.AtExpr?
  {
    match ParseAtTerm(s, p)
    case NoMatch => NoMatch
    case Match(t, q) =>
      var more := AtSteps(s, q);
      Match(AtExpr([t] + more.items), more.next)
  }

  function ParseAtRule(s: Input, p: nat): (r: Result<Node>)
    requires p <= |s|
    ensures r.Match? ==> p < r.next <= |s| && r.value.AtRule?
    ensures r.Match? <==> IsCh(s, p, '@') && IdentEnd(s, p + 1).Some?
  {
    if !IsCh(s, p, '@') then NoMatch
    else
      match IdentEnd(s, p + 1)
      case None => NoMatch
      case Some(q) =>
        var w := IgnoreEnd(s, q);
        var e := ParseAtExpr(s, w);
        if e.Match? then Match(AtRule(Slice(s, p + 1, q), Some(e.value)), e.next)
        else Match(AtRule(Slice(s, p + 1, q), None), w)
  }

  // ---------------------------------------------------------------------
  // Rules, recovery and the set (grammar.mjs:161-182)

  /** The lookahead `(?= [^;}]+{ )`: a non-empty run of characters other than `;` and `}`, then `{`. */
  predicate BraceAhead(s: Input, p: nat)
    ensures BraceAhead(s, p) ==> InClass(s, p, IsNotSemiOrBrace) && exists k | p < k < |s| :: s[k] == Ch('{') && IsText(s, p, k)
    decreases |s| - p
  {
    InClass(s, p, IsNotSemiOrBrace) && (IsCh(s, p + 1, '{') || BraceAhead(s, p + 1))
  }

  /** `(${at_rule} | ${selector})`: the head of a rule. */
  function ParseRuleHead(s: Input, p: nat): (r: Result<Node>)
    requires p <= |s|
    ensures r.Match? ==> p < r.next <= |s| && (r.value.AtRule? || r.value.Selector?)
  {
    ParseAtRule(s, p).OrElse(ParseSelector(s, p))
  }

  function ParseRule(s: Input, p: nat): (r: Result<Node>)
    requires p <= |s|
    ensures r.Match? ==> p < r.next <= |s| && r.value.Rule?
    decreases |s| - p, 0
  {
    if !BraceAhead(s, p) then NoMatch
    else
      var head := ParseRuleHead(s, p);
      if head.NoMatch? || !IsCh(s, head.next, '{') then NoMatch
      else
        RuleClose(s, head.value, ParseSet(s, IgnoreEnd(s, head.next + 1)))
  }

  /** The closing `(?: ${/}/} ${ignore}?)` after the body: the rule holds the head and the body set. */
  function RuleClose(s: Input, head: Node, body: Result<Node>): (r: Result<Node>)
    requires body.Match? && body.next <= |s|
    ensures r.Match? <==> IsCh(s, body.next, '}')
    ensures r.Match? ==> r.value == Rule(head, body.value) && body.next < r.next <= |s| && r.next == IgnoreEnd(s, body.next + 1)
  {
    if IsCh(s, body.next, '}') then Match(Rule(head, body.value), IgnoreEnd(s, body.next + 1)) else NoMatch
  }

  /** `recover`: `[^;}]+;?`, then `ignore?`. */
  function ParseRecover(s: Input, p: nat): (r: Result<Node>)
    requires p <= |s|
    ensures r.Match? ==> p < r.next <= |s| && r.value.Recover?
  {
    var run := RunEnd(s, p, IsNotSemiOrBrace);
    if run == p then NoMatch
    else
      var e := if IsCh(s, run, ';') then run + 1 else run;
      Match(Recover(Slice(s, p, e)), IgnoreEnd(s, e))
  }

  /** One round of the set: rule | ext_css | declaration followed by `;`s | recover. */
  function SetItem(s: Input, p: nat): (r: Result<Node>)
    requires p <= |s|
    ensures r.Match? ==> p < r.next <= |s|
    ensures r.Match? ==> r.value.Rule? || r.value.ExtCss? || r.value.Declaration? || r.value.Recover?
    decreases |s| - p, 1
  {
    ParseRule(s, p).OrElse(ParseExtCss(s, p)).OrElse(DeclarationStatement(s, p)).OrElse(ParseRecover(s, p))
  }

  /** `${declaration} (?: ${/;/} ${ignore}?)*` */
  function DeclarationStatement(s: Input, p: nat): (r: Result<Node>)
    requires p <= |s|
    ensures r.Match? ==> p < r.next <= |s| && r.value.Declaration?
  {
    match ParseDeclaration(s, p)
    case NoMatch => NoMatch
    case Match(d, q) => Match(d, SemicolonsEnd(s, q))
  }

  function SetItems(s: Input, p: nat): (r: Repeated<Node>)
    requires p <= |s|
    ensures p <= r.next <= |s|
    decreases |s| - p, 2
  {
    match SetItem(s, p)
    case NoMatch => Repeated([], p)
    case Match(n, q) =>
      var rest := SetItems(s, q);
      Repeated([n] + rest.items, rest.next)
  }

  /** `set`: zero or more rounds; it never fails. */
  function ParseSet(s: Input, p: nat): (r: Result<Node>)
    requires p <= |s|
    ensures r.Match? && p <= r.next <= |s| && r.value.Set?
    decreases |s| - p, 3
  {
    var items := SetItems(s, p);
    Match(Set(items.items), items.next)
  }

  /** `parse = makeParser(set)`: the set read from the start of the input. */
  function Parse(s: Input): (n: Node)
    ensures n.Set?
  {
    ParseSet(s, 0).value
  }
}
