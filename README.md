# bowtie: the CSS grammar and its renderer, in Dafny

bowtie parses CSS written in tagged template literals.

- A template such as  css`a { color: ${x}; }`  reaches the grammar as text spans with the interpolated values between them.
- The grammar (`src/grammar.mjs`) turns that input into a tree of tagged nodes, one tag per `match('…')` production.
- The renderer (`src/stringify.mjs`) turns a tree back into CSS text.

The model has three layers.

- **Input and tree** (`syntax.dfy`):
  - The template is one sequence of elements. A character of text is `Ch`; an interpolated value is `Interp`.
  - An interpolated value is one of four things: a string, a function (opaque, told apart by a number), a tree from an earlier parse (its `tag` is its node's tag), or any other value.
  - The tree is one datatype with a constructor per production tag. Its fields are what the production captures, in order.
- **Lexer and grammar** (`lexer.dfy`, `grammar.dfy`):
  - The regular expressions at the top of the grammar are written out as scanners. Like every regular expression the grammar applies, a token never crosses an interpolated value.
  - Every production is a function from an input and a position to `NoMatch` or `Match(node, next)`.
  - The composition is that of a parsing expression grammar. Alternatives are tried in their declared order and the first success is kept. `?` and `*` are greedy and never give back what they took. A failed sequence rewinds.
  - Every production except `set` consumes at least one element when it succeeds. The `set` production, and the `?`, `*` and lookahead parts, may consume nothing. The termination measure is the remaining input, together with the rank of each production inside the cycles set → rule → set and selector → selector_term → pseudo → pseudo_args → selector.
- **Renderer** (`render.dfy`):
  - `Stringify` is the tag switch with its templates. Every other tag takes the default path, which joins the node's children with the separator its tag is given.
  - The source's function does not return for some trees (see "## Left out"). Those outcomes are error values, so `Stringify` is total.
  - `RenderFacts.RenderByJoin` writes the default path out as the source does: the switch that picks the separator, then the loop that appends each child. It is proved equal to `Stringify`.

The remaining files state the properties:

- `grammar_facts.dfy`: what each production accepts, consumes and builds.
- `render_facts.dfy`: which trees render, the join and its reference definition, and the templates.
- `findings.dfy`, `semicolon_finding.dfy`, `sign_finding.dfy`: the places where the grammar does not do what it evidently means (see "## Findings").
- `walkthrough.dfy`: one input followed from text to tree and back to text.

Where the general description of the library and the code differ, the model follows the code:

- The renderer does not render every parsed tree. Every parsed pseudo-class fails to render.
- A function's argument is one `value`, not a value expression (`src/grammar.mjs:66`).
- The code shows no check for unparsed input after the root set.

The model departs from the code in one place:

- Two tokens. The main grammar uses the corrected identifier and the corrected string token (`Lexer.IdentEnd`, `Lexer.StringEnd`), not the ones written in `src/grammar.mjs:13` and `src/grammar.mjs:19`. As written, an identifier may start with a digit, and a backslash does not escape the quote that closes a string. The tokens as written are `Lexer.IdentEndAsWritten` and `Lexer.StringEndAsWritten`. `findings.dfy` shows what they change in the productions that use them.
The two other findings, the stray `;` in a set and the sign read as an operator, are kept as written in the main grammar. Their repaired versions are separate definitions in `semicolon_finding.dfy` and `sign_finding.dfy`, because more than one repair would fit. Both files read identifiers with the corrected token, so that each shows its own finding apart from the identifier one.

## Model

| member | source | states |
|---|---|---|
| Lexer.IgnoreStep | src/grammar.mjs:9 | one piece of `ignore` matches exactly at whitespace, a block comment or a line comment, in that order; whitespace is taken to the end of its run, and at `/*` or `//` the piece is exactly that comment |
| Lexer.IgnoreEnd | src/grammar.mjs:9 | `ignore?` consumes only whole ignorable pieces, one after another (`Lexer.Ignorable`), and stops where no further whitespace or comment starts |
| Lexer.CommentClose | src/grammar.mjs:9 | a block comment ends at the first `*/` after its opening, with no `*/` before that; there is no match exactly when no `*/` follows in the text |
| Lexer.BlockComment | src/grammar.mjs:9 | a block comment matches only at `/*`; it ends at the first `*/` after the opening, with none before; at `/*` it fails exactly when no `*/` follows in the text |
| Lexer.LineComment | src/grammar.mjs:9 | a line comment matches exactly at `//`, then takes every character up to the next line feed or carriage return |
| Lexer.MantissaEnd | src/grammar.mjs:11 | the part of a number after its sign matches exactly at a digit, or at `.` then a digit; it is digits with at most one `.`, ends in a digit and is followed by none, and without a `.` it cannot be extended by a further `.` and digits |
| Lexer.ExponentEnd | src/grammar.mjs:11 | the exponent is taken exactly when `e` or `E`, an optional sign and a digit follow; it then consists of the mark, an optional sign and digits only, and no digit follows |
| Lexer.NumberEnd | src/grammar.mjs:11 | a number matches exactly at a mantissa start, optionally preceded by one sign; it is that sign, the mantissa read after it and the exponent read after the mantissa, so its characters are digits, `.`, `e`/`E` and signs only; it ends in a digit that no digit follows, and it is not cut short before an exponent or a decimal part |
| Lexer.IdentWith | src/grammar.mjs:13 | an identifier is non-empty text not followed by another name character |
| Lexer.IdentEnd | src/grammar.mjs:13 | corrected identifier: name characters only, taken to the longest; it matches exactly at up to two hyphens followed by a letter or `_`, so never at a digit |
| Lexer.IdentEndAsWritten | src/grammar.mjs:13 | as written, an identifier matches exactly at up to two hyphens followed by a word character, digits included, holds name characters only and is taken to the longest; it begins at every digit |
| Lexer.UnitEnd | src/grammar.mjs:15 | a unit matches exactly at `%` or at a word character; `%` is taken alone, otherwise the longest run of word characters |
| Lexer.SimpleSelectorEnd | src/grammar.mjs:17 | a simple selector matches exactly at `&`, `*`, a word character, or `#` or `.` followed by a word character; `&` and `*` are taken alone, otherwise the longest run of name characters |
| Lexer.StringCloseAsWritten | src/grammar.mjs:19 | as written, a string body ends at the first matching quote, with no quote and no line feed before it; there is no match exactly when a line feed comes before every later quote |
| Lexer.StringEndAsWritten | src/grammar.mjs:19 | as written, a string is opened and closed by the same quote with no such quote and no line feed between; at a quote there is no match only when the string never closes on that line |
| Lexer.StringClose | src/grammar.mjs:18-19 | corrected: the body up to the quote is plain characters and backslash escapes, and wherever such a body is followed by the quote, the token ends exactly there |
| Lexer.StringEnd | src/grammar.mjs:18-19 | a string opens with `"` or `'`, its body is plain characters and backslash escapes, and it closes at the first unescaped matching quote |
| Lexer.HexEnd | src/grammar.mjs:50 | a colour matches exactly at `#` and three hex digits, then takes hex digits up to eight, stopping early only at a non-digit |
| Grammar.ExtTag | src/grammar.mjs:21-22 | a value is accepted exactly when it is truthy and is a string, a function or a tree of the given tag; the result is the value itself |
| Grammar.Splice | src/grammar.mjs:24-46 | a splice yields only the interpolated value at the position itself |
| Grammar.SemicolonsEnd | src/grammar.mjs:26 | `(?: ; ignore?)*` consumes only whole rounds of a `;` followed by the ignorable text after it (`Grammar.SemicolonRounds`), and stops where no `;` follows |
| Grammar.ParseExtCss | src/grammar.mjs:24-27 | a match consumes input and builds an ext_css node |
| Grammar.ParseExtProperty | src/grammar.mjs:29-32 | a match consumes input and builds an ext_property node |
| Grammar.ParseExtValue | src/grammar.mjs:34-37 | a match consumes input and builds an ext_value node |
| Grammar.ParseExtSelector | src/grammar.mjs:39-42 | a match consumes input and builds an ext_selector node |
| Grammar.ParseExtAt | src/grammar.mjs:44-46 | a match consumes input and builds an ext_at node |
| Grammar.ParseHex | src/grammar.mjs:48-52 | a match consumes input and builds a hex node |
| Grammar.ParseId | src/grammar.mjs:54-57 | id matches exactly where an identifier starts, and builds an id node |
| Grammar.ParseImportant | src/grammar.mjs:59-61 | a match consumes input and builds an important node |
| Grammar.ParseFunc | src/grammar.mjs:63-68 | a match is an identifier directly followed by `(`, and builds a func node whose argument is a value node |
| Grammar.ParsePseudo | src/grammar.mjs:76-80 | pseudo matches exactly at `:` or `::` followed by an identifier, and builds a pseudo node |
| Grammar.ParsePseudoArgs | src/grammar.mjs:70-74 | a match opens with `(`, closes with `)` and builds a pseudo_args node |
| Grammar.AttribOpEnd | src/grammar.mjs:86 | the operator matches exactly at `=` or at one of `~ \| ^ $ *` followed by `=`, and ends with the `=` |
| Grammar.ParseAttrib | src/grammar.mjs:82-92 | a match opens with `[` and an identifier, and builds an attrib node |
| Grammar.AttribOperator | src/grammar.mjs:86-92 | after the name, a match keeps that name, reads the operator token at its position as `op`, and the string token after the ignorable text as `str` |
| Grammar.AttribString | src/grammar.mjs:88-92 | after the operator, a match keeps name and operator and reads the string token at its position, quotes included, as `str` |
| Grammar.AttribClose | src/grammar.mjs:90-91 | after the string, a match happens exactly when `]` follows the optional flag and the ignorable text; the flag is present exactly when one of `iIsS` comes first, and is that one letter |
| Grammar.ParseSelectorPart | src/grammar.mjs:95-96 | a piece of a selector term consumes input |
| Grammar.SelectorParts | src/grammar.mjs:96 | the repeated pieces stay within the input |
| Grammar.ParseSelectorTerm | src/grammar.mjs:94-98 | a match consumes input and builds a selector_term node |
| Grammar.ParseCombinator | src/grammar.mjs:100-102 | a match consumes input and builds a combinator node |
| Grammar.SelectorStep | src/grammar.mjs:105-106 | a round of the selector consumes input |
| Grammar.SelectorSteps | src/grammar.mjs:106 | the repeated rounds stay within the input |
| Grammar.ParseSelector | src/grammar.mjs:104-108 | a match consumes input and builds a selector node |
| Grammar.ParseValue | src/grammar.mjs:110-113 | value matches exactly at a number or a string, and builds a value node |
| Grammar.ParseTerm | src/grammar.mjs:115-121 | a match consumes input and builds a term wrapping a splice, a function, an identifier, a colour or a value |
| Grammar.ParseOperator | src/grammar.mjs:123-125 | a match consumes input and builds an operator node |
| Grammar.ExprStep | src/grammar.mjs:129 | a round of the value expression consumes input |
| Grammar.ExprSteps | src/grammar.mjs:129 | the repeated rounds stay within the input |
| Grammar.ParseExpr | src/grammar.mjs:127-130 | a match consumes input and builds an expr node |
| Grammar.ParseProperty | src/grammar.mjs:133 | a property is an id or an ext_property node and consumes input |
| Grammar.ParseDeclaration | src/grammar.mjs:132-137 | a match consumes input and builds a declaration node |
| Grammar.ParseAtTerm | src/grammar.mjs:139-145 | a match consumes input and builds an at_term wrapping a splice, an identifier or a declaration |
| Grammar.ParenDeclaration | src/grammar.mjs:142-144 | a parenthesised declaration opens with `(`, consumes input and yields a declaration node without the parentheses |
| Grammar.ParenClose | src/grammar.mjs:144 | the closing step succeeds exactly when the declaration matched and `)` directly follows it; it keeps that declaration, without the parentheses, and consumes the `)` and the ignorable text after it |
| Grammar.AtStep | src/grammar.mjs:149-152 | a round of the at-expression consumes input |
| Grammar.AtSteps | src/grammar.mjs:149-152 | the repeated rounds stay within the input |
| Grammar.ParseAtExpr | src/grammar.mjs:147-153 | a match consumes input and builds an at_expr node |
| Grammar.ParseAtRule | src/grammar.mjs:155-159 | at_rule matches exactly at `@` followed by an identifier, and builds an at_rule node |
| Grammar.BraceAhead | src/grammar.mjs:162 | when the lookahead holds, a character other than `;` and `}` starts it and a `{` follows with text only before it |
| Grammar.ParseRuleHead | src/grammar.mjs:163 | the head of a rule is an at_rule or a selector node and consumes input |
| Grammar.ParseRule | src/grammar.mjs:161-167 | a match consumes input and builds a rule node |
| Grammar.RuleClose | src/grammar.mjs:166 | the closing step succeeds exactly when `}` directly follows the body set; the rule then holds the head and the body, and the `}` and the ignorable text after it are consumed |
| Grammar.ParseRecover | src/grammar.mjs:169-171 | a match consumes input and builds a recover node |
| Grammar.SetItem | src/grammar.mjs:174-179 | a round of the set consumes input and yields a rule, an ext_css, a declaration or a recover node |
| Grammar.DeclarationStatement | src/grammar.mjs:177 | a declaration with its trailing `;` consumes input and yields a declaration node |
| Grammar.SetItems | src/grammar.mjs:173-180 | the repeated rounds stay within the input |
| Grammar.ParseSet | src/grammar.mjs:173-180 | the set always matches, possibly consuming nothing, and builds a set node |
| Grammar.Parse | src/grammar.mjs:182 | parsing yields a set node |
| GrammarFacts.SpliceAcceptsStringsAndFunctions | src/grammar.mjs:21-22 | a non-empty string and any function are accepted for every tag; a tree only for its own tag; an empty string or any other value never |
| GrammarFacts.SpliceProductions | src/grammar.mjs:24-46 | each ext_* production matches exactly at an interpolated value accepted for its tag, wraps that value unchanged; ext_property, ext_value and ext_selector then take exactly the ignorable text after it, ext_css exactly the `;` rounds after it, and ext_at nothing more |
| GrammarFacts.TermAtHash | src/grammar.mjs:115-121 | at `#` a term is a hex colour or nothing; it matches exactly when the colour token does |
| GrammarFacts.TermAtSplice | src/grammar.mjs:115-121 | at an interpolated value a term matches exactly when extTag accepts it for `expr`, and wraps it as ext_value |
| GrammarFacts.TermAtDigit | src/grammar.mjs:115-121 | at a digit, a term is exactly the value read there, whose number starts at the digit; no identifier starts at a digit |
| GrammarFacts.TermAtIdentifier | src/grammar.mjs:115-121 | an identifier without `(` after it is an id term, because func is tried first and fails |
| GrammarFacts.ValueFacts | src/grammar.mjs:110-113 | value matches exactly at a number or a string; a number keeps the unit directly after it; a string has no unit |
| GrammarFacts.FuncFacts | src/grammar.mjs:63-68 | func is an identifier directly followed by `(`, and its argument is a single value node |
| GrammarFacts.ImportantIff | src/grammar.mjs:59-61 | important matches exactly at `!`, optional ignorable text, then the word `important` |
| GrammarFacts.ExprStepShape | src/grammar.mjs:129 | a round of the value expression is a term, or an operator followed by a term |
| GrammarFacts.ExprStepsShape | src/grammar.mjs:129 | the rounds together never hold an operator without a term after it |
| GrammarFacts.ExprFacts | src/grammar.mjs:127-130 | a value expression starts with a term, and every operator in it is followed by a term |
| GrammarFacts.DeclarationParts | src/grammar.mjs:132-137 | a declaration's property is an id or an ext_property directly followed by `:`; its important part, when present, is the important node |
| GrammarFacts.DeclarationValue | src/grammar.mjs:135 | a declaration's value is the value expression read after the `:` and the ignorable text |
| GrammarFacts.DeclarationFacts | src/grammar.mjs:132-137 | a declaration is a property directly followed by `:`, then a well-formed value expression, then optionally `!important` |
| GrammarFacts.AttribFacts | src/grammar.mjs:82-92 | an attribute test opens with `[`; it has a non-empty name, an operator `=` or `?=` with `?` one of `~ \| ^ $ *`, a string kept with its matching quotes, and at most a one-letter flag from `iIsS` |
| GrammarFacts.OperatorText | src/grammar.mjs:86 | the text of an attribute operator is `=`, or one of `~ \| ^ $ *` followed by `=` |
| GrammarFacts.StringText | src/grammar.mjs:18-19 | the text of a string token is at least two characters and opens and closes with the same quote, `"` or `'` |
| GrammarFacts.PseudoFacts | src/grammar.mjs:76-80 | a pseudo-class matches exactly at `:` or `::` followed by an identifier, whose text is its name; its arguments are present exactly when pseudo_args matches directly after the name, and the match ends after them or after the name |
| GrammarFacts.PseudoArgsFacts | src/grammar.mjs:70-74 | pseudo_args matches exactly at `(` when the optional selector is followed by `)`; its argument is that selector node or nothing, and the match ends after the `)` |
| GrammarFacts.SelectorPartFacts | src/grammar.mjs:95-96 | a piece of a selector term is text, a selector splice, an attribute test or a pseudo-class |
| GrammarFacts.SelectorPartsFacts | src/grammar.mjs:96 | every repeated piece is of one of those kinds |
| GrammarFacts.SelectorTermFacts | src/grammar.mjs:94-98 | a selector term holds at least one piece and only pieces of those kinds |
| GrammarFacts.SelectorStepShape | src/grammar.mjs:105 | a round of the selector is a term, or a combinator followed by a term |
| GrammarFacts.SelectorStepsShape | src/grammar.mjs:106 | the rounds together never hold a combinator without a term after it |
| GrammarFacts.SelectorFacts | src/grammar.mjs:104-108 | a selector is non-empty; its terms are each preceded by at most one combinator among `> + ~`, and no combinator stands alone |
| GrammarFacts.AtStepsFacts | src/grammar.mjs:149-152 | the rounds of an at-expression keep only at_term nodes; the commas are dropped |
| GrammarFacts.AtExprFacts | src/grammar.mjs:147-153 | an at-expression is at least one at_term, and every item is one |
| GrammarFacts.AtRuleFacts | src/grammar.mjs:155-159 | an at-rule starts with `@` and has a non-empty name; its expression, when present, is a non-empty at_expr |
| GrammarFacts.ParenDeclarationFacts | src/grammar.mjs:142-144 | at `(`, the parenthesised alternative is the closing step applied to the declaration read after the `(` and the ignorable text |
| GrammarFacts.BraceAheadIff | src/grammar.mjs:162 | the lookahead holds exactly when a `{` is ahead with only characters other than `;` and `}` before it |
| GrammarFacts.NoRuleWithoutBrace | src/grammar.mjs:162 | text with no `{` before the next `;`, `}`, interpolation or end is never a rule |
| GrammarFacts.RuleHead | src/grammar.mjs:163 | a rule's head is the at-rule or selector read from the rule's own start |
| GrammarFacts.RuleBody | src/grammar.mjs:164-166 | the head is directly followed by `{`, and the rule is the closing step applied to the head and the set read after the `{` |
| GrammarFacts.RuleFacts | src/grammar.mjs:161-167 | a rule matches only with a `{` ahead, and the lookahead consumes nothing; then come the head, `{`, the body set and `}`; conversely, with a `{` ahead, a head directly followed by `{` and a body set directly followed by `}` always make a rule |
| GrammarFacts.RecoverFacts | src/grammar.mjs:169-171 | recover matches exactly at a character other than `;` and `}`; its text is the longest run of such, plus a `;` if one follows; it never holds `}`; then only ignorable text is consumed |
| GrammarFacts.RecoverText | src/grammar.mjs:170 | the text `[^;}]+;?` keeps: at least one character, the first neither `;` nor `}`, no `}` anywhere, `;` only as the last, and when it does not end in `;`, neither `;` nor another such character follows |
| GrammarFacts.DeclarationStatementFacts | src/grammar.mjs:177 | a declaration statement matches exactly when the declaration does, keeps it, and then takes exactly the `;` rounds after it, stopping where no `;` follows |
| GrammarFacts.SetItemsFacts | src/grammar.mjs:173-180 | every round of the set yields a rule, an ext_css, a declaration or a recover node; there are no more rounds than elements consumed; no round starts where the set stops |
| GrammarFacts.SetFacts | src/grammar.mjs:173-180 | the set never fails; it stops only at the end of the input, a `;`, a `}` or an interpolated value that nothing accepts |
| Render.Stringify | src/stringify.mjs:1-57 | identifiers, colours, important, attribute tests, recovered text, combinators, operators and values always render; a pseudo_args node and a pseudo node without a child never do |
| Render.StringifyEmbedded | src/stringify.mjs:15-22 | a spliced function renders as `/*ext*/`, a string as itself, a tree as its own rendering, and any other value fails |
| Render.Separator | src/stringify.mjs:4-13 | the separator is one space exactly for expr, selector and at_expr, `;` and a line feed exactly for set, and empty for every other tag |
| Render.JoinChildren | src/stringify.mjs:50-55 | the loop over mixed children succeeds exactly when each child renders, and gives the empty text for no children |
| Render.JoinNodes | src/stringify.mjs:50-55 | the loop over child nodes succeeds exactly when each node renders, and gives the empty text for no nodes |
| RenderFacts.EmbeddedOkIff | src/stringify.mjs:15-22 | a spliced value renders exactly when it is a string, a function or a renderable tree |
| RenderFacts.WrapperOkIff | src/stringify.mjs:31-43 | a pseudo, func, at_rule, term or at_term node renders exactly when its child does; a pseudo node also needs a child |
| RenderFacts.PairOkIff | src/stringify.mjs:39-45 | a declaration or rule renders exactly when all of its parts do |
| RenderFacts.PartsOkIff | src/stringify.mjs:50-56 | a selector term renders exactly when every nested piece does |
| RenderFacts.ItemsOkIff | src/stringify.mjs:50-56 | a list of child nodes joins without error exactly when each child renders |
| RenderFacts.RenderOkIff | src/stringify.mjs:1-57 | rendering succeeds exactly on trees with no pseudo_args node, no pseudo node without a child, and no splice of an other value |
| RenderFacts.PseudoFails | src/stringify.mjs:29-32 | a pseudo node without a child, or with a pseudo_args child, never renders |
| RenderFacts.ParsedPseudoNeverRenders | src/stringify.mjs:29-32 | no pseudo-class the grammar reads can be rendered |
| RenderFacts.JoinErrorPropagates | src/stringify.mjs:50-56 | once a prefix of the children fails, the whole loop fails the same way |
| RenderFacts.JoinFirstError | src/stringify.mjs:50-56 | the loop fails with the error of the first child that fails |
| RenderFacts.JoinIsIntercalate | src/stringify.mjs:50-56 | when every child renders, the loop's output is the children's texts with the separator between each two neighbours, per an independent right-to-left definition |
| RenderFacts.DefaultPathIsJoin | src/stringify.mjs:4-13 | every tag without a template renders its array of children joined by the separator the switch gives that tag |
| RenderFacts.ListIsJoin | src/stringify.mjs:4-13 | an expr, selector, at_expr or set node renders its child nodes joined by its tag's separator |
| RenderFacts.SingleIsJoin | src/stringify.mjs:50-56 | a term, at_term, combinator or operator node renders as its one child, with the empty separator |
| RenderFacts.ValueIsJoin | src/stringify.mjs:50-56 | a value renders as its number followed directly by its unit |
| RenderFacts.DefaultPathIsIntercalate | src/stringify.mjs:4-13 | expr, selector and at_expr children are separated by one space, set children by `;` and a line feed, and other children by nothing |
| RenderFacts.RenderByJoin | src/stringify.mjs:4-56 | the separator switch and the loop, written as a method, give exactly what the renderer gives |
| RenderFacts.SpliceRendering | src/stringify.mjs:15-22 | every ext_* node renders its value in the same way: a function as `/*ext*/`, a string unchanged, a tree as its rendering |
| RenderFacts.LeafRendering | src/stringify.mjs:24-28 | a parsed identifier or colour renders as the text it was read from; a parsed important renders as `!important` |
| RenderFacts.AttribRendering | src/stringify.mjs:33-34 | an attribute test renders as `[`, name, operator, string, the flag or nothing, then `]`, with no spaces |
| RenderFacts.DeclarationRendering | src/stringify.mjs:39-41 | a declaration renders as `prop: value`, followed by ` !important` only when it has the important part |
| RenderFacts.AtRuleRendering | src/stringify.mjs:42-43 | an at-rule renders as `@name `, then its expression and a space only when it has one |
| RenderFacts.RuleRendering | src/stringify.mjs:44-45 | a rule renders as the head, `{`, a line feed, the body, a line feed and `}` |
| RenderFacts.RecoverRendering | src/stringify.mjs:46-47 | recovered text renders inside `/*` and `*/` |
| Findings.ParseIdAsWritten | src/grammar.mjs:54-57 | the id production with the identifier as written consumes input and builds an id node |
| Findings.ParseFuncAsWritten | src/grammar.mjs:63-68 | the func production with the identifier as written consumes input and builds a func node |
| Findings.ParseTermAsWritten | src/grammar.mjs:115-121 | value_term with the identifier as written consumes input and builds a term node |
| Findings.DigitTermAsWritten | src/grammar.mjs:13 | as written, a term that starts with a digit is always an identifier or a function, never a number |
| Findings.OnePointFiveEmAsWritten | src/grammar.mjs:13 | as written, "1.5em" is read as the identifier `1` followed by the term `.5em`, and the two render as "1 .5em" |
| Findings.OnePointFiveEmHead | src/grammar.mjs:13 | as written, the term at the start of "1.5em" is the identifier `1` |
| Findings.OnePointFiveEmTail | src/grammar.mjs:110-113 | ".5em" is the number `.5` with the unit `em` |
| Findings.SplitRendering | src/stringify.mjs:6-9 | the two terms render with one space between them |
| Findings.OnePointFiveEmNumber | src/grammar.mjs:13 | with the corrected identifier, "1.5em" is the number 1.5 with the unit em |
| Findings.OnePointFiveEmValue | src/grammar.mjs:110-113 | "1.5em" is read by value as the number 1.5 with the unit em |
| Findings.OnePointFiveEm | src/grammar.mjs:13 | with the corrected identifier, "1.5em" is one term, the value 1.5em |
| Findings.EscapedQuoteClosesAsWritten | src/grammar.mjs:19 | as written, a quote straight after a backslash still closes the string |
| Findings.EscapedQuoteKept | src/grammar.mjs:18-19 | corrected, an escaped quote is part of the string and scanning continues after it |
| Findings.StringCloseWithoutBackslash | src/grammar.mjs:19 | on text without a backslash, the corrected and the as-written string scanners agree |
| Findings.EscapedQuoteExample | src/grammar.mjs:18-19 | for the string `"a\"b"`, as written the token is 4 characters long and corrected it is all 6 |
| SemicolonFinding.StraySemicolonEndsSet | src/grammar.mjs:173-180 | as written, no round of the set starts at `;`, so the set stops there having read nothing |
| SemicolonFinding.StraySemicolonFailsRule | src/grammar.mjs:161-167 | as written, a rule whose body set stops at a `;` fails as a whole |
| SemicolonFinding.GarbageAsWritten | src/grammar.mjs:169-180 | as written, the set reads "garbage;;" as the recovered "garbage;" and stops before the second `;` |
| SemicolonFinding.GarbageParsed | src/grammar.mjs:169-180 | as written, the set on "garbage;;" holds the one recovered node and stops at the second `;` |
| SemicolonFinding.GarbageRecovered | src/grammar.mjs:169-171 | the first round on "garbage;;" is the recovered "garbage;", as written and repaired |
| SemicolonFinding.GarbageRecoverText | src/grammar.mjs:169-171 | on "garbage;;" no `{` comes before the first `;`, and recover keeps "garbage;" and stops at offset 8 |
| SemicolonFinding.GarbageNoDeclaration | src/grammar.mjs:132-137 | "garbage" without a `:` after it is not a declaration |
| SemicolonFinding.SetItemIntended | src/grammar.mjs:173-180 | repaired, a round of the set always matches at `;`; it fails only where neither a `;` nor a character other than `;` and `}` stands; its nodes are rules, ext_css, declarations or recovered text |
| SemicolonFinding.ParseRuleIntended | src/grammar.mjs:161-167 | a rule with the repaired set as its body consumes input and builds a rule node |
| SemicolonFinding.SetItemsIntended | src/grammar.mjs:173-180 | the repaired rounds stay within the input and stop only where no repaired round starts |
| SemicolonFinding.ParseSetIntended | src/grammar.mjs:173-180 | the repaired set never stops at `;`: only at the end of the input, at `}` or at an interpolated value nothing accepts |
| SemicolonFinding.IntendedAgreesOffSemicolon | src/grammar.mjs:173-180 | away from a `;` and a rule, a repaired round matches exactly when a round as written does, with the same node |
| SemicolonFinding.SkippedSemicolon | src/grammar.mjs:173-180 | repaired, a round at `;` consumes it and the ignorable text after it and keeps no node |
| SemicolonFinding.IntendedAtEnd | src/grammar.mjs:173-180 | at the end of the input the repaired set has no further round |
| SemicolonFinding.GarbageTailIntended | src/grammar.mjs:173-180 | repaired, after "garbage;" the set skips the second `;` and reaches the end |
| SemicolonFinding.GarbageIntended | src/grammar.mjs:169-180 | repaired, the set reads all of "garbage;;" as the recovered "garbage;" |
| SemicolonFinding.GarbageParsedIntended | src/grammar.mjs:169-180 | repaired, the set on "garbage;;" holds the one recovered node and reaches the end |
| SignFinding.SignAfterTermIsOperator | src/grammar.mjs:123-130 | as written, a `+` or `-` in operator position that a term follows is always an operator node, followed by that term |
| SignFinding.ZeroMinusOnePxAsWritten | src/grammar.mjs:123-130 | as written, with the corrected identifier, "0 -1px" is the number 0, the operator `-` and the value 1px, and it renders as "0 - 1px" |
| SignFinding.ZeroMinusOnePxParsed | src/grammar.mjs:127-130 | as written, with the corrected identifier, "0 -1px" parses to those three items |
| SignFinding.OperatorRoundAsWritten | src/grammar.mjs:129 | as written, with the corrected identifier, after "0 " the rounds are the operator `-` and the value 1px |
| SignFinding.ZeroTerm | src/grammar.mjs:110-121 | in "0 -1px" the first term is the number 0 with no unit |
| SignFinding.OnePxTerm | src/grammar.mjs:110-121 | in "0 -1px" the term after the `-` is the number 1 with the unit px |
| SignFinding.ThreeItemsRendering | src/stringify.mjs:4-13 | the three items render with a space between each two, as "0 - 1px" |
| SignFinding.ExprStepIntended | src/grammar.mjs:129 | repaired, a round at a sign that a number directly follows always matches and is one value term whose number starts with that sign; any other round is the round as written |
| SignFinding.ExprStepsIntended | src/grammar.mjs:129 | the repaired rounds stay within the input |
| SignFinding.ParseExprIntended | src/grammar.mjs:127-130 | a match of the repaired value expression consumes input and builds an expr node |
| SignFinding.SignStaysWithNumber | src/grammar.mjs:110-121 | at a sign that a number directly follows, value_term reads one value whose number starts with that sign |
| SignFinding.ZeroMinusOnePxIntended | src/grammar.mjs:127-130 | repaired, "0 -1px" is the two values 0 and -1px, and renders as "0 -1px" |
| SignFinding.ZeroMinusOnePxParsedIntended | src/grammar.mjs:127-130 | repaired, "0 -1px" parses to the two values 0 and -1px |
| SignFinding.SignedRoundIntended | src/grammar.mjs:129 | repaired, after "0 " the one round is the value -1px |
| SignFinding.MinusOnePxTerm | src/grammar.mjs:110-121 | in "0 -1px" the term at the `-` is the number -1 with the unit px |
| SignFinding.TwoItemsRendering | src/stringify.mjs:4-13 | the two values render with one space between them, as "0 -1px" |
| Walkthrough.ColorRedProperty | src/grammar.mjs:133-134 | in "color:red;" the property is the identifier `color`, directly followed by `:` |
| Walkthrough.ColorRedTerm | src/grammar.mjs:115-121 | "red" before `;` is an id term |
| Walkthrough.NothingAtSemicolon | src/grammar.mjs:129 | a value expression does not continue at `;` |
| Walkthrough.ColorRedValue | src/grammar.mjs:127-130 | the value of "color:red;" is the expression holding the single term `red` |
| Walkthrough.ColorRedDeclaration | src/grammar.mjs:132-137 | "color:red;" begins with the declaration `color: red` without `!important`, ending before the `;` |
| Walkthrough.ColorRedNoRule | src/grammar.mjs:162 | "color:red;" has no `{`, so the set does not take a rule |
| Walkthrough.EndOfInput | src/grammar.mjs:173-180 | where the input ends, the set takes no further round |
| Walkthrough.ColorRedSet | src/grammar.mjs:173-182 | "color:red;" parses to a set holding exactly that declaration, with its `;` consumed |
| Walkthrough.ColorRedRendering | src/stringify.mjs:39-41 | that set renders as "color: red" |
| Walkthrough.ColorRed | src/grammar.mjs:173-182 | "color:red;" parses to the one-declaration set, and renders as "color: red" |

## Left out

- The reghex library behind `match`, `interpolation` and `parse` (`src/grammar.mjs:6`) is not part of this model. Its combinators are modelled directly, with the semantics described above. Under that reading:
  - a regular expression matches text only, never across an interpolated value;
  - an interpolation is consumed only when its predicate returns a truthy value.
- Unparsed remainder: `Grammar.Parse` returns the root set and ignores any input left after it. Whether the library's `parse` rejects a remainder is not shown in the code.
- Building the element sequence from a template literal belongs to the caller and is not modelled.
- Interpolated functions are never called or substituted. Each is an opaque number, and the only observable behaviour is the `/*ext*/` placeholder.
- Character classes:
  - `\w` and `\d` are the ASCII classes JavaScript uses without the `u` flag.
  - `\s` lists JavaScript's whitespace characters.
  - Characters are code points, whereas JavaScript strings are UTF-16. A character outside the Basic Multilingual Plane is one element here and two code units in JavaScript. No class in the grammar tells the two apart.
- Rendering failures:
  - The self-call on a `pseudo_args` node (`src/stringify.mjs:29-30`) never returns. It is modelled as the error `StackOverflow`.
  - Reading the tag of a missing `pseudo` argument throws (`src/stringify.mjs:31-32`). It is modelled as the error `TypeError`.
- A spliced object whose `tag` field names a production but that is not a tree from an earlier parse: extTag (`src/grammar.mjs:21-22`) accepts any truthy object with the wanted `tag`, while the model files every such object under `Other`, which the grammar refuses.
- A spliced value that is neither a string, a function nor a tree renders as the error `Unrenderable`. In JavaScript it gives `''` for a number, a boolean or an untagged object, and throws for `null` and `undefined`. The grammar never accepts such a value (extTag refuses it), so no parsed tree holds one.
- The `at_declaration` case (`src/stringify.mjs:37-38`) has no node in the model. No production has that tag, and a parenthesised declaration in an at-rule is an `at_term` that renders by the default path, without its parentheses.
- The model takes a string handed directly to the renderer (`src/stringify.mjs:2`) as a text child or a spliced string. Both come back unchanged (`RenderFacts.JoinIsIntercalate`, `RenderFacts.SpliceRendering`). There is no separate entry point for a bare string.
- No general parse-then-render round trip is claimed. The renderer adds and removes spaces, drops parentheses and commas, and fails on every pseudo-class. `Walkthrough.ColorRed` follows one input both ways.
- Grammar.ParseSelectorPart: its contract states forward progress only; the part kinds are stated by `GrammarFacts.SelectorPartFacts`.
- Grammar.ParseAttrib: reads the corrected identifier and string tokens (see "## Findings"), not the ones as written. Its own contract states progress, the tag and the opening only; the fields are stated by `GrammarFacts.AttribFacts`, which does not state that the name is an identifier.
- Grammar.AttribOperator: reads the corrected string token, not the one as written.
- Grammar.AttribString: reads the corrected string token, not the one as written.
- Grammar.ParseId: reads the corrected identifier, not the one as written (that is `Findings.ParseIdAsWritten`). Its contract does not give the name; `GrammarFacts.TermAtIdentifier` does, inside a term.
- Grammar.ParseFunc: reads the corrected identifier, not the one as written (that is `Findings.ParseFuncAsWritten`). Its contract states one direction only; `GrammarFacts.FuncFacts` gives the name and the argument.
- Grammar.ParseValue: reads the corrected string token, not the one as written. Its contract does not give the number, unit or string text; `GrammarFacts.ValueFacts` does.
- Grammar.ParseTerm: reads the corrected identifier and string tokens, not the ones as written (that is `Findings.ParseTermAsWritten`). Its contract states the kinds of term only; `GrammarFacts.TermAtHash`, `TermAtSplice`, `TermAtDigit` and `TermAtIdentifier` state which kind starts where.
- Grammar.ParsePseudo: reads the corrected identifier, not the one as written. Its contract does not give the name or the arguments; `GrammarFacts.PseudoFacts` does.
- Grammar.ParsePseudoArgs: its contract states the brackets only; the argument is stated by `GrammarFacts.PseudoArgsFacts`.
- Grammar.ParenDeclaration: its contract states the opening only; `GrammarFacts.ParenDeclarationFacts` and `Grammar.ParenClose` state the closing `)` and that the result is the inner declaration.
- Grammar.ParseAtRule: reads the corrected identifier, not the one as written. Its contract does not give the name or the expression; `GrammarFacts.AtRuleFacts` does.
- GrammarFacts.AttribFacts: states the production over the corrected identifier and string tokens, not the ones as written.
- GrammarFacts.PseudoFacts: states the production over the corrected identifier, not the one as written.
- GrammarFacts.AtRuleFacts: states the production over the corrected identifier, not the one as written.
- GrammarFacts.FuncFacts: states the production over the corrected identifier, not the one as written.
- GrammarFacts.ValueFacts: states the production over the corrected string token, not the one as written.
- GrammarFacts.TermAtDigit: holds for the corrected identifier only; as written, `Findings.DigitTermAsWritten` holds instead.
- Lexer.IdentWith: its contract states the token's extent and the character after it, not the characters inside it; `Lexer.IdentEnd` and `Lexer.IdentEndAsWritten` state those.

## Findings

| source | as written | input that shows it | evidently intended | confidence | as-written member | corrected member |
|---|---|---|---|---|---|---|
| src/grammar.mjs:13 | the identifier `-{0,2}[\w_][\w\d_-]*` may start with a digit, since `\w` holds the digits; value_term tries id before value, so no number that starts with a digit reaches value | the value `1.5em` is read as the identifier `1` and then the term `.5em`, and it renders as `1 .5em` | an identifier starts, after its hyphens, with a letter or `_`, so that a digit starts a number | high; not executed | Findings.OnePointFiveEmAsWritten | GrammarFacts.TermAtDigit |
| src/grammar.mjs:19 | in `"(?:[^\n"]\|\\.)*"` the class `[^\n"]` also takes a backslash, so the `\\.` alternative never changes the match, and a backslash before the quote does not escape it (the comment on line 18 says quotes may be escaped) | the string `"a\"b"` ends after `"a\"`, four characters, and `b"` is left over | `"(?:[^\n"\\]\|\\.)*"`: a backslash goes together with the character after it, so an escaped quote stays inside the string | high; not executed | Findings.EscapedQuoteClosesAsWritten | Findings.EscapedQuoteKept |
| src/grammar.mjs:173-180 | no alternative of a round of the set starts at `;`: rule, recover and declaration need another character first, and ext_css an interpolation; so the set stops at a `;` that no declaration has taken, such as one after a recovered stretch that already ends in `;` | the set on `garbage;;` reads the recovered `garbage;` and stops before the second `;`; so a rule body such as the one in `a{color:red;;garbage;;}` stops short of its `}`, and a rule whose body stops at a `;` fails as a whole | a stray `;` is skipped like the `;` after a declaration, so the set reads on to the `}` or the end | medium; not executed | SemicolonFinding.GarbageAsWritten | SemicolonFinding.ParseSetIntended |
| src/grammar.mjs:123-130 | each round of a value expression tries `operator?` first, and `+` and `-` are operator characters, so a sign after a term always becomes an operator and the term after it loses its sign | with the corrected identifier, `0 -1px` is the number 0, the operator `-` and the value 1px, and it renders as `0 - 1px`; with the identifier of `src/grammar.mjs:13` as written, 0 and 1px are identifiers instead, and the operator and the rendering are the same | a sign directly followed by a number stays with the number, so `0 -1px` is the two values 0 and -1px | medium; not executed | SignFinding.ZeroMinusOnePxAsWritten | SignFinding.ExprStepIntended |
