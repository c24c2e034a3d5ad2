# CLDR plural-rule parser, modelled in Dafny

`pluralruleparser(rule, number)` (cldrpluralparser.js) decides whether a
number belongs to a plural category. The category is described by a rule in
the old CLDR plural-rule syntax, such as
`n mod 10 in 2..4 and n mod 100 not in 12..14`. The function is a
backtracking recursive-descent parser that evaluates as it parses. Every
production reads the rule text from one shared cursor `pos` and computes its
value against the fixed number: the number itself, a remainder, a list of
integers or a Boolean. The combinators:

- `sequence` restores the cursor when one of its steps fails;
- `choice` takes the first alternative that is not null and does not
  restore the cursor itself;
- `nOrMore` repeats a parser until it fails.

The grammar:

    condition  := and | or | relation
    and        := relation \s+ and \s+ condition
    or         := relation \s+ or  \s+ condition
    relation   := is | in | within
    is         := expression \s+ is (\s+ not)* \s+ \d+
    in         := expression (\s+ not)* \s+ in \s+ range
    within     := expression \s+ within \s+ range
    expression := mod | n
    mod        := n \s+ mod \s+ \d+
    range      := \d+ .. \d+

The project has five modules:

- `Wrappers` (wrappers.dfy): `Option`, whose `None` stands for JavaScript's
  `null`.
- `Combinators` (combinators.dfy):
  - the leaf parsers: `makeStringParser` as `Literal`, and the anchored
    regular expressions `/^\s+/` and `/^\d+/` as `Match`;
  - `parseInt` on a digit run as `DecimalValue`;
  - their specifications.
- `Grammar` (grammar.dfy): one function per production, from
  `(rule, number, cursor)` to a `Step` (the value and the cursor after the
  attempt). These functions specify the imperative parser and spell out
  every cursor movement of the source, backtracking included.
- `PluralRuleParser` (parser.dfy): the source's own form.
  - Class `Parser` holds the rule, the number and the mutable `pos`, with
    one method per production. Each `sequence` is written out inline: save
    the cursor, run the steps, restore the cursor on failure.
  - The loops of `nOrMore`, `range` and the membership scans of `_in` and
    `within` are `while`/`for` loops with invariants.
  - Every method is proved to leave exactly the value and cursor that its
    `Grammar` function describes.
- `Rules` (rules.dfy): an independent reference.
  - Rules as syntax trees (`Expr`, `Rel`, `Cond`).
  - A printer `ShowCond(c, sp)` that writes a tree with the whitespace run
    `sp` between words.
  - A direct evaluator `EvalCond`.
  - The main theorem `EvaluateShow`: for every tree, every number and every
    separator, the parser-evaluator gives on the printed rule exactly what
    the evaluator gives on the tree.
  - Theorems about trailing text, malformed rules, associativity and the
    fallback of `choice`, all built on the main theorem's pieces.
- `RuleExamples` (rule_examples.dfy): concrete rules, including several
  from the source's own commented-out calls, evaluated through the theorems.

Behaviour of the source that the model keeps:

- `n mod 0` is NaN, which is `===` to nothing and in no range. `is` and
  `in` without a `not` (or with two or more) are therefore false on it, and
  with exactly one `not` they are true. `within` on it yields null
  (`RuleExamples.ModZero`, `RuleExamples.ModZeroWithin`).
- The test `result[3] == 'not'` compares an array of strings loosely with a
  string, so it converts the array with `toString`. A relation is therefore
  negated only when it has exactly one `not`: `n is not not 1` is `n is 1`
  (`Grammar.LooseEqualsNotIffOne`).
- A number outside a `within` range gives null, not false. The cursor still
  ends after the range. An enclosing `and`/`or` then fails as a whole, and
  `condition` falls back to the bare relation.
- `and` and `or` have no precedence and nest to the right: `A and B or C`
  is `A and (B or C)`.
- The comment at cldrpluralparser.js:230-233 says that a successful parse
  must reach the end of the rule and return a non-null value. The final
  `if` tests both conditions, but its `throw` (cldrpluralparser.js:236) is
  commented out. A malformed rule therefore yields null, and text after a
  complete condition is ignored. The model follows the code: `Rules.NoLeadingN`,
  `Rules.UnknownOperator` and `RuleExamples.UnknownWord` show the null
  result, and `Rules.TrailingTextIgnored` and `RuleExamples.TrailingWord`
  show that the value is kept.

## Model

| member | source | states |
|---|---|---|
| Combinators.Literal | cldrpluralparser.js:81-91 | a keyword parser either yields null and leaves the cursor, or yields the keyword and moves the cursor past it |
| Combinators.LiteralSpec | cldrpluralparser.js:85 | the keyword matches exactly when the text holds it at the cursor (`substr` clips at the end, so a keyword running past the end fails) |
| Combinators.SpanEnd | cldrpluralparser.js:95 | the end of the run of class characters lies between the cursor and the end of the text |
| Combinators.SpanEndSpec | cldrpluralparser.js:95 | the run is made only of class characters, and the next character, if any, is not one (the regular expression is greedy) |
| Combinators.Match | cldrpluralparser.js:93-102 | a regular-expression parser yields null exactly when the cursor stays, and otherwise moves it forward |
| Combinators.MatchSpec | cldrpluralparser.js:93-102 | it succeeds exactly when the character at the cursor is in the class; the value is the text consumed; it is a maximal run of the class |
| Combinators.MatchRun | cldrpluralparser.js:93-102 | on a run of class characters that is not followed by another one, the parser takes exactly that run |
| Combinators.ShowNat | cldrpluralparser.js:11 | a printed numeral is a non-empty run of digits, so `/^\d+/` accepts it |
| Combinators.DecimalValueShowNat | cldrpluralparser.js:153-154 | `parseInt` of a printed numeral gives the number back |
| Combinators.ShowNatHead | cldrpluralparser.js:11 | a printed numeral starts with `0` only when it is the numeral of 0, so printed rules carry no leading zeros |
| Combinators.IsSpace | cldrpluralparser.js:10 | `\s` is exactly ECMAScript's list of WhiteSpace and LineTerminator code points, listed one by one; no digit and no lower-case letter is among them |
| Combinators.IsDigit | cldrpluralparser.js:11 | `\d` is exactly the ten characters `0` to `9` |
| Combinators.DigitValue | cldrpluralparser.js:123 | a digit's value is below ten and prints back as the same digit |
| Combinators.DecimalValue | cldrpluralparser.js:153-154 | `parseInt` of a numeral of k digits is below 10^k (the same reading serves the divisor at line 123 and the target at line 139) |
| Combinators.DecimalValueLeadingZero | cldrpluralparser.js:153-154 | `parseInt` ignores a leading zero |
| Combinators.DecimalValueZeros | cldrpluralparser.js:153-154 | `parseInt` ignores any number of leading zeros |
| Grammar.Remainder | cldrpluralparser.js:123 | `x % d` is an integer exactly when `x` is one and `d > 0`; it is then below `d` and at most `x` |
| Grammar.StrictEquals | cldrpluralparser.js:139-141 | NaN is `===` to nothing; an integer is `===` exactly to its own value |
| Grammar.Join | cldrpluralparser.js:138 | the array's `toString`: empty for no elements, the element itself for one, and otherwise as long as all elements plus one separator between each pair |
| Grammar.LooseEqualsNot | cldrpluralparser.js:138 | an empty list of `not`s is never loosely equal to 'not'; a list of one element is exactly when that element is 'not' |
| Grammar.LooseEqualsNotIffOne | cldrpluralparser.js:138 | a list of `not`s is loosely equal to 'not' exactly when it has one element |
| Grammar.Interval | cldrpluralparser.js:152-158 | the list has hi - lo + 1 elements (none when lo > hi), and element k is lo + k |
| Grammar.IntervalMembers | cldrpluralparser.js:155 | x is in the range list exactly when lo <= x <= hi, both bounds included |
| Grammar.Member | cldrpluralparser.js:169-173 | the scan over the range (here and at lines 185-188) finds the value exactly when some element of the list is `===` to it, so NaN is in no range |
| Grammar.N | cldrpluralparser.js:104-112 | `n` either fails without moving, or consumes one character and yields the number |
| Grammar.Mod | cldrpluralparser.js:116-124 | a failed `mod` restores the cursor; a successful one consumes at least seven characters, and its integer value is at most the number |
| Grammar.Expression | cldrpluralparser.js:114 | the cursor never moves back, a failed expression leaves it where it was, and a successful one consumes at least the `n` |
| Grammar.ExpressionSpec | cldrpluralparser.js:104-124 | an expression parses exactly when the text has `n` at the cursor |
| Grammar.Not | cldrpluralparser.js:126-133 | `not` yields the string 'not' and consumes at least four characters, or fails with the cursor restored |
| Grammar.NotRun | cldrpluralparser.js:52-67 | the repeated `not` collects only 'not's, never moves the cursor back, and leaves it in place when it collects none |
| Grammar.NOrMore | cldrpluralparser.js:52-67 | the result has at least `min` elements, all 'not', or is null with the cursor restored; with `min` 0 it is never null |
| Grammar.Is | cldrpluralparser.js:134-146 | a failed `is` leaves the cursor where it was; a successful one consumes at least six characters (`n is 1`) |
| Grammar.Range | cldrpluralparser.js:148-162 | a failed `range` leaves the cursor where it was; a successful one consumes at least four characters (`1..1`) |
| Grammar.In | cldrpluralparser.js:164-178 | a failed `_in` leaves the cursor where it was; a successful one consumes at least nine characters (`n in 1..1`) |
| Grammar.Within | cldrpluralparser.js:180-192 | `within` never yields false: a value outside the range gives null; a true one consumes at least thirteen characters |
| Grammar.Relation | cldrpluralparser.js:194 | the cursor stays within the text, and a relation with a value consumes at least six characters |
| Grammar.And | cldrpluralparser.js:196-204 | a failed `and` leaves the cursor where it was; a successful one consumes at least seventeen characters (`n is 1 and n is 1`) |
| Grammar.Or | cldrpluralparser.js:206-214 | a failed `or` leaves the cursor where it was; a successful one consumes at least sixteen characters |
| Grammar.Condition | cldrpluralparser.js:216 | the cursor stays within the text, and a condition with a value consumes at least six characters |
| Grammar.Start | cldrpluralparser.js:218-221 | the cursor stays within the text, and a value is reached only after at least six characters |
| Grammar.Evaluate | cldrpluralparser.js:227-239 | the result of `start()` is returned whatever the cursor; a rule shorter than six characters always yields null |
| PluralRuleParser.Contains | cldrpluralparser.js:169-173 | the scan finds an element `===` to the value exactly when the value is an integer in the list |
| PluralRuleParser.ListRange | cldrpluralparser.js:152-157 | the loop builds exactly the list lo, lo + 1, ..., hi |
| PluralRuleParser.Parser.constructor | cldrpluralparser.js:5-9 | the parser starts at position 0 on the given rule and number |
| PluralRuleParser.Parser.Literal | cldrpluralparser.js:81-91 | the method's value and new cursor are those of `Combinators.Literal` |
| PluralRuleParser.Parser.Match | cldrpluralparser.js:93-102 | the method's value and new cursor are those of `Combinators.Match` |
| PluralRuleParser.Parser.N | cldrpluralparser.js:104-112 | the method's value and new cursor are those of `Grammar.N` |
| PluralRuleParser.Parser.Mod | cldrpluralparser.js:116-124 | the inline `sequence` gives the value and cursor of `Grammar.Mod` |
| PluralRuleParser.Parser.Expression | cldrpluralparser.js:114 | the `choice` gives the value and cursor of `Grammar.Expression` |
| PluralRuleParser.Parser.Not | cldrpluralparser.js:126-133 | the method's value and new cursor are those of `Grammar.Not` |
| PluralRuleParser.Parser.NOrMore | cldrpluralparser.js:52-67 | the loop collects what `Grammar.NOrMore` describes and leaves its cursor |
| PluralRuleParser.Parser.Is | cldrpluralparser.js:134-146 | the method's value and new cursor are those of `Grammar.Is` |
| PluralRuleParser.Parser.Range | cldrpluralparser.js:148-162 | the method's value and new cursor are those of `Grammar.Range` |
| PluralRuleParser.Parser.In | cldrpluralparser.js:164-178 | the method's value and new cursor are those of `Grammar.In` |
| PluralRuleParser.Parser.Within | cldrpluralparser.js:180-192 | the method's value and new cursor are those of `Grammar.Within` |
| PluralRuleParser.Parser.Relation | cldrpluralparser.js:194 | the method's value and new cursor are those of `Grammar.Relation` |
| PluralRuleParser.Parser.And | cldrpluralparser.js:196-204 | the method's value and new cursor are those of `Grammar.And` |
| PluralRuleParser.Parser.Or | cldrpluralparser.js:206-214 | the method's value and new cursor are those of `Grammar.Or` |
| PluralRuleParser.Parser.Condition | cldrpluralparser.js:216 | the method's value and new cursor are those of `Grammar.Condition` |
| PluralRuleParser.Parser.Start | cldrpluralparser.js:218-221 | `start` gives the value and cursor of the condition parsed from the current position |
| PluralRuleParser.Evaluate | cldrpluralparser.js:228-239 | the function returns the result of `start()` from position 0 unchanged, null included |
| Rules.LiteralMismatch | cldrpluralparser.js:85 | a keyword whose j-th character differs from the text fails and leaves the cursor |
| Rules.BareNParse | cldrpluralparser.js:114 | when a separator is followed by a word that is not `mod`, `mod` fails, the cursor is restored, and `n` is taken |
| Rules.ModParse | cldrpluralparser.js:116-124 | on printed `n mod d`, the expression consumes it all and yields `number % d`, or NaN when d = 0 |
| Rules.ExpressionParse | cldrpluralparser.js:114-124 | on a printed expression, `expression` yields the evaluator's value and stops at its end |
| Rules.NotsParse | cldrpluralparser.js:52-67 | the `not` loop collects exactly the k `not`s written and stops before the separator that follows |
| Rules.NOrMoreParse | cldrpluralparser.js:135 | `nOrMore(0, not)` on k printed `not`s succeeds, and its result is loosely 'not' exactly when k = 1 |
| Rules.PaddedNumeral | cldrpluralparser.js:11 | `/^\d+/` takes a numeral with leading zeros whole, up to the next non-digit, and `parseInt` reads it as the number without them |
| Rules.RangeParse | cldrpluralparser.js:148-162 | on a printed `lo..hi`, `range` yields the interval and stops at its end |
| Rules.MemberInterval | cldrpluralparser.js:169-173 | the scan over a range list is the test lo <= x <= hi on an integer value |
| Rules.IsParse | cldrpluralparser.js:134-146 | on a printed `is` relation, `is` yields the evaluator's value and consumes the relation |
| Rules.InParse | cldrpluralparser.js:164-178 | on a printed `in` relation, `_in` yields the evaluator's value and consumes the relation |
| Rules.WithinParse | cldrpluralparser.js:180-192 | on a printed `within` relation, `within` yields true or null as the evaluator does, and its cursor ends after the range |
| Rules.IsFails | cldrpluralparser.js:36-48 | when the keyword `is` is missing after the expression, `is` fails and restores the cursor |
| Rules.InFails | cldrpluralparser.js:36-48 | when the keyword `in` is missing, `_in` fails and restores the cursor |
| Rules.WithinFails | cldrpluralparser.js:36-48 | when the keyword `within` is missing, `within` fails and restores the cursor |
| Rules.IsRejectsIn | cldrpluralparser.js:134-146 | on the text of an `in` relation, `is` fails with the cursor restored |
| Rules.RejectsWithin | cldrpluralparser.js:134-178 | on the text of a `within` relation, `is` and `_in` both fail with the cursor restored |
| Rules.RelationParse | cldrpluralparser.js:194 | on any printed relation, `relation` yields the evaluator's value and the cursor ends after the relation |
| Rules.ConnectiveKeyword | cldrpluralparser.js:197-207 | at a printed `and` the keyword `or` does not match, and the other way round |
| Rules.TailStops | cldrpluralparser.js:197-207 | after a complete condition followed by the end of the text or by a word other than `and`/`or`, neither connective can continue |
| Rules.SingleParse | cldrpluralparser.js:216 | on a single printed relation, `and` and `or` fail and the third alternative gives the relation's value |
| Rules.AndParse | cldrpluralparser.js:196-204 | on printed `r and rest`, `condition` gives the evaluator's conjunction, falling back to r alone when `rest` is null |
| Rules.OrParse | cldrpluralparser.js:206-216 | on printed `r or rest`, `condition` gives the evaluator's disjunction, falling back to r alone when `rest` is null |
| Rules.ConnectiveParse | cldrpluralparser.js:196-214 | the relation, separator, keyword, separator and inner condition of a printed connective each parse to the evaluator's values |
| Rules.ConditionParse | cldrpluralparser.js:216 | `condition` on any printed condition followed by a tail gives the evaluator's value |
| Rules.EvaluateShow | cldrpluralparser.js:5-239 | for every syntax tree, number and separator, the parser's result on the printed rule is the evaluator's value |
| Rules.TrailingTextIgnored | cldrpluralparser.js:235-239 | a separator and a word after a complete condition do not change the result |
| Rules.AndThenOr | cldrpluralparser.js:196-216 | `A and B or C` evaluates to A && (B \|\| C) |
| Rules.OrThenAnd | cldrpluralparser.js:196-216 | `A or B and C` evaluates to A \|\| (B && C) |
| Rules.NoRelationNoCondition | cldrpluralparser.js:194-216 | when no relation parses at the cursor, `condition` yields null |
| Rules.NoLeadingN | cldrpluralparser.js:104-112 | a rule that does not start with `n` yields null |
| Rules.PrefixMismatch | cldrpluralparser.js:85 | a keyword that the remaining text does not start with fails |
| Rules.UnknownOperator | cldrpluralparser.js:134-192 | `n`, a separator and a word that starts with none of `mod`, `is`, `not`, `in`, `within` yield null |
| Rules.UnknownOperatorSteps | cldrpluralparser.js:194 | when all three relations fail after `n`, the rule yields null |
| Rules.DanglingConnective | cldrpluralparser.js:196-216 | in `r and w` or `r or w` with no condition in w, the connective fails as a whole and the result is r's value |
| Rules.NothingAfter | cldrpluralparser.js:216 | a word that does not start with `n` starts no condition |
| RuleExamples.EnglishOne | cldrpluralparser.js:248-249 | `n is 1` is true at 1 and false at 2 and at 10 |
| RuleExamples.ModIs | cldrpluralparser.js:250-251 | `n mod 4 is 3` is true at 7 and `n mod 4 is not 3` is false |
| RuleExamples.ModIn | cldrpluralparser.js:252 | `n mod 4 in 0..5` is true at 7 |
| RuleExamples.SingletonRange | cldrpluralparser.js:152-158 | `n in 2..2` is true at 2 and false at 3: both bounds are included |
| RuleExamples.ModZero | cldrpluralparser.js:134-146 | `n mod 0` is NaN: at 7, `n mod 0 is 3` is false and `n mod 0 is not 3` is true |
| RuleExamples.ModZeroWithin | cldrpluralparser.js:180-192 | `n mod 0 within 0..5` at 7 is null |
| RuleExamples.AndBothTrue | cldrpluralparser.js:254 | `n is 1 and n mod 1 is 0` is true at 1 |
| RuleExamples.OrSecondTrue | cldrpluralparser.js:255 | `n is 3 or n mod 1 is 0` is true at 1 |
| RuleExamples.AndChain | cldrpluralparser.js:256 | `n is 1 and n is 1 and n is not 1` is false at 1 |
| RuleExamples.ModNotIn | cldrpluralparser.js:253 | `n mod 4 not in 0..5` is false at 7 |
| RuleExamples.ModRange | cldrpluralparser.js:260 | the first relation of line 260, `n mod 10 in 2..4`, taken alone: true at 23 and false at 25 |
| RuleExamples.TeensExcluded | cldrpluralparser.js:259 | `n mod 100 not in 12..14` is true at 4 |
| RuleExamples.PolishFew | cldrpluralparser.js:260 | `n mod 10 in 2..4 and n mod 100 not in 12..14` is true at 4 |
| RuleExamples.WithinOutside | cldrpluralparser.js:180-192 | `n within 0..2` at 5 yields null, not false |
| RuleExamples.DoubleNot | cldrpluralparser.js:138 | `n is not not 1` at 1 is true: two `not`s do not negate |
| RuleExamples.UnknownWord | cldrpluralparser.js:235-239 | `n maybe 1` yields null rather than an error |
| RuleExamples.TrailingWord | cldrpluralparser.js:235-239 | `n is 1 extra` at 1 is true: the unconsumed word is ignored |

## Left out

- `debug` (cldrpluralparser.js:242-245) and its calls: their bodies are commented out, so they do nothing.
- `transform` (cldrpluralparser.js:72-77): defined but never used.
- `parseInt(number)` on the argument: the number is a `nat`. Strings, negative numbers, fractions and JavaScript's double precision are not modelled. Integers are unbounded, so a range runs to any size.
- The loop variable `i` of `range` (cldrpluralparser.js:155) is not declared, so it leaks into the global scope. That side effect is not modelled.
- The regular-expression engine: `rule.substr(pos).match(/^\s+/)` is modelled as the longest run of `\s` characters at the cursor (`SpanEnd`). The run is counted by code point over ECMAScript's WhiteSpace and LineTerminator set. Surrogate pairs and UTF-16 are not modelled.
- Rules.EvaluateShow: covers rules whose separators are all the same whitespace string `sp` and whose numerals have no leading zeros, since the printer writes none (`Combinators.ShowNatHead`). `Grammar` and `Parser` handle mixed runs of whitespace and numerals such as `01` (`/^\d+/` at cldrpluralparser.js:11 takes them and `parseInt` reads them), but the theorem does not speak about such rules. `Rules.PaddedNumeral` shows that the numeral step reads a padded numeral as its value. `Rules.TrailingTextIgnored`, `Rules.AndThenOr`, `Rules.OrThenAnd` and `Rules.DanglingConnective` are stated over printed rules too and carry the same restriction.
- Rules.TrailingTextIgnored: covers a trailing word whose first character is not `a` or `o`. After such a character, `and` or `or` may be tried, and the theorem does not treat that case.
- Rules.UnknownOperator: covers text after `n` that starts with none of the keywords. Other malformed rules can still stop at null in other ways, and those are not characterised.
- Rules.DanglingConnective: covers a word after the connective that does not start with `n`.
- The commented-out calls at cldrpluralparser.js:246-260 are not part of the program. All but one are restated as lemmas in `RuleExamples`: lines 248-249 (`EnglishOne`), 250-251 (`ModIs`), 252 (`ModIn`), 253 (`ModNotIn`), 254 (`AndBothTrue`), 255 (`OrSecondTrue`), 256 (`AndChain`), 259 (`TeensExcluded`) and 260 (`PolishFew`). The one with `1 mod n` (line 257) relies on the trailing-text behaviour of `or` inside a nested condition and is not restated.
- `parseInt` on the numerals of the rule (cldrpluralparser.js:123, 139, 153-154) gives a double: above 2^53 it loses precision, and a numeral of about 309 digits or more gives Infinity. With an infinite upper bound, the `for` loop at cldrpluralparser.js:155 never ends. The model reads every numeral as an unbounded `nat`, so `DecimalValue` is exact and `ListRange` always terminates.
