/**
 * The productions of the plural-rule grammar, each as a function from the
 * rule text, the number under test and the cursor to a `Step`.  Parsing and
 * evaluation are fused exactly as in cldrpluralparser.js: every production
 * parses its text and computes its value against the one fixed number.
 *
 * The combinators of the source are written out inline:
 *  - `sequence([p1, ..., pk])` runs the steps one after the other from the
 *    cursor each leaves behind and, as soon as one yields `None`, answers
 *    `None` with the cursor back at the entry value;
 *  - `choice([p1, ..., pk])` runs the alternatives one after the other and
 *    answers the first `Some`; it does not restore the cursor itself, so each
 *    alternative starts where the previous one left it.
 */
module Grammar {
  import opened Wrappers
  import opened Combinators

  /**
   * A JavaScript number produced by an arithmetic production: a
   * non-negative integer, or NaN (what `x % 0` gives).
   */
  datatype Num = Int(v: nat) | NaN

  /** `x === k`: NaN is equal to nothing. */
  predicate StrictEquals(x: Num, k: int)
    ensures x.NaN? ==> !StrictEquals(x, k)
    ensures StrictEquals(x, k) <==> k >= 0 && x == Int(k)
  {
    x.Int? && x.v == k
  }

  /** JavaScript `x % d` on non-negative operands. */
  function Remainder(x: Num, d: nat): (r: Num)
    ensures r.Int? <==> x.Int? && d > 0
    ensures r.Int? ==> r.v < d && r.v <= x.v
  {
    if x.NaN? || d == 0 then NaN else Int(x.v % d)
  }

  /** `Array.prototype.toString`, which joins the elements with commas. */
  function Join(xs: seq<string>, sep: string): (r: string)
    ensures |xs| == 0 ==> r == ""
    ensures |xs| == 1 ==> r == xs[0]
    ensures |xs| > 0 ==> |r| == TotalLength(xs) + (|xs| - 1) * |sep|
  {
    if |xs| == 0 then "" else if |xs| == 1 then xs[0] else xs[0] + sep + Join(xs[1..], sep)
  }

  /** The number of characters in all of `xs` together. */
  function TotalLength(xs: seq<string>): nat
  {
    if |xs| == 0 then 0 else |xs[0]| + TotalLength(xs[1..])
  }

  /**
   * The loose comparison `nots == 'not'` of an array of strings with a
   * string: the array is first turned into a string.
   */
  predicate LooseEqualsNot(nots: seq<string>)
    ensures |nots| == 0 ==> !LooseEqualsNot(nots)
    ensures |nots| == 1 ==> (LooseEqualsNot(nots) <==> nots[0] == "not")
  {
    Join(nots, ",") == "not"
  }

  predicate AllNot(nots: seq<string>)
  {
    forall i :: 0 <= i < |nots| ==> nots[i] == "not"
  }

  /**
   * A list of collected `not`s compares loosely equal to 'not' exactly when
   * it holds one of them: none, two or more give the un-negated test.
   */
  lemma LooseEqualsNotIffOne(nots: seq<string>)
    requires AllNot(nots)
    ensures LooseEqualsNot(nots) <==> |nots| == 1
  {
  }

  /** The integers `lo, lo + 1, ..., hi`; empty when `lo > hi`. */
  function Interval(lo: int, hi: int): (r: seq<int>)
    ensures |r| == if lo <= hi then hi - lo + 1 else 0
    ensures forall k :: 0 <= k < |r| ==> r[k] == lo + k
    decreases hi - lo + 1
  {
    if lo > hi then [] else [lo] + Interval(lo + 1, hi)
  }

  /** Range inclusivity: both bounds belong to the list, nothing outside them does. */
  lemma IntervalMembers(lo: int, hi: int, x: int)
    ensures x in Interval(lo, hi) <==> lo <= x <= hi
  {
    var r := Interval(lo, hi);
    if lo <= x <= hi {
      assert r[x - lo] == x;
    }
  }

  /** The scan `list[i] === x` for some `i`. */
  predicate Member(x: Num, list: seq<int>)
    ensures Member(x, list) <==> exists i :: 0 <= i < |list| && StrictEquals(x, list[i])
  {
    x.Int? && x.v in list
  }

  /** `n`: the keyword `n`, whose value is the number under test. */
  function N(rule: string, number: nat, pos: nat): (r: Step<Num>)
    requires pos <= |rule|
    ensures r == Step(None, pos) || (pos < |rule| && r == Step(Some(Int(number)), pos + 1))
  {
    var t := Literal(rule, pos, "n");
    if t.value.None? then Step(None, t.pos) else Step(Some(Int(number)), t.pos)
  }

  /** `mod`: sequence `n \s+ mod \s+ \d+`, whose value is the number modulo the digits. */
  function Mod(rule: string, number: nat, pos: nat): (r: Step<Num>)
    requires pos <= |rule|
    ensures pos <= r.pos <= |rule|
    ensures r.value.None? ==> r.pos == pos
    ensures r.value.Some? ==> pos + 7 <= r.pos
    ensures r.value.Some? && r.value.value.Int? ==> r.value.value.v <= number
  {
    var a := N(rule, number, pos);
    if a.value.None? then Step(None, pos) else
    var b := Match(rule, a.pos, Space);
    if b.value.None? then Step(None, pos) else
    var c := Literal(rule, b.pos, "mod");
    if c.value.None? then Step(None, pos) else
    var d := Match(rule, c.pos, Space);
    if d.value.None? then Step(None, pos) else
    var e := Match(rule, d.pos, Digit);
    if e.value.None? then Step(None, pos) else
    Step(Some(Remainder(a.value.value, DecimalValue(e.value.value))), e.pos)
  }

  /** `expression = choice([mod, n])`. */
  function Expression(rule: string, number: nat, pos: nat): (r: Step<Num>)
    requires pos <= |rule|
    ensures pos <= r.pos <= |rule|
    ensures r.value.None? ==> r.pos == pos
    ensures r.value.Some? ==> pos + 1 <= r.pos
  {
    var m := Mod(rule, number, pos);
    if m.value.Some? then m else N(rule, number, m.pos)
  }

  /** An expression starts with the keyword `n`, and a text that starts with `n` holds one. */
  lemma ExpressionSpec(rule: string, number: nat, pos: nat)
    requires pos <= |rule|
    ensures Expression(rule, number, pos).value.Some? <==> At(rule, pos, "n")
  {
    LiteralSpec(rule, pos, "n");
  }

  /** `not`: sequence `\s+ not`, whose value is the string 'not'. */
  function Not(rule: string, pos: nat): (r: Step<string>)
    requires pos <= |rule|
    ensures pos <= r.pos <= |rule|
    ensures r.value.None? ==> r.pos == pos
    ensures r.value.Some? ==> r.value.value == "not" && pos + 4 <= r.pos
  {
    var a := Match(rule, pos, Space);
    if a.value.None? then Step(None, pos) else
    var b := Literal(rule, a.pos, "not");
    if b.value.None? then Step(None, pos) else
    Step(Some(b.value.value), b.pos)
  }

  /** The results of running `not` until it fails, and the cursor then. */
  datatype Run = Run(items: seq<string>, end: nat)

  function NotRun(rule: string, pos: nat): (r: Run)
    requires pos <= |rule|
    ensures pos <= r.end <= |rule|
    ensures AllNot(r.items)
    ensures r.items == [] ==> r.end == pos
    decreases |rule| - pos
  {
    var p := Not(rule, pos);
    if p.value.None? then Run([], p.pos)
    else
      var rest := NotRun(rule, p.pos);
      Run([p.value.value] + rest.items, rest.end)
  }

  /**
   * `nOrMore(min, not)`: all the `not`s that follow, in order; `None` with
   * the cursor restored when fewer than `min` were found.
   */
  function NOrMore(rule: string, pos: nat, min: nat): (r: Step<seq<string>>)
    requires pos <= |rule|
    ensures pos <= r.pos <= |rule|
    ensures r.value.None? ==> r.pos == pos
    ensures r.value.Some? ==> |r.value.value| >= min && AllNot(r.value.value)
    ensures min == 0 ==> r.value.Some?
  {
    var run := NotRun(rule, pos);
    if |run.items| < min then Step(None, pos) else Step(Some(run.items), run.end)
  }

  /**
   * `is`: sequence `expression \s+ is nOrMore(0, not) \s+ \d+`; the value
   * compares the expression with the digits, negated when the list of
   * `not`s compares loosely equal to 'not'.
   */
  function Is(rule: string, number: nat, pos: nat): (r: Step<bool>)
    requires pos <= |rule|
    ensures pos <= r.pos <= |rule|
    ensures r.value.None? ==> r.pos == pos
    ensures r.value.Some? ==> pos + 6 <= r.pos
  {
    var e := Expression(rule, number, pos);
    if e.value.None? then Step(None, pos) else
    var a := Match(rule, e.pos, Space);
    if a.value.None? then Step(None, pos) else
    var b := Literal(rule, a.pos, "is");
    if b.value.None? then Step(None, pos) else
    var nots := NOrMore(rule, b.pos, 0);
    if nots.value.None? then Step(None, pos) else
    var c := Match(rule, nots.pos, Space);
    if c.value.None? then Step(None, pos) else
    var d := Match(rule, c.pos, Digit);
    if d.value.None? then Step(None, pos) else
    var target := DecimalValue(d.value.value);
    if LooseEqualsNot(nots.value.value) then
      Step(Some(!StrictEquals(e.value.value, target)), d.pos)
    else
      Step(Some(StrictEquals(e.value.value, target)), d.pos)
  }

  /** `range`: sequence `\d+ .. \d+`, whose value is the inclusive list between the two. */
  function Range(rule: string, pos: nat): (r: Step<seq<int>>)
    requires pos <= |rule|
    ensures pos <= r.pos <= |rule|
    ensures r.value.None? ==> r.pos == pos
    ensures r.value.Some? ==> pos + 4 <= r.pos
  {
    var a := Match(rule, pos, Digit);
    if a.value.None? then Step(None, pos) else
    var b := Literal(rule, a.pos, "..");
    if b.value.None? then Step(None, pos) else
    var c := Match(rule, b.pos, Digit);
    if c.value.None? then Step(None, pos) else
    Step(Some(Interval(DecimalValue(a.value.value), DecimalValue(c.value.value))), c.pos)
  }

  /**
   * `_in`: sequence `expression nOrMore(0, not) \s+ in \s+ range`; the value
   * is membership in the range, negated when the `not`s compare loosely
   * equal to 'not'.
   */
  function In(rule: string, number: nat, pos: nat): (r: Step<bool>)
    requires pos <= |rule|
    ensures pos <= r.pos <= |rule|
    ensures r.value.None? ==> r.pos == pos
    ensures r.value.Some? ==> pos + 9 <= r.pos
  {
    var e := Expression(rule, number, pos);
    if e.value.None? then Step(None, pos) else
    var nots := NOrMore(rule, e.pos, 0);
    if nots.value.None? then Step(None, pos) else
    var a := Match(rule, nots.pos, Space);
    if a.value.None? then Step(None, pos) else
    var b := Literal(rule, a.pos, "in");
    if b.value.None? then Step(None, pos) else
    var c := Match(rule, b.pos, Space);
    if c.value.None? then Step(None, pos) else
    var g := Range(rule, c.pos);
    if g.value.None? then Step(None, pos) else
    var negated := LooseEqualsNot(nots.value.value);
    if Member(e.value.value, g.value.value) then Step(Some(!negated), g.pos)
    else Step(Some(negated), g.pos)
  }

  /**
   * `within`: sequence `expression \s+ within \s+ range`.  The value is
   * `true` when the expression lies in the range; otherwise it is `None`,
   * and then the cursor stays past the range although the sequence parsed.
   */
  function Within(rule: string, number: nat, pos: nat): (r: Step<bool>)
    requires pos <= |rule|
    ensures pos <= r.pos <= |rule|
    ensures r.value != Some(false)
    ensures r.value.Some? ==> pos + 13 <= r.pos
  {
    var e := Expression(rule, number, pos);
    if e.value.None? then Step(None, pos) else
    var a := Match(rule, e.pos, Space);
    if a.value.None? then Step(None, pos) else
    var b := Literal(rule, a.pos, "within");
    if b.value.None? then Step(None, pos) else
    var c := Match(rule, b.pos, Space);
    if c.value.None? then Step(None, pos) else
    var g := Range(rule, c.pos);
    if g.value.None? then Step(None, pos) else
    if Member(e.value.value, g.value.value) then Step(Some(true), g.pos)
    else Step(None, g.pos)
  }

  /** `relation = choice([is, _in, within])`. */
  function Relation(rule: string, number: nat, pos: nat): (r: Step<bool>)
    requires pos <= |rule|
    ensures pos <= r.pos <= |rule|
    ensures r.value.Some? ==> pos + 6 <= r.pos
  {
    var a := Is(rule, number, pos);
    if a.value.Some? then a else
    var b := In(rule, number, a.pos);
    if b.value.Some? then b else
    Within(rule, number, b.pos)
  }

  /** `and`: sequence `relation \s+ and \s+ condition`, whose value is the conjunction. */
  function And(rule: string, number: nat, pos: nat): (r: Step<bool>)
    requires pos <= |rule|
    ensures pos <= r.pos <= |rule|
    ensures r.value.None? ==> r.pos == pos
    ensures r.value.Some? ==> pos + 17 <= r.pos
    decreases |rule| - pos, 1
  {
    var a := Relation(rule, number, pos);
    if a.value.None? then Step(None, pos) else
    var b := Match(rule, a.pos, Space);
    if b.value.None? then Step(None, pos) else
    var c := Literal(rule, b.pos, "and");
    if c.value.None? then Step(None, pos) else
    var d := Match(rule, c.pos, Space);
    if d.value.None? then Step(None, pos) else
    var e := Condition(rule, number, d.pos);
    if e.value.None? then Step(None, pos) else
    Step(Some(a.value.value && e.value.value), e.pos)
  }

  /** `or`: sequence `relation \s+ or \s+ condition`, whose value is the disjunction. */
  function Or(rule: string, number: nat, pos: nat): (r: Step<bool>)
    requires pos <= |rule|
    ensures pos <= r.pos <= |rule|
    ensures r.value.None? ==> r.pos == pos
    ensures r.value.Some? ==> pos + 16 <= r.pos
    decreases |rule| - pos, 1
  {
    var a := Relation(rule, number, pos);
    if a.value.None? then Step(None, pos) else
    var b := Match(rule, a.pos, Space);
    if b.value.None? then Step(None, pos) else
    var c := Literal(rule, b.pos, "or");
    if c.value.None? then Step(None, pos) else
    var d := Match(rule, c.pos, Space);
    if d.value.None? then Step(None, pos) else
    var e := Condition(rule, number, d.pos);
    if e.value.None? then Step(None, pos) else
    Step(Some(a.value.value || e.value.value), e.pos)
  }

  /** `condition = choice([and, or, relation])`. */
  function Condition(rule: string, number: nat, pos: nat): (r: Step<bool>)
    requires pos <= |rule|
    ensures pos <= r.pos <= |rule|
    ensures r.value.Some? ==> pos + 6 <= r.pos
    decreases |rule| - pos, 2
  {
    var a := And(rule, number, pos);
    if a.value.Some? then a else
    var b := Or(rule, number, a.pos);
    if b.value.Some? then b else
    Relation(rule, number, b.pos)
  }

  /** `start`: the condition parsed from the beginning of the rule. */
  function Start(rule: string, number: nat): (r: Step<bool>)
    ensures r.pos <= |rule|
    ensures r.value.Some? ==> 6 <= r.pos
  {
    Condition(rule, number, 0)
  }

  /**
   * pluralruleparser(rule, number): the result of `start()`.  The final
   * `if` on a failed parse or unconsumed text has its `throw` commented out, so the
   * result is returned as it is, `None` included.
   */
  function Evaluate(rule: string, number: nat): (r: Option<bool>)
    ensures r.Some? ==> |rule| >= 6
  {
    Start(rule, number).value
  }
}
