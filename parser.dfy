/**
 * pluralruleparser(rule, number) as the source runs it: one object holds
 * the rule text, the number and the single mutable cursor `pos` that every
 * parser reads, advances and, on backtracking, rewinds.  There is one method
 * per parser of the source; each `sequence` is written out inline as "save
 * the cursor, run the steps, restore the cursor if one of them fails", and
 * each `choice` as the alternatives tried one after the other.
 *
 * Every method is proved to compute exactly what the matching function of
 * module Grammar describes, value and cursor together.
 */
module PluralRuleParser {
  import opened Wrappers
  import opened Combinators
  import Grammar

  /** The inline scan `for (i ...) if (list[i] === x) ...` of `_in` and `within`. */
  method Contains(list: seq<int>, x: Grammar.Num) returns (found: bool)
    ensures found <==> Grammar.Member(x, list)
  {
    for i := 0 to |list|
      invariant forall j :: 0 <= j < i ==> !Grammar.StrictEquals(x, list[j])
    {
      if Grammar.StrictEquals(x, list[i]) {
        return true;
      }
    }
    return false;
  }

  /** The loop of `range` that pushes `left, left + 1, ..., right` onto an array. */
  method ListRange(left: int, right: int) returns (list: seq<int>)
    ensures list == Grammar.Interval(left, right)
  {
    list := [];
    var i := left;
    while i <= right
      invariant left <= i && (left <= right ==> i <= right + 1) && (left > right ==> i == left)
      invariant |list| == i - left
      invariant forall k :: 0 <= k < |list| ==> list[k] == left + k
    {
      list := list + [i];
      i := i + 1;
    }
    assert forall k :: 0 <= k < |list| ==> list[k] == Grammar.Interval(left, right)[k];
  }

  class Parser {
    const rule: string
    const number: nat
    /** The position in `rule` shared by all the parsers. */
    var pos: nat

    ghost predicate Valid()
      reads this
    {
      pos <= |rule|
    }

    constructor (rule: string, number: nat)
      ensures this.rule == rule && this.number == number && pos == 0
      ensures Valid()
    {
      this.rule := rule;
      this.number := number;
      pos := 0;
    }

    /** A parser made by makeStringParser(t). */
    method Literal(t: string) returns (r: Option<string>)
      requires Valid()
      modifies this
      ensures Valid() && Step(r, pos) == Combinators.Literal(rule, old(pos), t)
    {
      r := None;
      if rule[pos..Min(pos + |t|, |rule|)] == t {
        r := Some(t);
        pos := pos + |t|;
      }
    }

    /**
     * A parser made by makeRegexParser(/^cls+/): `SpanEnd` stands for the
     * regular-expression engine, which finds the longest match at the cursor.
     */
    method Match(cls: CharClass) returns (r: Option<string>)
      requires Valid()
      modifies this
      ensures Valid() && Step(r, pos) == Combinators.Match(rule, old(pos), cls)
    {
      var e := SpanEnd(rule, pos, cls);
      if e == pos {
        return None;
      }
      r := Some(rule[pos..e]);
      pos := e;
    }

    method N() returns (r: Option<Grammar.Num>)
      requires Valid()
      modifies this
      ensures Valid() && Step(r, pos) == Grammar.N(rule, number, old(pos))
    {
      var t := Literal("n");
      if t.None? {
        return None;
      }
      r := Some(Grammar.Int(number));
    }

    method Mod() returns (r: Option<Grammar.Num>)
      requires Valid()
      modifies this
      ensures Valid() && Step(r, pos) == Grammar.Mod(rule, number, old(pos))
    {
      var originalPos := pos;
      var a := N();
      if a.None? { pos := originalPos; return None; }
      var b := Match(Space);
      if b.None? { pos := originalPos; return None; }
      var c := Literal("mod");
      if c.None? { pos := originalPos; return None; }
      var d := Match(Space);
      if d.None? { pos := originalPos; return None; }
      var e := Match(Digit);
      if e.None? { pos := originalPos; return None; }
      r := Some(Grammar.Remainder(a.value, DecimalValue(e.value)));
    }

    method Expression() returns (r: Option<Grammar.Num>)
      requires Valid()
      modifies this
      ensures Valid() && Step(r, pos) == Grammar.Expression(rule, number, old(pos))
    {
      r := Mod();
      if r.None? {
        r := N();
      }
    }

    method Not() returns (r: Option<string>)
      requires Valid()
      modifies this
      ensures Valid() && Step(r, pos) == Grammar.Not(rule, old(pos))
    {
      var originalPos := pos;
      var a := Match(Space);
      if a.None? { pos := originalPos; return None; }
      var b := Literal("not");
      if b.None? { pos := originalPos; return None; }
      r := b;
    }

    /** nOrMore(min, not): run `not` until it fails; too few results restore the cursor. */
    method NOrMore(min: nat) returns (r: Option<seq<string>>)
      requires Valid()
      modifies this
      ensures Valid() && Step(r, pos) == Grammar.NOrMore(rule, old(pos), min)
    {
      var originalPos := pos;
      var result: seq<string> := [];
      ghost var from := pos;
      var parsed := Not();
      while parsed.Some?
        invariant Valid() && from <= |rule|
        invariant Step(parsed, pos) == Grammar.Not(rule, from)
        invariant Grammar.NotRun(rule, originalPos) ==
          Grammar.Run(result + Grammar.NotRun(rule, from).items, Grammar.NotRun(rule, from).end)
        decreases |rule| - from
      {
        ghost var rest := Grammar.NotRun(rule, pos);
        assert result + ([parsed.value] + rest.items) == (result + [parsed.value]) + rest.items;
        result := result + [parsed.value];
        from := pos;
        parsed := Not();
      }
      assert Grammar.NotRun(rule, from) == Grammar.Run([], from);
      assert result + [] == result;
      if |result| < min {
        pos := originalPos;
        return None;
      }
      r := Some(result);
    }

    method Is() returns (r: Option<bool>)
      requires Valid()
      modifies this
      ensures Valid() && Step(r, pos) == Grammar.Is(rule, number, old(pos))
    {
      var originalPos := pos;
      var e := Expression();
      if e.None? { pos := originalPos; return None; }
      var a := Match(Space);
      if a.None? { pos := originalPos; return None; }
      var b := Literal("is");
      if b.None? { pos := originalPos; return None; }
      var nots := NOrMore(0);  // with a minimum of 0 it never yields null
      var c := Match(Space);
      if c.None? { pos := originalPos; return None; }
      var d := Match(Digit);
      if d.None? { pos := originalPos; return None; }
      var target := DecimalValue(d.value);
      if Grammar.LooseEqualsNot(nots.value) {
        r := Some(!Grammar.StrictEquals(e.value, target));
      } else {
        r := Some(Grammar.StrictEquals(e.value, target));
      }
    }

    method Range() returns (r: Option<seq<int>>)
      requires Valid()
      modifies this
      ensures Valid() && Step(r, pos) == Grammar.Range(rule, old(pos))
    {
      var originalPos := pos;
      var a := Match(Digit);
      if a.None? { pos := originalPos; return None; }
      var b := Literal("..");
      if b.None? { pos := originalPos; return None; }
      var c := Match(Digit);
      if c.None? { pos := originalPos; return None; }
      var list := ListRange(DecimalValue(a.value), DecimalValue(c.value));
      r := Some(list);
    }

    method In() returns (r: Option<bool>)
      requires Valid()
      modifies this
      ensures Valid() && Step(r, pos) == Grammar.In(rule, number, old(pos))
    {
      var originalPos := pos;
      var e := Expression();
      if e.None? { pos := originalPos; return None; }
      var nots := NOrMore(0);  // with a minimum of 0 it never yields null
      var a := Match(Space);
      if a.None? { pos := originalPos; return None; }
      var b := Literal("in");
      if b.None? { pos := originalPos; return None; }
      var c := Match(Space);
      if c.None? { pos := originalPos; return None; }
      var g := Range();
      if g.None? { pos := originalPos; return None; }
      var found := Contains(g.value, e.value);
      var negated := Grammar.LooseEqualsNot(nots.value);
      r := Some(if found then !negated else negated);
    }

    method Within() returns (r: Option<bool>)
      requires Valid()
      modifies this
      ensures Valid() && Step(r, pos) == Grammar.Within(rule, number, old(pos))
    {
      var originalPos := pos;
      var e := Expression();
      if e.None? { pos := originalPos; return None; }
      var a := Match(Space);
      if a.None? { pos := originalPos; return None; }
      var b := Literal("within");
      if b.None? { pos := originalPos; return None; }
      var c := Match(Space);
      if c.None? { pos := originalPos; return None; }
      var g := Range();
      if g.None? { pos := originalPos; return None; }
      var found := Contains(g.value, e.value);
      // a value outside the range falls through to `return null`, cursor left as it is
      r := if found then Some(true) else None;
    }

    method Relation() returns (r: Option<bool>)
      requires Valid()
      modifies this
      ensures Valid() && Step(r, pos) == Grammar.Relation(rule, number, old(pos))
    {
      r := Is();
      if r.Some? { return; }
      r := In();
      if r.Some? { return; }
      r := Within();
    }

    method And() returns (r: Option<bool>)
      requires Valid()
      modifies this
      ensures Valid() && Step(r, pos) == Grammar.And(rule, number, old(pos))
      decreases |rule| - pos, 1
    {
      var originalPos := pos;
      var a := Relation();
      if a.None? { pos := originalPos; return None; }
      var b := Match(Space);
      if b.None? { pos := originalPos; return None; }
      var c := Literal("and");
      if c.None? { pos := originalPos; return None; }
      var d := Match(Space);
      if d.None? { pos := originalPos; return None; }
      var e := Condition();
      if e.None? { pos := originalPos; return None; }
      r := Some(a.value && e.value);
    }

    method Or() returns (r: Option<bool>)
      requires Valid()
      modifies this
      ensures Valid() && Step(r, pos) == Grammar.Or(rule, number, old(pos))
      decreases |rule| - pos, 1
    {
      var originalPos := pos;
      var a := Relation();
      if a.None? { pos := originalPos; return None; }
      var b := Match(Space);
      if b.None? { pos := originalPos; return None; }
      var c := Literal("or");
      if c.None? { pos := originalPos; return None; }
      var d := Match(Space);
      if d.None? { pos := originalPos; return None; }
      var e := Condition();
      if e.None? { pos := originalPos; return None; }
      r := Some(a.value || e.value);
    }

    method Condition() returns (r: Option<bool>)
      requires Valid()
      modifies this
      ensures Valid() && Step(r, pos) == Grammar.Condition(rule, number, old(pos))
      decreases |rule| - pos, 2
    {
      r := And();
      if r.Some? { return; }
      r := Or();
      if r.Some? { return; }
      r := Relation();
    }

    method Start() returns (r: Option<bool>)
      requires Valid()
      modifies this
      ensures Valid() && Step(r, pos) == Grammar.Condition(rule, number, old(pos))
    {
      r := Condition();
    }
  }

  /**
   * pluralruleparser(rule, number): a fresh cursor at 0 and `start()`.  The
   * final `if` on a failed parse or unconsumed text does not throw (its `throw`
   * is commented out), so the result of `start()` is returned unchanged.
   */
  method Evaluate(rule: string, number: nat) returns (result: Option<bool>)
    ensures result == Grammar.Evaluate(rule, number)
  {
    var p := new Parser(rule, number);
    result := p.Start();
  }
}
