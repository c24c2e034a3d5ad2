/**
 * Plural rules of the kind CLDR publishes, each evaluated through the main
 * theorem: the rule text is the printed form of a syntax tree, so the
 * parser's result is the tree's value.  The rule text is a parameter so
 * that the verifier reasons about it through the theorem rather than by
 * running the parser on the literal.
 */
module RuleExamples {
  import opened Wrappers
  import opened Combinators
  import opened Grammar
  import opened Rules

  /** English `one`: `n is 1`. */
  lemma EnglishOne(rule: string)
    requires rule == "n is 1"
    ensures Evaluate(rule, 1) == Some(true)
    ensures Evaluate(rule, 2) == Some(false)
    ensures Evaluate(rule, 10) == Some(false)
  {
    var c := Single(IsRel(NVar, 0, 1));
    assert ShowCond(c, " ") == rule;
    EvaluateShow(c, 1, " ");
    EvaluateShow(c, 2, " ");
    EvaluateShow(c, 10, " ");
  }

  /** The first relation of Polish `few`: `n mod 10 in 2..4`. */
  lemma ModRange(rule: string)
    requires rule == "n mod 10 in 2..4"
    ensures Evaluate(rule, 23) == Some(true)
    ensures Evaluate(rule, 25) == Some(false)
  {
    var r := InRel(ModBy(10), 0, 2, 4);
    ModRangeText(r, rule);
    EvaluateShow(Single(r), 23, " ");
    EvaluateShow(Single(r), 25, " ");
  }

  /** `within` outside its range gives null rather than false. */
  lemma WithinOutside(rule: string)
    requires rule == "n within 0..2"
    ensures Evaluate(rule, 5) == None
  {
    var c := Single(WithinRel(NVar, 0, 2));
    assert ShowRange(0, 2) == "0..2";
    assert ShowCond(c, " ") == rule;
    EvaluateShow(c, 5, " ");
  }

  /** Two `not`s do not negate: the count is compared with 1. */
  lemma DoubleNot(rule: string)
    requires rule == "n is not not 1"
    ensures Evaluate(rule, 1) == Some(true)
  {
    var c := Single(IsRel(NVar, 2, 1));
    assert NotsText(2, " ") == " not not";
    assert ShowCond(c, " ") == rule;
    EvaluateShow(c, 1, " ");
  }

  /** `n mod 4 is 3` and `n mod 4 is not 3` at 7, whose remainder is 3. */
  lemma ModIs(rule: string, negated: string)
    requires rule == "n mod 4 is 3" && negated == "n mod 4 is not 3"
    ensures Evaluate(rule, 7) == Some(true)
    ensures Evaluate(negated, 7) == Some(false)
  {
    var a, b := IsRel(ModBy(4), 0, 3), IsRel(ModBy(4), 1, 3);
    ModIsText(a, b, rule, negated);
    EvaluateShow(Single(a), 7, " ");
    EvaluateShow(Single(b), 7, " ");
  }

  /** `n mod 4 in 0..5` at 7: the remainder 3 lies in the range. */
  lemma ModIn(rule: string)
    requires rule == "n mod 4 in 0..5"
    ensures Evaluate(rule, 7) == Some(true)
  {
    var r := InRel(ModBy(4), 0, 0, 5);
    ModInText(r, rule);
    EvaluateShow(Single(r), 7, " ");
  }

  /** A range whose bounds are equal holds exactly its one number: both bounds are inclusive. */
  lemma SingletonRange(rule: string)
    requires rule == "n in 2..2"
    ensures Evaluate(rule, 2) == Some(true)
    ensures Evaluate(rule, 3) == Some(false)
  {
    var c := Single(InRel(NVar, 0, 2, 2));
    assert ShowRange(2, 2) == "2..2";
    assert ShowCond(c, " ") == rule;
    EvaluateShow(c, 2, " ");
    EvaluateShow(c, 3, " ");
  }

  /**
   * `mod 0` gives NaN, which is strictly equal to nothing: `is` without a
   * `not` is false, and with one `not` it is true.
   */
  lemma ModZero(rule: string, negated: string)
    requires rule == "n mod 0 is 3" && negated == "n mod 0 is not 3"
    ensures Evaluate(rule, 7) == Some(false)
    ensures Evaluate(negated, 7) == Some(true)
  {
    var a, b := IsRel(ModBy(0), 0, 3), IsRel(ModBy(0), 1, 3);
    ModZeroIsText(a, rule);
    ModZeroIsNotText(b, negated);
    EvaluateShow(Single(a), 7, " ");
    EvaluateShow(Single(b), 7, " ");
  }

  /** NaN lies in no range, so `within` on it yields null. */
  lemma ModZeroWithin(rule: string)
    requires rule == "n mod 0 within 0..5"
    ensures Evaluate(rule, 7) == None
  {
    var w := WithinRel(ModBy(0), 0, 5);
    ModZeroWithinText(w, rule);
    assert EvalCond(Single(w), 7) == None;
    EvaluateShow(Single(w), 7, " ");
  }

  /** `n is 1 and n mod 1 is 0` at 1: both relations hold. */
  lemma AndBothTrue(rule: string)
    requires rule == "n is 1 and n mod 1 is 0"
    ensures Evaluate(rule, 1) == Some(true)
  {
    var c := AndCond(IsRel(NVar, 0, 1), Single(IsRel(ModBy(1), 0, 0)));
    AndBothTrueText(c, rule);
    EvaluateShow(c, 1, " ");
  }

  /** `n is 3 or n mod 1 is 0` at 1: the first relation fails and the second holds. */
  lemma OrSecondTrue(rule: string)
    requires rule == "n is 3 or n mod 1 is 0"
    ensures Evaluate(rule, 1) == Some(true)
  {
    var c := OrCond(IsRel(NVar, 0, 3), Single(IsRel(ModBy(1), 0, 0)));
    OrSecondTrueText(c, rule);
    EvaluateShow(c, 1, " ");
  }

  /** `n is 1 and n is 1 and n is not 1` at 1: the last relation fails the chain. */
  lemma AndChain(rule: string)
    requires rule == "n is 1 and n is 1 and n is not 1"
    ensures Evaluate(rule, 1) == Some(false)
  {
    var c := AndCond(IsRel(NVar, 0, 1), AndCond(IsRel(NVar, 0, 1), Single(IsRel(NVar, 1, 1))));
    AndChainText(c, rule);
    EvaluateShow(c, 1, " ");
  }

  /** `n mod 100 not in 12..14` at 4: the remainder 4 lies outside the teens. */
  lemma TeensExcluded(rule: string)
    requires rule == "n mod 100 not in 12..14"
    ensures Evaluate(rule, 4) == Some(true)
  {
    var r := InRel(ModBy(100), 1, 12, 14);
    TeensText(r, rule);
    assert EvalCond(Single(r), 4) == Some(true);
    EvaluateShow(Single(r), 4, " ");
  }

  /** Polish `few`, `n mod 10 in 2..4 and n mod 100 not in 12..14`, holds at 4. */
  lemma PolishFew(rule: string)
    requires rule == "n mod 10 in 2..4 and n mod 100 not in 12..14"
    ensures Evaluate(rule, 4) == Some(true)
  {
    var c := AndCond(InRel(ModBy(10), 0, 2, 4), Single(InRel(ModBy(100), 1, 12, 14)));
    PolishFewText(c, rule);
    EvaluateShow(c, 4, " ");
  }

  /** `n mod 4 not in 0..5` at 7: 3 lies in the range, so the negated test is false. */
  lemma ModNotIn(rule: string)
    requires rule == "n mod 4 not in 0..5"
    ensures Evaluate(rule, 7) == Some(false)
  {
    var r := InRel(ModBy(4), 1, 0, 5);
    ModNotInText(r, rule);
    EvaluateShow(Single(r), 7, " ");
  }

  /** An unknown operator: the rule yields null. */
  lemma UnknownWord(rule: string)
    requires rule == "n maybe 1"
    ensures Evaluate(rule, 1) == None
  {
    var w := "maybe 1";
    assert "n" + " " + w == rule;
    assert w[..3][1] != "mod"[1];
    assert w[..2][0] != "is"[0] && w[..3][0] != "not"[0];
    assert w[..2][0] != "in"[0] && w[..6][0] != "within"[0];
    UnknownOperator(1, " ", w);
  }

  /**
   * Unconsumed text after a complete condition: the final `if` on it does not
   * throw, so the condition's value is returned.
   */
  lemma TrailingWord(rule: string)
    requires rule == "n is 1 extra"
    ensures Evaluate(rule, 1) == Some(true)
  {
    var c := Single(IsRel(NVar, 0, 1));
    assert ShowCond(c, " ") + " " + "extra" == rule;
    TrailingTextIgnored(c, 1, " ", "extra");
  }

  // ---------------------------------------------------------------------
  // The printed texts of the examples.  Each equality of string literals is
  // proved in a lemma of its own, which keeps every proof small.

  lemma ModRangeText(r: Rel, t: string)
    requires r == InRel(ModBy(10), 0, 2, 4) && t == "n mod 10 in 2..4"
    ensures ShowCond(Single(r), " ") == t
  {
    assert ShowNat(10) == "10";
    assert ShowRange(2, 4) == "2..4";
  }

  lemma ModIsText(a: Rel, b: Rel, t: string, u: string)
    requires a == IsRel(ModBy(4), 0, 3) && b == IsRel(ModBy(4), 1, 3)
    requires t == "n mod 4 is 3" && u == "n mod 4 is not 3"
    ensures ShowCond(Single(a), " ") == t && ShowCond(Single(b), " ") == u
  {
    assert NotsText(1, " ") == " not";
  }

  lemma ModInText(r: Rel, t: string)
    requires r == InRel(ModBy(4), 0, 0, 5) && t == "n mod 4 in 0..5"
    ensures ShowCond(Single(r), " ") == t
  {
    assert ShowRange(0, 5) == "0..5";
  }

  lemma ModZeroIsText(a: Rel, t: string)
    requires a == IsRel(ModBy(0), 0, 3) && t == "n mod 0 is 3"
    ensures ShowCond(Single(a), " ") == t
  {
  }

  lemma ModZeroIsNotText(b: Rel, u: string)
    requires b == IsRel(ModBy(0), 1, 3) && u == "n mod 0 is not 3"
    ensures ShowCond(Single(b), " ") == u
  {
    assert NotsText(1, " ") == " not";
  }

  lemma ModZeroWithinText(w: Rel, v: string)
    requires w == WithinRel(ModBy(0), 0, 5) && v == "n mod 0 within 0..5"
    ensures ShowCond(Single(w), " ") == v
  {
    assert ShowRange(0, 5) == "0..5";
  }

  /** The printed form of `a and rest`, from the printed forms of its parts. */
  lemma AndText(a: Rel, rest: Cond, ta: string, tr: string, t: string)
    requires ShowRel(a, " ") == ta && ShowCond(rest, " ") == tr
    requires t == ta + " and " + tr
    ensures ShowCond(AndCond(a, rest), " ") == t
  {
  }

  /** The printed form of `a or rest`, from the printed forms of its parts. */
  lemma OrText(a: Rel, rest: Cond, ta: string, tr: string, t: string)
    requires ShowRel(a, " ") == ta && ShowCond(rest, " ") == tr
    requires t == ta + " or " + tr
    ensures ShowCond(OrCond(a, rest), " ") == t
  {
  }

  lemma AndModJoined(a: string, sep: string, b: string, t: string)
    requires a == "n is 1" && sep == " and " && b == "n mod 1 is 0"
    requires t == "n is 1 and n mod 1 is 0"
    ensures t == a + sep + b
  {
  }

  lemma OrModJoined(a: string, sep: string, b: string, t: string)
    requires a == "n is 3" && sep == " or " && b == "n mod 1 is 0"
    requires t == "n is 3 or n mod 1 is 0"
    ensures t == a + sep + b
  {
  }

  lemma AndNotJoined(a: string, sep: string, b: string, t: string)
    requires a == "n is 1" && sep == " and " && b == "n is not 1"
    requires t == "n is 1 and n is not 1"
    ensures t == a + sep + b
  {
  }

  lemma AndChainJoined(a: string, sep: string, b: string, t: string)
    requires a == "n is 1" && sep == " and " && b == "n is 1 and n is not 1"
    requires t == "n is 1 and n is 1 and n is not 1"
    ensures t == a + sep + b
  {
  }

  lemma IsOneText(r: Rel, t: string)
    requires r == IsRel(NVar, 0, 1) && t == "n is 1"
    ensures ShowRel(r, " ") == t
  {
  }

  lemma IsNotOneText(r: Rel, t: string)
    requires r == IsRel(NVar, 1, 1) && t == "n is not 1"
    ensures ShowRel(r, " ") == t
  {
    assert NotsText(1, " ") == " not";
  }

  lemma IsThreeText(r: Rel, t: string)
    requires r == IsRel(NVar, 0, 3) && t == "n is 3"
    ensures ShowRel(r, " ") == t
  {
  }

  lemma ModOneText(r: Rel, t: string)
    requires r == IsRel(ModBy(1), 0, 0) && t == "n mod 1 is 0"
    ensures ShowCond(Single(r), " ") == t
  {
  }

  lemma AndBothTrueText(c: Cond, t: string)
    requires c == AndCond(IsRel(NVar, 0, 1), Single(IsRel(ModBy(1), 0, 0)))
    requires t == "n is 1 and n mod 1 is 0"
    ensures ShowCond(c, " ") == t
  {
    var ta, tb := "n is 1", "n mod 1 is 0";
    IsOneText(c.left, ta);
    ModOneText(c.right.rel, tb);
    AndModJoined(ta, " and ", tb, t);
    AndText(c.left, c.right, ta, tb, t);
  }

  lemma OrSecondTrueText(c: Cond, t: string)
    requires c == OrCond(IsRel(NVar, 0, 3), Single(IsRel(ModBy(1), 0, 0)))
    requires t == "n is 3 or n mod 1 is 0"
    ensures ShowCond(c, " ") == t
  {
    var ta, tb := "n is 3", "n mod 1 is 0";
    IsThreeText(c.left, ta);
    ModOneText(c.right.rel, tb);
    OrModJoined(ta, " or ", tb, t);
    OrText(c.left, c.right, ta, tb, t);
  }

  lemma AndChainText(c: Cond, t: string)
    requires c == AndCond(IsRel(NVar, 0, 1), AndCond(IsRel(NVar, 0, 1), Single(IsRel(NVar, 1, 1))))
    requires t == "n is 1 and n is 1 and n is not 1"
    ensures ShowCond(c, " ") == t
  {
    var ta, tb := "n is 1", "n is 1 and n is not 1";
    IsOneText(c.left, ta);
    AndNotOneText(c.right, tb);
    AndChainJoined(ta, " and ", tb, t);
    AndText(c.left, c.right, ta, tb, t);
  }

  lemma AndNotOneText(c: Cond, t: string)
    requires c == AndCond(IsRel(NVar, 0, 1), Single(IsRel(NVar, 1, 1)))
    requires t == "n is 1 and n is not 1"
    ensures ShowCond(c, " ") == t
  {
    var ta, tb := "n is 1", "n is not 1";
    IsOneText(c.left, ta);
    IsNotOneText(c.right.rel, tb);
    AndNotJoined(ta, " and ", tb, t);
    AndText(c.left, c.right, ta, tb, t);
  }

  lemma TeensText(r: Rel, t: string)
    requires r == InRel(ModBy(100), 1, 12, 14) && t == "n mod 100 not in 12..14"
    ensures ShowCond(Single(r), " ") == t
  {
    ModHundredText();
    TeensRangeText();
    assert NotsText(1, " ") == " not";
  }

  lemma ModHundredText()
    ensures ShowExpr(ModBy(100), " ") == "n mod 100"
  {
    assert ShowNat(10) == "10";
    assert ShowNat(100) == "100";
  }

  lemma TeensRangeText()
    ensures ShowRange(12, 14) == "12..14"
  {
    assert ShowNat(12) == "12";
    assert ShowNat(14) == "14";
  }

  lemma PolishFewText(c: Cond, t: string)
    requires c == AndCond(InRel(ModBy(10), 0, 2, 4), Single(InRel(ModBy(100), 1, 12, 14)))
    requires t == "n mod 10 in 2..4 and n mod 100 not in 12..14"
    ensures ShowCond(c, " ") == t
  {
    var ta, tb := "n mod 10 in 2..4", "n mod 100 not in 12..14";
    ModRangeText(c.left, ta);
    TeensText(c.right.rel, tb);
    PolishFewJoined(ta, " and ", tb, t);
    AndText(c.left, c.right, ta, tb, t);
  }

  lemma PolishFewJoined(a: string, sep: string, b: string, t: string)
    requires a == "n mod 10 in 2..4" && sep == " and " && b == "n mod 100 not in 12..14"
    requires t == "n mod 10 in 2..4 and n mod 100 not in 12..14"
    ensures t == a + sep + b
  {
  }

  lemma ModNotInText(r: Rel, t: string)
    requires r == InRel(ModBy(4), 1, 0, 5) && t == "n mod 4 not in 0..5"
    ensures ShowCond(Single(r), " ") == t
  {
    assert ShowRange(0, 5) == "0..5";
    assert NotsText(1, " ") == " not";
  }
}
