/**
 * What the parser computes, stated against an independent reference: plural
 * rules as syntax trees, a printer that writes a tree as rule text, and a
 * direct evaluator of trees.  The main theorem, `EvaluateShow`, says that
 * the fused parser-evaluator of module Grammar gives, for the printed text
 * of any tree, exactly what the evaluator gives for the tree.
 *
 * Conditions are right-nested (`left` is always a single relation), which
 * is the only shape the grammar `condition := relation (and | or) condition`
 * can derive: `A and B or C` is `A and (B or C)`.
 *
 * The evaluator spells out the two places where the source does not
 * produce a Boolean: `within` gives no value (null) when the number lies
 * outside the range, and then a surrounding `and` or `or` step fails, so
 * the condition falls back to its left relation alone.
 */
module Rules {
  import opened Wrappers
  import opened Combinators
  import opened Grammar

  datatype Expr = NVar | ModBy(divisor: nat)

  datatype Rel =
    | IsRel(e: Expr, nots: nat, target: nat)
    | InRel(e: Expr, nots: nat, lo: nat, hi: nat)
    | WithinRel(e: Expr, lo: nat, hi: nat)

  datatype Cond =
    | AndCond(left: Rel, right: Cond)
    | OrCond(left: Rel, right: Cond)
    | Single(rel: Rel)

  /** A separator: a non-empty run of whitespace. */
  predicate Gap(sp: string)
  {
    |sp| > 0 && AllIn(sp, Space)
  }

  /** The printer; every separator between words is `sp`. */
  function NotsText(k: nat, sp: string): string
  {
    if k == 0 then "" else sp + "not" + NotsText(k - 1, sp)
  }

  function ShowExpr(e: Expr, sp: string): string
  {
    match e
    case NVar => "n"
    case ModBy(d) => "n" + sp + "mod" + sp + ShowNat(d)
  }

  function ShowRange(lo: nat, hi: nat): string
  {
    ShowNat(lo) + ".." + ShowNat(hi)
  }

  function ShowRel(r: Rel, sp: string): string
  {
    match r
    case IsRel(e, k, d) => ShowExpr(e, sp) + sp + "is" + NotsText(k, sp) + sp + ShowNat(d)
    case InRel(e, k, lo, hi) => ShowExpr(e, sp) + NotsText(k, sp) + sp + "in" + sp + ShowRange(lo, hi)
    case WithinRel(e, lo, hi) => ShowExpr(e, sp) + sp + "within" + sp + ShowRange(lo, hi)
  }

  function ShowCond(c: Cond, sp: string): string
  {
    match c
    case AndCond(r, rest) => ShowRel(r, sp) + sp + "and" + sp + ShowCond(rest, sp)
    case OrCond(r, rest) => ShowRel(r, sp) + sp + "or" + sp + ShowCond(rest, sp)
    case Single(r) => ShowRel(r, sp)
  }

  /** The evaluator.  A divisor of 0 gives NaN, which is equal to nothing. */
  function EvalExpr(e: Expr, number: nat): Num
  {
    match e
    case NVar => Int(number)
    case ModBy(d) => if d == 0 then NaN else Int(number % d)
  }

  /** A relation with exactly one `not` is negated; none or several leave it as it is. */
  function EvalRel(r: Rel, number: nat): Option<bool>
  {
    match r
    case IsRel(e, k, d) =>
      var equal := EvalExpr(e, number) == Int(d);
      Some(if k == 1 then !equal else equal)
    case InRel(e, k, lo, hi) =>
      var x := EvalExpr(e, number);
      var inside := x.Int? && lo <= x.v <= hi;
      Some(if k == 1 then !inside else inside)
    case WithinRel(e, lo, hi) =>
      var x := EvalExpr(e, number);
      if x.Int? && lo <= x.v <= hi then Some(true) else None
  }

  function EvalCond(c: Cond, number: nat): Option<bool>
  {
    match c
    case Single(r) => EvalRel(r, number)
    case AndCond(r, rest) =>
      (match EvalRel(r, number)
       case None => None
       case Some(a) =>
         (match EvalCond(rest, number)
          case Some(b) => Some(a && b)
          case None => Some(a)))
    case OrCond(r, rest) =>
      (match EvalRel(r, number)
       case None => None
       case Some(a) =>
         (match EvalCond(rest, number)
          case Some(b) => Some(a || b)
          case None => Some(a)))
  }

  // ---------------------------------------------------------------------
  // Leaf facts

  /** The text ends at `i` or a whitespace character follows there. */
  predicate Boundary(s: string, i: nat)
  {
    i == |s| || (i < |s| && IsSpace(s[i]))
  }

  lemma AtSplit(s: string, p: nat, a: string, b: string, q: nat)
    requires At(s, p, a + b) && q == p + |a|
    ensures At(s, p, a) && At(s, q, b)
  {
    AtConcat(s, p, a, b);
  }

  lemma AtChar(s: string, p: nat, t: string, j: nat)
    requires At(s, p, t) && j < |t|
    ensures s[p + j] == t[j]
  {
    assert s[p..p + |t|][j] == t[j];
  }

  /** A keyword whose `j`-th character differs from the text does not match. */
  lemma LiteralMismatch(s: string, p: nat, t: string, j: nat)
    requires p <= |s| && j < |t| && p + j < |s| && s[p + j] != t[j]
    ensures Literal(s, p, t) == Step(None, p)
  {
    LiteralSpec(s, p, t);
    if At(s, p, t) {
      AtChar(s, p, t, j);
    }
  }

  /** A keyword the text holds at the cursor matches. */
  lemma KeywordAt(s: string, p: nat, t: string, q: nat)
    requires At(s, p, t) && q == p + |t|
    ensures Literal(s, p, t) == Step(Some(t), q)
  {
    LiteralSpec(s, p, t);
  }

  lemma SpaceRun(s: string, p: nat, sp: string, q: nat)
    requires Gap(sp) && At(s, p, sp) && q == p + |sp|
    requires q < |s| && !IsSpace(s[q])
    ensures Match(s, p, Space) == Step(Some(sp), q)
  {
    MatchRun(s, p, sp, Space);
  }

  lemma Numeral(s: string, p: nat, k: nat, q: nat)
    requires At(s, p, ShowNat(k)) && q == p + |ShowNat(k)|
    requires q == |s| || !IsDigit(s[q])
    ensures Match(s, p, Digit) == Step(Some(ShowNat(k)), q)
    ensures DecimalValue(ShowNat(k)) == k
  {
    MatchRun(s, p, ShowNat(k), Digit);
    DecimalValueShowNat(k);
  }

  /**
   * A numeral written with leading zeros, which the printer never writes,
   * is taken whole by `digits` and read by `parseInt` as the same number.
   */
  lemma PaddedNumeral(s: string, p: nat, z: nat, k: nat, q: nat)
    requires At(s, p, Zeros(z) + ShowNat(k)) && q == p + z + |ShowNat(k)|
    requires q == |s| || !IsDigit(s[q])
    ensures Match(s, p, Digit) == Step(Some(Zeros(z) + ShowNat(k)), q)
    ensures DecimalValue(Zeros(z) + ShowNat(k)) == k
  {
    var t := Zeros(z) + ShowNat(k);
    forall i | 0 <= i < |t|
      ensures InClass(t[i], Digit)
    {
      if i < z {
        assert t[i] == Zeros(z)[i];
      } else {
        assert t[i] == ShowNat(k)[i - z];
      }
    }
    MatchRun(s, p, t, Digit);
    DecimalValueZeros(z, ShowNat(k));
    DecimalValueShowNat(k);
  }

  // ---------------------------------------------------------------------
  // Productions on printed text

  lemma ModSteps(rule: string, number: nat, pos: nat, p1: nat, p2: nat, p3: nat, p4: nat, p5: nat, D: string)
    requires pos <= |rule|
    requires N(rule, number, pos) == Step(Some(Int(number)), p1) && p1 <= |rule|
    requires Match(rule, p1, Space).value.Some? && Match(rule, p1, Space).pos == p2
    requires Literal(rule, p2, "mod") == Step(Some("mod"), p3) && p3 <= |rule|
    requires Match(rule, p3, Space).value.Some? && Match(rule, p3, Space).pos == p4
    requires Match(rule, p4, Digit) == Step(Some(D), p5)
    ensures Mod(rule, number, pos) == Step(Some(Remainder(Int(number), DecimalValue(D))), p5)
  {
  }

  /** A bare `n` followed by a word other than `mod`: `mod` fails and `n` is taken. */
  lemma BareNParse(rule: string, number: nat, pos: nat, sp: string, q: nat)
    requires Gap(sp) && At(rule, pos, "n") && At(rule, pos + 1, sp) && q == pos + 1 + |sp|
    requires q < |rule| && !IsSpace(rule[q]) && Literal(rule, q, "mod").value.None?
    ensures Expression(rule, number, pos) == Step(Some(Int(number)), pos + 1)
  {
    KeywordAt(rule, pos, "n", pos + 1);
    SpaceRun(rule, pos + 1, sp, q);
  }

  /** `n sp mod sp D` followed by a separator: `mod` takes it all. */
  lemma ModParse(rule: string, number: nat, pos: nat, d: nat, sp: string, q: nat)
    requires Gap(sp) && At(rule, pos, "n" + sp + "mod" + sp + ShowNat(d))
    requires q == pos + |"n" + sp + "mod" + sp + ShowNat(d)| && q < |rule| && IsSpace(rule[q])
    ensures Expression(rule, number, pos) == Step(Some(EvalExpr(ModBy(d), number)), q)
  {
    var D := ShowNat(d);
    var p1 := pos + 1;
    var p2 := p1 + |sp|;
    var p3 := p2 + 3;
    var p4 := p3 + |sp|;
    AtSplit(rule, pos, "n" + sp + "mod" + sp, D, p4);
    AtSplit(rule, pos, "n" + sp + "mod", sp, p3);
    AtSplit(rule, pos, "n" + sp, "mod", p2);
    AtSplit(rule, pos, "n", sp, p1);
    KeywordAt(rule, pos, "n", p1);
    KeywordAt(rule, p2, "mod", p3);
    AtChar(rule, p2, "mod", 0);
    SpaceRun(rule, p1, sp, p2);
    AtChar(rule, p4, D, 0);
    SpaceRun(rule, p3, sp, p4);
    Numeral(rule, p4, d, q);
    ModSteps(rule, number, pos, p1, p2, p3, p4, q, D);
  }

  /** `expression` on a printed expression followed by a separator and a word other than `mod`. */
  lemma ExpressionParse(rule: string, number: nat, pos: nat, e: Expr, sp: string, q: nat)
    requires Gap(sp) && At(rule, pos, ShowExpr(e, sp) + sp) && q == pos + |ShowExpr(e, sp)|
    requires q + |sp| < |rule| && !IsSpace(rule[q + |sp|]) && rule[q + |sp|] != 'm'
    ensures Expression(rule, number, pos) == Step(Some(EvalExpr(e, number)), q)
  {
    AtSplit(rule, pos, ShowExpr(e, sp), sp, q);
    AtChar(rule, q, sp, 0);
    match e
    case NVar =>
      AtSplit(rule, pos, "n", sp, pos + 1);
      LiteralMismatch(rule, q + |sp|, "mod", 0);
      BareNParse(rule, number, pos, sp, q + |sp|);
    case ModBy(d) =>
      ModParse(rule, number, pos, d, sp, q);
  }

  /** The `not` loop collects exactly the `not`s that are written. */
  lemma {:induction false} NotsParse(rule: string, p: nat, k: nat, sp: string, q: nat)
    requires Gap(sp) && At(rule, p, NotsText(k, sp)) && q == p + |NotsText(k, sp)| && At(rule, q, sp)
    requires q + |sp| < |rule| && !IsSpace(rule[q + |sp|]) && rule[q + |sp|] != 'n'
    ensures |NotRun(rule, p).items| == k
    ensures NotRun(rule, p).end == q
    decreases k
  {
    if k == 0 {
      var q' := q + |sp|;
      SpaceRun(rule, p, sp, q');
      LiteralMismatch(rule, q', "not", 0);
    } else {
      var T := NotsText(k - 1, sp);
      var p1 := p + |sp|;
      var p2 := p1 + 3;
      AtSplit(rule, p, sp + "not", T, p2);
      AtSplit(rule, p, sp, "not", p1);
      AtChar(rule, p1, "not", 0);
      KeywordAt(rule, p1, "not", p2);
      SpaceRun(rule, p, sp, p1);
      assert Not(rule, p) == Step(Some("not"), p2);
      NotsParse(rule, p2, k - 1, sp, q);
    }
  }

  lemma NOrMoreParse(rule: string, p: nat, k: nat, sp: string, q: nat)
    requires Gap(sp) && At(rule, p, NotsText(k, sp)) && q == p + |NotsText(k, sp)| && At(rule, q, sp)
    requires q + |sp| < |rule| && !IsSpace(rule[q + |sp|]) && rule[q + |sp|] != 'n'
    ensures NOrMore(rule, p, 0).value.Some? && NOrMore(rule, p, 0).pos == q
    ensures LooseEqualsNot(NOrMore(rule, p, 0).value.value) <==> k == 1
  {
    NotsParse(rule, p, k, sp, q);
    LooseEqualsNotIffOne(NotRun(rule, p).items);
  }

  lemma RangeSteps(rule: string, p: nat, p1: nat, p2: nat, p3: nat, L: string, H: string)
    requires p <= |rule|
    requires Match(rule, p, Digit) == Step(Some(L), p1) && p1 <= |rule|
    requires Literal(rule, p1, "..") == Step(Some(".."), p2) && p2 <= |rule|
    requires Match(rule, p2, Digit) == Step(Some(H), p3)
    ensures Range(rule, p) == Step(Some(Interval(DecimalValue(L), DecimalValue(H))), p3)
  {
  }

  /** `range` yields the inclusive list between the two numerals. */
  lemma RangeParse(rule: string, p: nat, lo: nat, hi: nat, q: nat)
    requires At(rule, p, ShowRange(lo, hi)) && q == p + |ShowRange(lo, hi)| && Boundary(rule, q)
    ensures Range(rule, p) == Step(Some(Interval(lo, hi)), q)
  {
    var L, H := ShowNat(lo), ShowNat(hi);
    var p1 := p + |L|;
    var p2 := p1 + 2;
    AtSplit(rule, p, L + "..", H, p2);
    AtSplit(rule, p, L, "..", p1);
    AtChar(rule, p1, "..", 0);
    KeywordAt(rule, p1, "..", p2);
    Numeral(rule, p, lo, p1);
    Numeral(rule, p2, hi, q);
    RangeSteps(rule, p, p1, p2, q, L, H);
  }

  /** The scan of `_in` and `within` over a range list is the range test of the evaluator. */
  lemma MemberInterval(x: Num, lo: nat, hi: nat)
    ensures Member(x, Interval(lo, hi)) <==> x.Int? && lo <= x.v <= hi
  {
    if x.Int? {
      IntervalMembers(lo, hi, x.v);
    }
  }

  lemma IsSteps(rule: string, number: nat, pos: nat, x: Num, nots: seq<string>, D: string,
                p1: nat, p2: nat, p3: nat, p4: nat, p5: nat, p6: nat)
    requires pos <= |rule|
    requires Expression(rule, number, pos) == Step(Some(x), p1) && p1 <= |rule|
    requires Match(rule, p1, Space).value.Some? && Match(rule, p1, Space).pos == p2
    requires Literal(rule, p2, "is") == Step(Some("is"), p3) && p3 <= |rule|
    requires NOrMore(rule, p3, 0) == Step(Some(nots), p4) && p4 <= |rule|
    requires Match(rule, p4, Space).value.Some? && Match(rule, p4, Space).pos == p5
    requires Match(rule, p5, Digit) == Step(Some(D), p6)
    ensures Is(rule, number, pos) ==
      Step(Some(if LooseEqualsNot(nots) then !StrictEquals(x, DecimalValue(D)) else StrictEquals(x, DecimalValue(D))), p6)
  {
  }

  /** The printed `is` relation, word by word. */
  lemma IsLayout(rule: string, pos: nat, r: Rel, sp: string, p1: nat, p2: nat, p3: nat, p4: nat, p5: nat)
    requires r.IsRel? && At(rule, pos, ShowRel(r, sp))
    requires p1 == pos + |ShowExpr(r.e, sp)| && p2 == p1 + |sp| && p3 == p2 + 2
    requires p4 == p3 + |NotsText(r.nots, sp)| && p5 == p4 + |sp|
    ensures At(rule, pos, ShowExpr(r.e, sp)) && At(rule, p1, sp) && At(rule, p2, "is")
    ensures At(rule, p3, NotsText(r.nots, sp)) && At(rule, p4, sp) && At(rule, p5, ShowNat(r.target))
    ensures p5 + |ShowNat(r.target)| == pos + |ShowRel(r, sp)|
  {
    var E, T, D := ShowExpr(r.e, sp), NotsText(r.nots, sp), ShowNat(r.target);
    AtSplit(rule, pos, E + sp + "is" + T + sp, D, p5);
    AtSplit(rule, pos, E + sp + "is" + T, sp, p4);
    AtSplit(rule, pos, E + sp + "is", T, p3);
    AtSplit(rule, pos, E + sp, "is", p2);
    AtSplit(rule, pos, E, sp, p1);
  }

  lemma IsParse(rule: string, number: nat, pos: nat, r: Rel, sp: string, q: nat)
    requires r.IsRel? && Gap(sp) && At(rule, pos, ShowRel(r, sp))
    requires q == pos + |ShowRel(r, sp)| && Boundary(rule, q)
    ensures Is(rule, number, pos) == Step(EvalRel(r, number), q)
  {
    var E, T, D := ShowExpr(r.e, sp), NotsText(r.nots, sp), ShowNat(r.target);
    var p1 := pos + |E|;
    var p2 := p1 + |sp|;
    var p3 := p2 + 2;
    var p4 := p3 + |T|;
    var p5 := p4 + |sp|;
    IsLayout(rule, pos, r, sp, p1, p2, p3, p4, p5);
    IsWords(rule, number, pos, r.e, r.nots, r.target, sp, p1, p2, p3, p4, p5, q);
  }

  /** `expression sp kw` at the head of a printed relation, `kw` being `is` or `within`. */
  lemma KeywordHead(rule: string, number: nat, pos: nat, e: Expr, sp: string, kw: string,
                    p1: nat, p2: nat, p3: nat)
    requires kw == "is" || kw == "within"
    requires Gap(sp) && At(rule, pos, ShowExpr(e, sp)) && p1 == pos + |ShowExpr(e, sp)|
    requires At(rule, p1, sp) && p2 == p1 + |sp| && At(rule, p2, kw) && p3 == p2 + |kw|
    ensures Expression(rule, number, pos) == Step(Some(EvalExpr(e, number)), p1) && p1 <= |rule|
    ensures Match(rule, p1, Space).value.Some? && Match(rule, p1, Space).pos == p2
    ensures p2 < |rule| && rule[p2] == kw[0]
    ensures Literal(rule, p2, kw) == Step(Some(kw), p3) && p3 <= |rule|
  {
    AtChar(rule, p2, kw, 0);
    KeywordAt(rule, p2, kw, p3);
    AtConcat(rule, pos, ShowExpr(e, sp), sp);
    ExpressionParse(rule, number, pos, e, sp, p1);
    SpaceRun(rule, p1, sp, p2);
  }

  /** The `not`s, the separator and the numeral that end a printed `is` relation. */
  lemma IsTail(rule: string, p3: nat, k: nat, d: nat, sp: string, p4: nat, p5: nat, q: nat)
    requires Gap(sp) && At(rule, p3, NotsText(k, sp)) && p4 == p3 + |NotsText(k, sp)|
    requires At(rule, p4, sp) && p5 == p4 + |sp| && At(rule, p5, ShowNat(d)) && q == p5 + |ShowNat(d)|
    requires Boundary(rule, q)
    ensures NOrMore(rule, p3, 0).value.Some? && NOrMore(rule, p3, 0).pos == p4 && p4 <= |rule|
    ensures LooseEqualsNot(NOrMore(rule, p3, 0).value.value) <==> k == 1
    ensures Match(rule, p4, Space).value.Some? && Match(rule, p4, Space).pos == p5
    ensures Match(rule, p5, Digit) == Step(Some(ShowNat(d)), q) && DecimalValue(ShowNat(d)) == d
  {
    AtChar(rule, p5, ShowNat(d), 0);
    NOrMoreParse(rule, p3, k, sp, p4);
    SpaceRun(rule, p4, sp, p5);
    Numeral(rule, p5, d, q);
  }

  lemma IsWords(rule: string, number: nat, pos: nat, e: Expr, k: nat, d: nat, sp: string,
                p1: nat, p2: nat, p3: nat, p4: nat, p5: nat, q: nat)
    requires Gap(sp) && At(rule, pos, ShowExpr(e, sp)) && p1 == pos + |ShowExpr(e, sp)|
    requires At(rule, p1, sp) && p2 == p1 + |sp| && At(rule, p2, "is") && p3 == p2 + 2
    requires At(rule, p3, NotsText(k, sp)) && p4 == p3 + |NotsText(k, sp)|
    requires At(rule, p4, sp) && p5 == p4 + |sp| && At(rule, p5, ShowNat(d)) && q == p5 + |ShowNat(d)|
    requires Boundary(rule, q)
    ensures Is(rule, number, pos) == Step(EvalRel(IsRel(e, k, d), number), q)
  {
    KeywordHead(rule, number, pos, e, sp, "is", p1, p2, p3);
    IsTail(rule, p3, k, d, sp, p4, p5, q);
    IsSteps(rule, number, pos, EvalExpr(e, number), NOrMore(rule, p3, 0).value.value, ShowNat(d), p1, p2, p3, p4, p5, q);
  }

  /**
   * After the expression of a printed `in` relation come a separator and
   * either the `i` of `in` or the `n` of the first `not`.
   */
  lemma InHead(rule: string, p1: nat, k: nat, sp: string, p2: nat, p3: nat)
    requires Gap(sp) && At(rule, p1, NotsText(k, sp)) && p2 == p1 + |NotsText(k, sp)|
    requires At(rule, p2, sp) && p3 == p2 + |sp| && At(rule, p3, "in")
    ensures At(rule, p1, sp) && p1 + |sp| < |rule|
    ensures rule[p1 + |sp|] == if k == 0 then 'i' else 'n'
  {
    if k == 0 {
      AtChar(rule, p3, "in", 0);
    } else {
      var T' := NotsText(k - 1, sp);
      AtSplit(rule, p1, sp + "not", T', p1 + |sp| + 3);
      AtSplit(rule, p1, sp, "not", p1 + |sp|);
      AtChar(rule, p1 + |sp|, "not", 0);
    }
  }

  lemma InSteps(rule: string, number: nat, pos: nat, x: Num, nots: seq<string>, list: seq<int>,
                p1: nat, p2: nat, p3: nat, p4: nat, p5: nat, p6: nat)
    requires pos <= |rule|
    requires Expression(rule, number, pos) == Step(Some(x), p1) && p1 <= |rule|
    requires NOrMore(rule, p1, 0) == Step(Some(nots), p2) && p2 <= |rule|
    requires Match(rule, p2, Space).value.Some? && Match(rule, p2, Space).pos == p3
    requires Literal(rule, p3, "in") == Step(Some("in"), p4) && p4 <= |rule|
    requires Match(rule, p4, Space).value.Some? && Match(rule, p4, Space).pos == p5
    requires Range(rule, p5) == Step(Some(list), p6)
    ensures In(rule, number, pos) ==
      Step(Some(if Member(x, list) then !LooseEqualsNot(nots) else LooseEqualsNot(nots)), p6)
  {
  }

  /** The printed `in` relation, word by word. */
  lemma InLayout(rule: string, pos: nat, r: Rel, sp: string, p1: nat, p2: nat, p3: nat, p4: nat, p5: nat)
    requires r.InRel? && At(rule, pos, ShowRel(r, sp))
    requires p1 == pos + |ShowExpr(r.e, sp)| && p2 == p1 + |NotsText(r.nots, sp)|
    requires p3 == p2 + |sp| && p4 == p3 + 2 && p5 == p4 + |sp|
    ensures At(rule, pos, ShowExpr(r.e, sp)) && At(rule, p1, NotsText(r.nots, sp)) && At(rule, p2, sp)
    ensures At(rule, p3, "in") && At(rule, p4, sp) && At(rule, p5, ShowRange(r.lo, r.hi))
    ensures p5 + |ShowRange(r.lo, r.hi)| == pos + |ShowRel(r, sp)|
  {
    var E, T, R := ShowExpr(r.e, sp), NotsText(r.nots, sp), ShowRange(r.lo, r.hi);
    AtSplit(rule, pos, E + T + sp + "in" + sp, R, p5);
    AtSplit(rule, pos, E + T + sp + "in", sp, p4);
    AtSplit(rule, pos, E + T + sp, "in", p3);
    AtSplit(rule, pos, E + T, sp, p2);
    AtSplit(rule, pos, E, T, p1);
  }

  /** The expression of a printed `in` relation: a separator and `in` or `not` follow it. */
  lemma InExpression(rule: string, number: nat, pos: nat, e: Expr, k: nat, sp: string, p1: nat, p2: nat, p3: nat)
    requires Gap(sp) && At(rule, pos, ShowExpr(e, sp)) && p1 == pos + |ShowExpr(e, sp)|
    requires At(rule, p1, NotsText(k, sp)) && p2 == p1 + |NotsText(k, sp)|
    requires At(rule, p2, sp) && p3 == p2 + |sp| && At(rule, p3, "in")
    ensures Expression(rule, number, pos) == Step(Some(EvalExpr(e, number)), p1) && p1 <= |rule|
  {
    InHead(rule, p1, k, sp, p2, p3);
    AtConcat(rule, pos, ShowExpr(e, sp), sp);
    ExpressionParse(rule, number, pos, e, sp, p1);
  }

  /** The `not`s, the separator and the keyword `in`. */
  lemma InMiddle(rule: string, p1: nat, k: nat, sp: string, p2: nat, p3: nat, p4: nat)
    requires Gap(sp) && At(rule, p1, NotsText(k, sp)) && p2 == p1 + |NotsText(k, sp)|
    requires At(rule, p2, sp) && p3 == p2 + |sp| && At(rule, p3, "in") && p4 == p3 + 2
    ensures NOrMore(rule, p1, 0).value.Some? && NOrMore(rule, p1, 0).pos == p2 && p2 <= |rule|
    ensures LooseEqualsNot(NOrMore(rule, p1, 0).value.value) <==> k == 1
    ensures Match(rule, p2, Space).value.Some? && Match(rule, p2, Space).pos == p3
    ensures Literal(rule, p3, "in") == Step(Some("in"), p4) && p4 <= |rule|
  {
    AtChar(rule, p3, "in", 0);
    KeywordAt(rule, p3, "in", p4);
    NOrMoreParse(rule, p1, k, sp, p2);
    SpaceRun(rule, p2, sp, p3);
  }

  /** A separator and a printed range, up to a boundary. */
  lemma SpacedRange(rule: string, p4: nat, lo: nat, hi: nat, sp: string, p5: nat, q: nat)
    requires Gap(sp) && At(rule, p4, sp) && p5 == p4 + |sp|
    requires At(rule, p5, ShowRange(lo, hi)) && q == p5 + |ShowRange(lo, hi)| && Boundary(rule, q)
    ensures Match(rule, p4, Space).value.Some? && Match(rule, p4, Space).pos == p5
    ensures Range(rule, p5) == Step(Some(Interval(lo, hi)), q)
  {
    AtChar(rule, p5, ShowRange(lo, hi), 0);
    SpaceRun(rule, p4, sp, p5);
    RangeParse(rule, p5, lo, hi, q);
  }

  lemma InWords(rule: string, number: nat, pos: nat, e: Expr, k: nat, lo: nat, hi: nat, sp: string,
                p1: nat, p2: nat, p3: nat, p4: nat, p5: nat, q: nat)
    requires Gap(sp) && At(rule, pos, ShowExpr(e, sp)) && p1 == pos + |ShowExpr(e, sp)|
    requires At(rule, p1, NotsText(k, sp)) && p2 == p1 + |NotsText(k, sp)|
    requires At(rule, p2, sp) && p3 == p2 + |sp| && At(rule, p3, "in") && p4 == p3 + 2
    requires At(rule, p4, sp) && p5 == p4 + |sp|
    requires At(rule, p5, ShowRange(lo, hi)) && q == p5 + |ShowRange(lo, hi)| && Boundary(rule, q)
    ensures In(rule, number, pos) == Step(EvalRel(InRel(e, k, lo, hi), number), q)
  {
    InExpression(rule, number, pos, e, k, sp, p1, p2, p3);
    InMiddle(rule, p1, k, sp, p2, p3, p4);
    SpacedRange(rule, p4, lo, hi, sp, p5, q);
    InSteps(rule, number, pos, EvalExpr(e, number), NOrMore(rule, p1, 0).value.value, Interval(lo, hi),
            p1, p2, p3, p4, p5, q);
    MemberInterval(EvalExpr(e, number), lo, hi);
  }

  lemma InParse(rule: string, number: nat, pos: nat, r: Rel, sp: string, q: nat)
    requires r.InRel? && Gap(sp) && At(rule, pos, ShowRel(r, sp))
    requires q == pos + |ShowRel(r, sp)| && Boundary(rule, q)
    ensures In(rule, number, pos) == Step(EvalRel(r, number), q)
  {
    var p1 := pos + |ShowExpr(r.e, sp)|;
    var p2 := p1 + |NotsText(r.nots, sp)|;
    var p3 := p2 + |sp|;
    var p4 := p3 + 2;
    var p5 := p4 + |sp|;
    InLayout(rule, pos, r, sp, p1, p2, p3, p4, p5);
    InWords(rule, number, pos, r.e, r.nots, r.lo, r.hi, sp, p1, p2, p3, p4, p5, q);
  }

  lemma WithinSteps(rule: string, number: nat, pos: nat, x: Num, list: seq<int>,
                    p1: nat, p2: nat, p3: nat, p4: nat, p5: nat)
    requires pos <= |rule|
    requires Expression(rule, number, pos) == Step(Some(x), p1) && p1 <= |rule|
    requires Match(rule, p1, Space).value.Some? && Match(rule, p1, Space).pos == p2
    requires Literal(rule, p2, "within") == Step(Some("within"), p3) && p3 <= |rule|
    requires Match(rule, p3, Space).value.Some? && Match(rule, p3, Space).pos == p4
    requires Range(rule, p4) == Step(Some(list), p5)
    ensures Within(rule, number, pos) == Step(if Member(x, list) then Some(true) else None, p5)
  {
  }

  /** The printed `within` relation, word by word. */
  lemma WithinLayout(rule: string, pos: nat, r: Rel, sp: string, p1: nat, p2: nat, p3: nat, p4: nat)
    requires r.WithinRel? && At(rule, pos, ShowRel(r, sp))
    requires p1 == pos + |ShowExpr(r.e, sp)| && p2 == p1 + |sp| && p3 == p2 + 6 && p4 == p3 + |sp|
    ensures At(rule, pos, ShowExpr(r.e, sp)) && At(rule, p1, sp) && At(rule, p2, "within")
    ensures At(rule, p3, sp) && At(rule, p4, ShowRange(r.lo, r.hi))
    ensures p4 + |ShowRange(r.lo, r.hi)| == pos + |ShowRel(r, sp)|
  {
    var E, R := ShowExpr(r.e, sp), ShowRange(r.lo, r.hi);
    AtSplit(rule, pos, E + sp + "within" + sp, R, p4);
    AtSplit(rule, pos, E + sp + "within", sp, p3);
    AtSplit(rule, pos, E + sp, "within", p2);
    AtSplit(rule, pos, E, sp, p1);
  }

  lemma WithinWords(rule: string, number: nat, pos: nat, e: Expr, lo: nat, hi: nat, sp: string,
                    p1: nat, p2: nat, p3: nat, p4: nat, q: nat)
    requires Gap(sp) && At(rule, pos, ShowExpr(e, sp)) && p1 == pos + |ShowExpr(e, sp)|
    requires At(rule, p1, sp) && p2 == p1 + |sp| && At(rule, p2, "within") && p3 == p2 + 6
    requires At(rule, p3, sp) && p4 == p3 + |sp|
    requires At(rule, p4, ShowRange(lo, hi)) && q == p4 + |ShowRange(lo, hi)| && Boundary(rule, q)
    ensures Within(rule, number, pos) == Step(EvalRel(WithinRel(e, lo, hi), number), q)
  {
    KeywordHead(rule, number, pos, e, sp, "within", p1, p2, p3);
    SpacedRange(rule, p3, lo, hi, sp, p4, q);
    WithinSteps(rule, number, pos, EvalExpr(e, number), Interval(lo, hi), p1, p2, p3, p4, q);
    MemberInterval(EvalExpr(e, number), lo, hi);
  }

  lemma WithinParse(rule: string, number: nat, pos: nat, r: Rel, sp: string, q: nat)
    requires r.WithinRel? && Gap(sp) && At(rule, pos, ShowRel(r, sp))
    requires q == pos + |ShowRel(r, sp)| && Boundary(rule, q)
    ensures Within(rule, number, pos) == Step(EvalRel(r, number), q)
  {
    var p1 := pos + |ShowExpr(r.e, sp)|;
    var p2 := p1 + |sp|;
    var p3 := p2 + 6;
    var p4 := p3 + |sp|;
    WithinLayout(rule, pos, r, sp, p1, p2, p3, p4);
    WithinWords(rule, number, pos, r.e, r.lo, r.hi, sp, p1, p2, p3, p4, q);
  }

  lemma IsFails(rule: string, number: nat, pos: nat, x: Num, p1: nat, p2: nat)
    requires pos <= |rule|
    requires Expression(rule, number, pos) == Step(Some(x), p1) && p1 <= |rule|
    requires Match(rule, p1, Space).value.Some? && Match(rule, p1, Space).pos == p2
    requires Literal(rule, p2, "is").value.None?
    ensures Is(rule, number, pos) == Step(None, pos)
  {
  }

  lemma InFails(rule: string, number: nat, pos: nat, x: Num, nots: seq<string>, p1: nat, p2: nat, p3: nat)
    requires pos <= |rule|
    requires Expression(rule, number, pos) == Step(Some(x), p1) && p1 <= |rule|
    requires NOrMore(rule, p1, 0) == Step(Some(nots), p2) && p2 <= |rule|
    requires Match(rule, p2, Space).value.Some? && Match(rule, p2, Space).pos == p3
    requires Literal(rule, p3, "in").value.None?
    ensures In(rule, number, pos) == Step(None, pos)
  {
  }

  /** After the expression of a printed `in` relation the keyword is not `is`. */
  lemma NotIsAfter(rule: string, p1: nat, k: nat, sp: string, p2: nat, p3: nat, q: nat)
    requires Gap(sp) && At(rule, p1, NotsText(k, sp)) && p2 == p1 + |NotsText(k, sp)|
    requires At(rule, p2, sp) && p3 == p2 + |sp| && At(rule, p3, "in") && q == p1 + |sp|
    ensures Match(rule, p1, Space).value.Some? && Match(rule, p1, Space).pos == q
    ensures Literal(rule, q, "is").value.None?
  {
    InHead(rule, p1, k, sp, p2, p3);
    SpaceRun(rule, p1, sp, q);
    if k == 0 {
      AtChar(rule, p3, "in", 1);
      LiteralMismatch(rule, q, "is", 1);
    } else {
      LiteralMismatch(rule, q, "is", 0);
    }
  }

  /** `is` fails, cursor restored, on the text of an `in` relation. */
  lemma IsRejectsIn(rule: string, number: nat, pos: nat, r: Rel, sp: string)
    requires r.InRel? && Gap(sp) && At(rule, pos, ShowRel(r, sp))
    ensures Is(rule, number, pos) == Step(None, pos)
  {
    var p1 := pos + |ShowExpr(r.e, sp)|;
    var p2 := p1 + |NotsText(r.nots, sp)|;
    var p3 := p2 + |sp|;
    var p4 := p3 + 2;
    var p5 := p4 + |sp|;
    InLayout(rule, pos, r, sp, p1, p2, p3, p4, p5);
    IsRejectsInWords(rule, number, pos, r.e, r.nots, sp, p1, p2, p3, p1 + |sp|);
  }

  lemma IsRejectsInWords(rule: string, number: nat, pos: nat, e: Expr, k: nat, sp: string,
                         p1: nat, p2: nat, p3: nat, q: nat)
    requires Gap(sp) && At(rule, pos, ShowExpr(e, sp)) && p1 == pos + |ShowExpr(e, sp)|
    requires At(rule, p1, NotsText(k, sp)) && p2 == p1 + |NotsText(k, sp)|
    requires At(rule, p2, sp) && p3 == p2 + |sp| && At(rule, p3, "in") && q == p1 + |sp|
    ensures Is(rule, number, pos) == Step(None, pos)
  {
    InExpression(rule, number, pos, e, k, sp, p1, p2, p3);
    NotIsAfter(rule, p1, k, sp, p2, p3, q);
    IsFails(rule, number, pos, EvalExpr(e, number), p1, q);
  }

  /** `is` and `_in` fail, cursor restored, on the text of a `within` relation. */
  lemma RejectsWithin(rule: string, number: nat, pos: nat, r: Rel, sp: string)
    requires r.WithinRel? && Gap(sp) && At(rule, pos, ShowRel(r, sp))
    ensures Is(rule, number, pos) == Step(None, pos)
    ensures In(rule, number, pos) == Step(None, pos)
  {
    var p1 := pos + |ShowExpr(r.e, sp)|;
    var p2 := p1 + |sp|;
    var p3 := p2 + 6;
    var p4 := p3 + |sp|;
    WithinLayout(rule, pos, r, sp, p1, p2, p3, p4);
    KeywordHead(rule, number, pos, r.e, sp, "within", p1, p2, p3);
    WithinRejectsWords(rule, number, pos, EvalExpr(r.e, number), sp, p1, p2);
  }

  /** After `expression sp` comes the `w` of `within`, so neither `is` nor `_in` continues. */
  lemma WithinRejectsWords(rule: string, number: nat, pos: nat, x: Num, sp: string, p1: nat, p2: nat)
    requires pos <= |rule| && Gap(sp)
    requires Expression(rule, number, pos) == Step(Some(x), p1) && p1 <= |rule|
    requires At(rule, p1, sp) && p2 == p1 + |sp|
    requires Match(rule, p1, Space).value.Some? && Match(rule, p1, Space).pos == p2
    requires p2 < |rule| && rule[p2] == 'w'
    ensures Is(rule, number, pos) == Step(None, pos)
    ensures In(rule, number, pos) == Step(None, pos)
  {
    WithinNotIsIn(rule, p2);
    IsFails(rule, number, pos, x, p1, p2);
    WithinRejectsIn(rule, number, pos, x, sp, p1, p2);
  }

  /** At the `w` of `within`, neither `is` nor `in` matches. */
  lemma WithinNotIsIn(rule: string, p: nat)
    requires p < |rule| && rule[p] == 'w'
    ensures Literal(rule, p, "is") == Step(None, p) && Literal(rule, p, "in") == Step(None, p)
  {
    LiteralMismatch(rule, p, "is", 0);
    LiteralMismatch(rule, p, "in", 0);
  }

  /** Before the separator and `within`, `nOrMore(0, not)` collects nothing. */
  lemma NoNotBeforeWithin(rule: string, p1: nat, sp: string, p2: nat)
    requires Gap(sp) && At(rule, p1, sp) && p2 == p1 + |sp|
    requires p2 < |rule| && rule[p2] == 'w'
    ensures NOrMore(rule, p1, 0) == Step(Some([]), p1)
  {
    assert NotsText(0, sp) == "";
    NOrMoreParse(rule, p1, 0, sp, p1);
    NotsParse(rule, p1, 0, sp, p1);
  }

  lemma WithinRejectsIn(rule: string, number: nat, pos: nat, x: Num, sp: string, p1: nat, p2: nat)
    requires pos <= |rule| && Gap(sp)
    requires Expression(rule, number, pos) == Step(Some(x), p1) && p1 <= |rule|
    requires At(rule, p1, sp) && p2 == p1 + |sp|
    requires Match(rule, p1, Space).value.Some? && Match(rule, p1, Space).pos == p2
    requires p2 < |rule| && rule[p2] == 'w'
    ensures In(rule, number, pos) == Step(None, pos)
  {
    WithinNotIsIn(rule, p2);
    NoNotBeforeWithin(rule, p1, sp, p2);
    InFails(rule, number, pos, x, [], p1, p1, p2);
  }

  /**
   * `relation` on a printed relation: its value is the evaluator's, and the
   * cursor ends after the relation even when `within` gives no value.
   */
  lemma RelationParse(rule: string, number: nat, pos: nat, r: Rel, sp: string, q: nat)
    requires Gap(sp) && At(rule, pos, ShowRel(r, sp))
    requires q == pos + |ShowRel(r, sp)| && Boundary(rule, q)
    ensures Relation(rule, number, pos) == Step(EvalRel(r, number), q)
  {
    match r
    case IsRel(_, _, _) =>
      IsParse(rule, number, pos, r, sp, q);
    case InRel(_, _, _, _) =>
      IsRejectsIn(rule, number, pos, r, sp);
      InParse(rule, number, pos, r, sp, q);
    case WithinRel(_, _, _) =>
      RejectsWithin(rule, number, pos, r, sp);
      WithinParse(rule, number, pos, r, sp, q);
  }

  lemma ShowCondHead(c: Cond, sp: string)
    ensures |ShowCond(c, sp)| > 0 && ShowCond(c, sp)[0] == 'n'
  {
    var r := match c case Single(r) => r case AndCond(r, _) => r case OrCond(r, _) => r;
    assert ShowExpr(r.e, sp)[0] == 'n';
    assert ShowRel(r, sp)[0] == 'n';
  }

  /** A printed connective `r sp kw sp rest`, word by word. */
  lemma ConnectiveLayout(rule: string, pos: nat, r: Rel, kw: string, rest: Cond, sp: string,
                         p1: nat, p2: nat, p3: nat, p4: nat)
    requires At(rule, pos, ShowRel(r, sp) + sp + kw + sp + ShowCond(rest, sp))
    requires p1 == pos + |ShowRel(r, sp)| && p2 == p1 + |sp| && p3 == p2 + |kw| && p4 == p3 + |sp|
    ensures At(rule, pos, ShowRel(r, sp)) && At(rule, p1, sp) && At(rule, p2, kw)
    ensures At(rule, p3, sp) && At(rule, p4, ShowCond(rest, sp))
  {
    var L, C := ShowRel(r, sp), ShowCond(rest, sp);
    AtSplit(rule, pos, L + sp + kw + sp, C, p4);
    AtSplit(rule, pos, L + sp + kw, sp, p3);
    AtSplit(rule, pos, L + sp, kw, p2);
    AtSplit(rule, pos, L, sp, p1);
  }

  /** The relation, the separator and the keyword of a printed connective. */
  lemma ConnectiveHead(rule: string, number: nat, pos: nat, r: Rel, kw: string, other: string, sp: string,
                       p1: nat, p2: nat, p3: nat)
    requires (kw == "and" && other == "or") || (kw == "or" && other == "and")
    requires Gap(sp) && At(rule, pos, ShowRel(r, sp)) && p1 == pos + |ShowRel(r, sp)|
    requires At(rule, p1, sp) && p2 == p1 + |sp| && At(rule, p2, kw) && p3 == p2 + |kw|
    ensures Relation(rule, number, pos) == Step(EvalRel(r, number), p1) && p1 <= |rule|
    ensures Match(rule, p1, Space).value.Some? && Match(rule, p1, Space).pos == p2
    ensures p2 < |rule| && rule[p2] == kw[0]
    ensures Literal(rule, p2, kw) == Step(Some(kw), p3) && p3 <= |rule|
    ensures Literal(rule, p2, other).value.None?
  {
    ConnectiveKeyword(rule, p2, kw, other, p3);
    AtChar(rule, p1, sp, 0);
    RelationParse(rule, number, pos, r, sp, p1);
    SpaceRun(rule, p1, sp, p2);
  }

  /** At a printed `and` the keyword `or` does not match, and the other way round. */
  lemma ConnectiveKeyword(rule: string, p2: nat, kw: string, other: string, p3: nat)
    requires (kw == "and" && other == "or") || (kw == "or" && other == "and")
    requires At(rule, p2, kw) && p3 == p2 + |kw|
    ensures p2 < |rule| && rule[p2] == kw[0]
    ensures Literal(rule, p2, kw) == Step(Some(kw), p3) && p3 <= |rule|
    ensures Literal(rule, p2, other).value.None?
  {
    AtChar(rule, p2, kw, 0);
    LiteralMismatch(rule, p2, other, 0);
    KeywordAt(rule, p2, kw, p3);
  }

  lemma AndSteps(rule: string, number: nat, pos: nat, r: Rel, rest: Cond, p1: nat, p2: nat, p3: nat, p4: nat)
    requires pos <= |rule|
    requires Relation(rule, number, pos) == Step(EvalRel(r, number), p1) && p1 <= |rule|
    requires Match(rule, p1, Space).value.Some? && Match(rule, p1, Space).pos == p2
    requires Literal(rule, p2, "and") == Step(Some("and"), p3) && p3 <= |rule|
    requires Literal(rule, p2, "or").value.None?
    requires Match(rule, p3, Space).value.Some? && Match(rule, p3, Space).pos == p4
    requires Condition(rule, number, p4).value == EvalCond(rest, number)
    ensures Condition(rule, number, pos).value == EvalCond(AndCond(r, rest), number)
  {
  }

  lemma OrSteps(rule: string, number: nat, pos: nat, r: Rel, rest: Cond, p1: nat, p2: nat, p3: nat, p4: nat)
    requires pos <= |rule|
    requires Relation(rule, number, pos) == Step(EvalRel(r, number), p1) && p1 <= |rule|
    requires Match(rule, p1, Space).value.Some? && Match(rule, p1, Space).pos == p2
    requires Literal(rule, p2, "or") == Step(Some("or"), p3) && p3 <= |rule|
    requires Literal(rule, p2, "and").value.None?
    requires Match(rule, p3, Space).value.Some? && Match(rule, p3, Space).pos == p4
    requires Condition(rule, number, p4).value == EvalCond(rest, number)
    ensures Condition(rule, number, pos).value == EvalCond(OrCond(r, rest), number)
  {
  }

  /**
   * What may follow a printed condition: the end of the rule, or a
   * separator and then a word that does not start like `and` or `or`.
   */
  predicate Tail(rule: string, q: nat, sp: string)
  {
    q == |rule| ||
    (At(rule, q, sp) && q + |sp| < |rule| && !IsSpace(rule[q + |sp|]) &&
     rule[q + |sp|] != 'a' && rule[q + |sp|] != 'o')
  }

  /** After a tail neither `and` nor `or` can continue the condition. */
  lemma TailStops(rule: string, q: nat, sp: string)
    requires Gap(sp) && Tail(rule, q, sp) && q <= |rule|
    ensures Boundary(rule, q)
    ensures var m := Match(rule, q, Space);
      m.value.None? || (Literal(rule, m.pos, "and").value.None? && Literal(rule, m.pos, "or").value.None?)
  {
    if q < |rule| {
      var q' := q + |sp|;
      AtChar(rule, q, sp, 0);
      SpaceRun(rule, q, sp, q');
      LiteralMismatch(rule, q', "and", 0);
      LiteralMismatch(rule, q', "or", 0);
    } else {
      assert Match(rule, q, Space).value.None?;
    }
  }

  lemma SingleSteps(rule: string, number: nat, pos: nat, r: Rel, q: nat)
    requires pos <= |rule|
    requires Relation(rule, number, pos) == Step(EvalRel(r, number), q) && q <= |rule|
    requires var m := Match(rule, q, Space);
      m.value.None? || (Literal(rule, m.pos, "and").value.None? && Literal(rule, m.pos, "or").value.None?)
    ensures Condition(rule, number, pos).value == EvalCond(Single(r), number)
  {
  }

  /** A single printed relation followed by a tail: `and` and `or` fail and `relation` is taken. */
  lemma SingleParse(rule: string, number: nat, pos: nat, r: Rel, sp: string, q: nat)
    requires Gap(sp) && At(rule, pos, ShowRel(r, sp)) && q == pos + |ShowRel(r, sp)| && Tail(rule, q, sp)
    ensures Condition(rule, number, pos).value == EvalCond(Single(r), number)
  {
    TailStops(rule, q, sp);
    RelationParse(rule, number, pos, r, sp, q);
    SingleSteps(rule, number, pos, r, q);
  }

  /** `condition` on the printed text of a condition followed by a tail. */
  lemma {:induction false} ConditionParse(rule: string, number: nat, pos: nat, c: Cond, sp: string, q: nat)
    requires Gap(sp) && At(rule, pos, ShowCond(c, sp)) && q == pos + |ShowCond(c, sp)| && Tail(rule, q, sp)
    ensures Condition(rule, number, pos).value == EvalCond(c, number)
    decreases c, 2
  {
    match c
    case Single(r) =>
      SingleParse(rule, number, pos, r, sp, q);
    case AndCond(r, rest) =>
      AndParse(rule, number, pos, r, rest, sp, q);
    case OrCond(r, rest) =>
      OrParse(rule, number, pos, r, rest, sp, q);
  }

  /**
   * On a printed conjunction `condition` gives the evaluator's value: the
   * conjunction, or `r` alone when `rest` is null and `and` fails.
   */
  lemma {:induction false} AndParse(rule: string, number: nat, pos: nat, r: Rel, rest: Cond, sp: string, q: nat)
    requires Gap(sp) && At(rule, pos, ShowCond(AndCond(r, rest), sp))
    requires q == pos + |ShowCond(AndCond(r, rest), sp)| && Tail(rule, q, sp)
    ensures Condition(rule, number, pos).value == EvalCond(AndCond(r, rest), number)
    decreases AndCond(r, rest), 1
  {
    var p1 := pos + |ShowRel(r, sp)|;
    var p2 := p1 + |sp|;
    var p4 := p2 + 3 + |sp|;
    assert ShowCond(AndCond(r, rest), sp) == ShowRel(r, sp) + sp + "and" + sp + ShowCond(rest, sp);
    ConnectiveParse(rule, number, pos, r, "and", "or", rest, sp, p1, p2, p2 + 3, p4, q);
    AndSteps(rule, number, pos, r, rest, p1, p2, p2 + 3, p4);
  }

  /**
   * On a printed disjunction `condition` gives the evaluator's value: the
   * disjunction, or `r` alone when `rest` is null and `or` fails.
   */
  lemma {:induction false} OrParse(rule: string, number: nat, pos: nat, r: Rel, rest: Cond, sp: string, q: nat)
    requires Gap(sp) && At(rule, pos, ShowCond(OrCond(r, rest), sp))
    requires q == pos + |ShowCond(OrCond(r, rest), sp)| && Tail(rule, q, sp)
    ensures Condition(rule, number, pos).value == EvalCond(OrCond(r, rest), number)
    decreases OrCond(r, rest), 1
  {
    var p1 := pos + |ShowRel(r, sp)|;
    var p2 := p1 + |sp|;
    var p4 := p2 + 2 + |sp|;
    assert ShowCond(OrCond(r, rest), sp) == ShowRel(r, sp) + sp + "or" + sp + ShowCond(rest, sp);
    ConnectiveParse(rule, number, pos, r, "or", "and", rest, sp, p1, p2, p2 + 2, p4, q);
    OrSteps(rule, number, pos, r, rest, p1, p2, p2 + 2, p4);
  }

  /**
   * `r sp kw sp rest`: the relation, the separator, the keyword, the
   * separator, and then the inner condition up to the tail.
   */
  lemma {:induction false} ConnectiveParse(rule: string, number: nat, pos: nat, r: Rel, kw: string, other: string,
                                           rest: Cond, sp: string, p1: nat, p2: nat, p3: nat, p4: nat, q: nat)
    requires (kw == "and" && other == "or") || (kw == "or" && other == "and")
    requires Gap(sp) && At(rule, pos, ShowRel(r, sp) + sp + kw + sp + ShowCond(rest, sp))
    requires p1 == pos + |ShowRel(r, sp)| && p2 == p1 + |sp| && p3 == p2 + |kw| && p4 == p3 + |sp|
    requires q == p4 + |ShowCond(rest, sp)| && Tail(rule, q, sp)
    ensures Relation(rule, number, pos) == Step(EvalRel(r, number), p1) && p1 <= |rule|
    ensures Match(rule, p1, Space).value.Some? && Match(rule, p1, Space).pos == p2
    ensures Literal(rule, p2, kw) == Step(Some(kw), p3) && p3 <= |rule|
    ensures Literal(rule, p2, other).value.None?
    ensures Match(rule, p3, Space).value.Some? && Match(rule, p3, Space).pos == p4
    ensures Condition(rule, number, p4).value == EvalCond(rest, number)
    decreases rest, 3
  {
    ConnectiveLayout(rule, pos, r, kw, rest, sp, p1, p2, p3, p4);
    ConnectiveHead(rule, number, pos, r, kw, other, sp, p1, p2, p3);
    ShowCondHead(rest, sp);
    AtChar(rule, p4, ShowCond(rest, sp), 0);
    SpaceRun(rule, p3, sp, p4);
    ConditionParse(rule, number, p4, rest, sp, q);
  }

  // ---------------------------------------------------------------------
  // Theorems about whole rules

  /**
   * The fused parser-evaluator agrees with the evaluator on every printed
   * rule, for every number and every separator.
   */
  lemma EvaluateShow(c: Cond, number: nat, sp: string)
    requires Gap(sp)
    ensures Evaluate(ShowCond(c, sp), number) == EvalCond(c, number)
  {
    var rule := ShowCond(c, sp);
    ConditionParse(rule, number, 0, c, sp, |rule|);
  }

  /**
   * Text left over after a condition does not change the result: the final
   * `if` on unconsumed input has its `throw` commented out.
   */
  lemma TrailingTextIgnored(c: Cond, number: nat, sp: string, w: string)
    requires Gap(sp) && |w| > 0 && !IsSpace(w[0]) && w[0] != 'a' && w[0] != 'o'
    ensures Evaluate(ShowCond(c, sp) + sp + w, number) == EvalCond(c, number)
  {
    var C := ShowCond(c, sp);
    var rule := C + sp + w;
    AtSplit(rule, 0, C + sp, w, |C| + |sp|);
    AtSplit(rule, 0, C, sp, |C|);
    AtChar(rule, |C| + |sp|, w, 0);
    ConditionParse(rule, number, 0, c, sp, |C|);
  }

  /** No precedence: "A and B or C" evaluates to A && (B || C). */
  lemma AndThenOr(a: Rel, b: Rel, c: Rel, number: nat, sp: string)
    requires Gap(sp)
    requires EvalRel(a, number).Some? && EvalRel(b, number).Some? && EvalRel(c, number).Some?
    ensures Evaluate(ShowRel(a, sp) + sp + "and" + sp + (ShowRel(b, sp) + sp + "or" + sp + ShowRel(c, sp)), number)
      == Some(EvalRel(a, number).value && (EvalRel(b, number).value || EvalRel(c, number).value))
  {
    var cond := AndCond(a, OrCond(b, Single(c)));
    assert EvalCond(OrCond(b, Single(c)), number) == Some(EvalRel(b, number).value || EvalRel(c, number).value);
    assert ShowCond(OrCond(b, Single(c)), sp) == ShowRel(b, sp) + sp + "or" + sp + ShowRel(c, sp);
    assert ShowCond(cond, sp) ==
      ShowRel(a, sp) + sp + "and" + sp + (ShowRel(b, sp) + sp + "or" + sp + ShowRel(c, sp));
    EvaluateShow(cond, number, sp);
  }

  /** No precedence: "A or B and C" evaluates to A || (B && C). */
  lemma OrThenAnd(a: Rel, b: Rel, c: Rel, number: nat, sp: string)
    requires Gap(sp)
    requires EvalRel(a, number).Some? && EvalRel(b, number).Some? && EvalRel(c, number).Some?
    ensures Evaluate(ShowRel(a, sp) + sp + "or" + sp + (ShowRel(b, sp) + sp + "and" + sp + ShowRel(c, sp)), number)
      == Some(EvalRel(a, number).value || (EvalRel(b, number).value && EvalRel(c, number).value))
  {
    var cond := OrCond(a, AndCond(b, Single(c)));
    assert EvalCond(AndCond(b, Single(c)), number) == Some(EvalRel(b, number).value && EvalRel(c, number).value);
    assert ShowCond(AndCond(b, Single(c)), sp) == ShowRel(b, sp) + sp + "and" + sp + ShowRel(c, sp);
    assert ShowCond(cond, sp) ==
      ShowRel(a, sp) + sp + "or" + sp + (ShowRel(b, sp) + sp + "and" + sp + ShowRel(c, sp));
    EvaluateShow(cond, number, sp);
  }

  // ---------------------------------------------------------------------
  // Rules that do not parse

  lemma WithinFails(rule: string, number: nat, pos: nat, x: Num, p1: nat, p2: nat)
    requires pos <= |rule|
    requires Expression(rule, number, pos) == Step(Some(x), p1) && p1 <= |rule|
    requires Match(rule, p1, Space).value.Some? && Match(rule, p1, Space).pos == p2
    requires Literal(rule, p2, "within").value.None?
    ensures Within(rule, number, pos) == Step(None, pos)
  {
  }

  /** When no relation parses at the cursor, `condition` yields null. */
  lemma NoRelationNoCondition(rule: string, number: nat, pos: nat)
    requires pos <= |rule| && Relation(rule, number, pos) == Step(None, pos)
    ensures Condition(rule, number, pos).value.None?
  {
  }

  /** A rule that does not start with `n` yields null rather than an error. */
  lemma NoLeadingN(rule: string, number: nat)
    requires !At(rule, 0, "n")
    ensures Evaluate(rule, number) == None
  {
    ExpressionSpec(rule, number, 0);
    NoRelationNoCondition(rule, number, 0);
  }

  /** A keyword that the rest of the text, `w`, does not start with does not match. */
  lemma PrefixMismatch(rule: string, q: nat, w: string, t: string)
    requires At(rule, q, w) && q + |w| == |rule| && !At(w, 0, t)
    ensures Literal(rule, q, t).value.None?
  {
    LiteralSpec(rule, q, t);
    KeywordPrefix(rule, q, w, t);
  }

  /** A keyword found where the text ends with `w` is a prefix of `w`. */
  lemma KeywordPrefix(rule: string, q: nat, w: string, t: string)
    requires At(rule, q, w) && q + |w| == |rule|
    ensures At(rule, q, t) ==> At(w, 0, t)
  {
    if At(rule, q, t) {
      assert w[0..|t|] == rule[q..q + |w|][0..|t|] == rule[q..q + |t|];
    }
  }

  /**
   * `n`, a separator and a word that starts with none of the operators
   * `mod`, `is`, `not`, `in`, `within`: every relation fails and the rule
   * yields null.
   */
  lemma UnknownOperator(number: nat, sp: string, w: string)
    requires Gap(sp) && |w| > 0 && !IsSpace(w[0])
    requires !At(w, 0, "mod") && !At(w, 0, "is") && !At(w, 0, "not")
    requires !At(w, 0, "in") && !At(w, 0, "within")
    ensures Evaluate("n" + sp + w, number) == None
  {
    var rule := "n" + sp + w;
    var q := 1 + |sp|;
    AtSplit(rule, 0, "n" + sp, w, q);
    AtSplit(rule, 0, "n", sp, 1);
    AtChar(rule, q, w, 0);
    PrefixMismatch(rule, q, w, "mod");
    PrefixMismatch(rule, q, w, "is");
    PrefixMismatch(rule, q, w, "not");
    PrefixMismatch(rule, q, w, "in");
    PrefixMismatch(rule, q, w, "within");
    UnknownOperatorSteps(rule, number, sp, q);
  }

  lemma UnknownOperatorSteps(rule: string, number: nat, sp: string, q: nat)
    requires Gap(sp) && At(rule, 0, "n") && At(rule, 1, sp) && q == 1 + |sp|
    requires q < |rule| && !IsSpace(rule[q])
    requires Literal(rule, q, "mod").value.None? && Literal(rule, q, "is").value.None?
    requires Literal(rule, q, "not").value.None? && Literal(rule, q, "in").value.None?
    requires Literal(rule, q, "within").value.None?
    ensures Evaluate(rule, number) == None
  {
    BareNParse(rule, number, 0, sp, q);
    SpaceRun(rule, 1, sp, q);
    IsFails(rule, number, 0, Int(number), 1, q);
    assert NOrMore(rule, 1, 0) == Step(Some([]), 1);
    InFails(rule, number, 0, Int(number), [], 1, 1, q);
    WithinFails(rule, number, 0, Int(number), 1, q);
    NoRelationNoCondition(rule, number, 0);
  }

  lemma DanglingSteps(rule: string, number: nat, pos: nat, r: Rel, kw: string, other: string,
                      p1: nat, p2: nat, p3: nat, p4: nat)
    requires (kw == "and" && other == "or") || (kw == "or" && other == "and")
    requires pos <= |rule|
    requires Relation(rule, number, pos) == Step(EvalRel(r, number), p1) && p1 <= |rule|
    requires Match(rule, p1, Space).value.Some? && Match(rule, p1, Space).pos == p2
    requires Literal(rule, p2, kw) == Step(Some(kw), p3) && p3 <= |rule|
    requires Literal(rule, p2, other).value.None?
    requires Match(rule, p3, Space).value.Some? && Match(rule, p3, Space).pos == p4
    requires Condition(rule, number, p4).value.None?
    ensures Condition(rule, number, pos).value == EvalRel(r, number)
  {
  }

  /**
   * A connective with no condition after it: `and` or `or` fails as a
   * whole, the cursor goes back, and the last alternative of `condition`,
   * the relation alone, gives the result.
   */
  lemma DanglingConnective(r: Rel, kw: string, other: string, number: nat, sp: string, w: string)
    requires (kw == "and" && other == "or") || (kw == "or" && other == "and")
    requires Gap(sp) && |w| > 0 && !IsSpace(w[0]) && w[0] != 'n'
    ensures Evaluate(ShowRel(r, sp) + sp + kw + sp + w, number) == EvalRel(r, number)
  {
    var R := ShowRel(r, sp);
    var rule := R + sp + kw + sp + w;
    var p1 := |R|;
    var p2 := p1 + |sp|;
    var p3 := p2 + |kw|;
    var p4 := p3 + |sp|;
    DanglingLayout(rule, R, kw, sp, w, p1, p2, p3, p4);
    ConnectiveHead(rule, number, 0, r, kw, other, sp, p1, p2, p3);
    NothingAfter(rule, number, p3, sp, w, p4);
    DanglingSteps(rule, number, 0, r, kw, other, p1, p2, p3, p4);
  }

  lemma DanglingLayout(rule: string, R: string, kw: string, sp: string, w: string,
                       p1: nat, p2: nat, p3: nat, p4: nat)
    requires rule == R + sp + kw + sp + w
    requires p1 == |R| && p2 == p1 + |sp| && p3 == p2 + |kw| && p4 == p3 + |sp|
    ensures At(rule, 0, R) && At(rule, p1, sp) && At(rule, p2, kw) && At(rule, p3, sp) && At(rule, p4, w)
  {
    AtSplit(rule, 0, R + sp + kw + sp, w, p4);
    AtSplit(rule, 0, R + sp + kw, sp, p3);
    AtSplit(rule, 0, R + sp, kw, p2);
    AtSplit(rule, 0, R, sp, p1);
  }

  /** A separator and a word that does not start with `n`: no condition follows. */
  lemma NothingAfter(rule: string, number: nat, p3: nat, sp: string, w: string, p4: nat)
    requires Gap(sp) && At(rule, p3, sp) && p4 == p3 + |sp| && At(rule, p4, w)
    requires |w| > 0 && !IsSpace(w[0]) && w[0] != 'n'
    ensures Match(rule, p3, Space).value.Some? && Match(rule, p3, Space).pos == p4
    ensures Condition(rule, number, p4).value.None?
  {
    AtChar(rule, p4, w, 0);
    SpaceRun(rule, p3, sp, p4);
    LiteralMismatch(rule, p4, "n", 0);
    ExpressionSpec(rule, number, p4);
    NoRelationNoCondition(rule, number, p4);
  }
}
