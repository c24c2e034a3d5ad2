/**
 * The leaf parsers of the plural-rule parser: keyword matchers
 * (makeStringParser), the two anchored regular-expression matchers
 * `/^\s+/` and `/^\d+/` (makeRegexParser), and `parseInt` on a digit run.
 *
 * Every parser is a function from the immutable rule text and the cursor to
 * a `Step`: the value it produced (`None` for JavaScript's `null`) and the
 * cursor afterwards.  The cursor is kept explicit so that a parser that fails
 * without restoring it can be described too.
 */
module Combinators {
  import opened Wrappers

  /** The outcome of one parsing attempt: its value and the cursor after it. */
  datatype Step<+T> = Step(value: Option<T>, pos: nat)

  /** The rule text `s` holds `t` starting at index `pos`. */
  predicate At(s: string, pos: nat, t: string)
  {
    pos + |t| <= |s| && s[pos..pos + |t|] == t
  }

  lemma AtConcat(s: string, pos: nat, a: string, b: string)
    ensures At(s, pos, a + b) <==> At(s, pos, a) && At(s, pos + |a|, b)
  {
    if pos + |a| + |b| <= |s| {
      var x, y := s[pos..pos + |a|], s[pos + |a|..pos + |a| + |b|];
      assert s[pos..pos + |a| + |b|] == x + y;
      if x + y == a + b {
        assert x == (x + y)[..|a|] == (a + b)[..|a|] == a;
        assert y == (x + y)[|a|..] == (a + b)[|a|..] == b;
      }
    }
  }

  function Min(a: nat, b: nat): nat
  {
    if a <= b then a else b
  }

  /**
   * makeStringParser(t): compares `rule.substr(pos, |t|)` with `t`;
   * on a match the cursor moves past `t` and `t` is the value, otherwise
   * the value is null and the cursor stays.
   */
  function Literal(s: string, pos: nat, t: string): (r: Step<string>)
    requires pos <= |s|
    ensures r.pos <= |s|
    ensures r == Step(None, pos) || r == Step(Some(t), pos + |t|)
  {
    var sub := s[pos..Min(pos + |t|, |s|)];
    if sub == t then
      Step(Some(t), pos + |t|)
    else
      Step(None, pos)
  }

  /**
   * A keyword matches exactly when the text holds it at the cursor:
   * `substr` clips at the end of the text, so a keyword that would run past
   * the end does not match.
   */
  lemma LiteralSpec(s: string, pos: nat, t: string)
    requires pos <= |s|
    ensures Literal(s, pos, t).value.Some? <==> At(s, pos, t)
  {
  }

  /** The two character classes the grammar uses: `\s` and `\d`. */
  datatype CharClass = Space | Digit

  /**
   * ECMAScript `\s`: the WhiteSpace and LineTerminator code points
   * (tab, line feed, vertical tab, form feed, carriage return, space,
   * no-break space, the Zs separators, line and paragraph separator, BOM).
   */
  predicate IsSpace(c: char)
    ensures IsSpace(c) <==> c as int in SpaceCodePoints
    ensures IsSpace(c) ==> !IsDigit(c) && !('a' <= c <= 'z')
  {
    var k := c as int;
    (0x09 <= k <= 0x0D) || k == 0x20 || k == 0xA0 || k == 0x1680 ||
    (0x2000 <= k <= 0x200A) || k == 0x2028 || k == 0x2029 || k == 0x202F ||
    k == 0x205F || k == 0x3000 || k == 0xFEFF
  }

  /** The WhiteSpace and LineTerminator code points of ECMAScript, one by one. */
  const SpaceCodePoints: set<int> :=
    {0x09, 0x0A, 0x0B, 0x0C, 0x0D, 0x20, 0xA0, 0x1680,
     0x2000, 0x2001, 0x2002, 0x2003, 0x2004, 0x2005, 0x2006, 0x2007, 0x2008, 0x2009, 0x200A,
     0x2028, 0x2029, 0x202F, 0x205F, 0x3000, 0xFEFF}

  /** ECMAScript `\d`: the ASCII digits only. */
  predicate IsDigit(c: char)
    ensures IsDigit(c) <==> c in "0123456789"
  {
    '0' <= c <= '9'
  }

  predicate InClass(c: char, cls: CharClass)
  {
    match cls
    case Space => IsSpace(c)
    case Digit => IsDigit(c)
  }

  /** The whole of `t` is made of `cls` characters. */
  predicate AllIn(t: string, cls: CharClass)
  {
    forall i :: 0 <= i < |t| ==> InClass(t[i], cls)
  }

  /** The end of the run of `cls` characters that starts at `pos`. */
  function SpanEnd(s: string, pos: nat, cls: CharClass): (e: nat)
    requires pos <= |s|
    ensures pos <= e <= |s|
    decreases |s| - pos
  {
    if pos < |s| && InClass(s[pos], cls) then SpanEnd(s, pos + 1, cls) else pos
  }

  /** The run found by SpanEnd is made of `cls` characters and cannot be extended. */
  lemma {:induction false} SpanEndSpec(s: string, pos: nat, cls: CharClass)
    requires pos <= |s|
    ensures AllIn(s[pos..SpanEnd(s, pos, cls)], cls)
    ensures SpanEnd(s, pos, cls) == |s| || !InClass(s[SpanEnd(s, pos, cls)], cls)
    decreases |s| - pos
  {
    if pos < |s| && InClass(s[pos], cls) {
      var e := SpanEnd(s, pos + 1, cls);
      SpanEndSpec(s, pos + 1, cls);
      assert s[pos..e] == [s[pos]] + s[pos + 1..e];
    }
  }

  /**
   * makeRegexParser(/^cls+/): the regular expression is anchored at the
   * cursor and greedy; a match is the value and the cursor moves past it,
   * no match gives null and leaves the cursor.
   */
  function Match(s: string, pos: nat, cls: CharClass): (r: Step<string>)
    requires pos <= |s|
    ensures pos <= r.pos <= |s|
    ensures r.value.None? <==> r.pos == pos
  {
    var e := SpanEnd(s, pos, cls);
    if e == pos then Step(None, pos) else Step(Some(s[pos..e]), e)
  }

  /**
   * The matcher takes the longest non-empty run of `cls` characters at the
   * cursor, and fails exactly when the character there is not in `cls`.
   */
  lemma MatchSpec(s: string, pos: nat, cls: CharClass)
    requires pos <= |s|
    ensures var r := Match(s, pos, cls);
      (r.value.Some? <==> pos < |s| && InClass(s[pos], cls)) &&
      (r.value.Some? ==>
        r.value.value == s[pos..r.pos] && AllIn(r.value.value, cls) &&
        (r.pos == |s| || !InClass(s[r.pos], cls)))
  {
    SpanEndSpec(s, pos, cls);
  }

  /**
   * When the text at `pos` is a run `t` of `cls` characters that is not
   * followed by another one, the regular-expression matcher takes exactly `t`.
   */
  lemma MatchRun(s: string, pos: nat, t: string, cls: CharClass)
    requires At(s, pos, t) && |t| > 0 && AllIn(t, cls)
    requires pos + |t| == |s| || !InClass(s[pos + |t|], cls)
    ensures Match(s, pos, cls) == Step(Some(t), pos + |t|)
  {
    var e := SpanEnd(s, pos, cls);
    SpanEndSpec(s, pos, cls);
    forall i | pos <= i < pos + |t|
      ensures InClass(s[i], cls)
    {
      assert s[i] == s[pos..pos + |t|][i - pos];
    }
    forall i | pos <= i < e
      ensures InClass(s[i], cls)
    {
      assert s[i] == s[pos..e][i - pos];
    }
  }

  /** The value of one decimal digit; other characters never reach it. */
  function DigitValue(c: char): (d: nat)
    ensures IsDigit(c) ==> d < 10 && DigitChar(d) == c
  {
    if IsDigit(c) then (c as int) - ('0' as int) else 0
  }

  function DigitChar(d: nat): char
    requires d < 10
  {
    ('0' as int + d) as char
  }

  function Pow10(k: nat): (p: nat)
    ensures p > 0
  {
    if k == 0 then 1 else 10 * Pow10(k - 1)
  }

  /** `parseInt` on a run of decimal digits: a numeral of k digits stays below 10^k. */
  function DecimalValue(t: string): (v: nat)
    ensures v < Pow10(|t|)
  {
    if t == [] then 0 else 10 * DecimalValue(t[..|t| - 1]) + DigitValue(t[|t| - 1])
  }

  /** `parseInt` ignores leading zeros. */
  lemma {:induction false} DecimalValueLeadingZero(t: string)
    ensures DecimalValue("0" + t) == DecimalValue(t)
  {
    if t != [] {
      var u := "0" + t;
      assert u[..|u| - 1] == "0" + t[..|t| - 1];
      assert u[|u| - 1] == t[|t| - 1];
      DecimalValueLeadingZero(t[..|t| - 1]);
    } else {
      assert ("0" + t)[..0] == [];
    }
  }

  /** `z` zeros, written before a numeral. */
  function Zeros(z: nat): (t: string)
    ensures |t| == z && AllIn(t, Digit)
  {
    if z == 0 then "" else "0" + Zeros(z - 1)
  }

  /** `parseInt` ignores any number of leading zeros. */
  lemma {:induction false} DecimalValueZeros(z: nat, t: string)
    ensures DecimalValue(Zeros(z) + t) == DecimalValue(t)
  {
    if z > 0 {
      assert Zeros(z) + t == "0" + (Zeros(z - 1) + t);
      DecimalValueLeadingZero(Zeros(z - 1) + t);
      DecimalValueZeros(z - 1, t);
    } else {
      assert Zeros(z) + t == t;
    }
  }

  /** The decimal numeral of `k`, without leading zeros. */
  function ShowNat(k: nat): (t: string)
    ensures |t| > 0 && AllIn(t, Digit)
  {
    if k < 10 then [DigitChar(k)] else ShowNat(k / 10) + [DigitChar(k % 10)]
  }

  /** ShowNat writes no leading zero: only the numeral of 0 starts with `0`. */
  lemma {:induction false} ShowNatHead(k: nat)
    ensures ShowNat(k)[0] == '0' <==> k == 0
  {
    if k >= 10 {
      ShowNatHead(k / 10);
      assert ShowNat(k)[0] == ShowNat(k / 10)[0];
    }
  }

  /** `parseInt` reads back every numeral that ShowNat writes. */
  lemma {:induction false} DecimalValueShowNat(k: nat)
    ensures DecimalValue(ShowNat(k)) == k
  {
    var t := ShowNat(k);
    if k < 10 {
      assert t[..0] == [];
    } else {
      assert t[..|t| - 1] == ShowNat(k / 10);
      DecimalValueShowNat(k / 10);
    }
  }
}
