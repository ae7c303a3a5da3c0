/** Term texts run through the top-level rules. `x**4`, `sin(x)` and `(x**2 + 1)**2` are spelled
    as the engine renders them; `(x+1)**2` and `(x+2)**2` are written without the spaces the
    engine puts around `+`, to show how the kept text depends on where the exponent's digits
    first occur. */
module Scenarios {
  import opened Outcomes
  import opened PyText
  import opened Expressions
  import opened Rules
  import opened EquationTransformer

  /** No trigonometric name occurs in a text whose characters are none of 's', 'c', 't'. */
  lemma NoTrigName(text: string)
    requires 's' !in text && 'c' !in text && 't' !in text
    ensures FirstTrigName(text) == None
  {
    forall k | 0 <= k < |TrigNames| ensures !Contains(text, TrigNames[k]) {
      OccurrenceLead(text, TrigNames[k]);
    }
  }

  lemma PlainCoefficient(cands: seq<Expr>)
    ensures HandleCoefficient("x**4", cands) == Step("x**4", cands)
  {
    assert OccursAt("x**4", "x", 0);
    assert Find("x**4", "x") == 0;
  }

  lemma PlainTrig(cands: seq<Expr>)
    ensures Trigonometric("x**4", cands) == Success(TrigStep(false, "x**4", cands))
  {
    OccurrenceLead("x**4", ")");
    assert RFind("x**4", ")") == -1;
    NoTrigName("x**4");
  }

  lemma FourthPower(cands: seq<Expr>)
    ensures HandlePower("x**4", cands).Success?
    ensures HandlePower("x**4", cands).value.cands == PowerCands(cands, 4.0)
  {
    OccurrenceLead("x**4", "**");
    assert OccursAt("x**4", "**", 1);
    assert Find("x**4", "**") == 1;
    assert "x**4"[3..] == "4";
    OccurrenceLead("4", "**");
    assert !Contains("4", "**");
    assert SplitLast("x**4", "**") == "4";
    ParseFloatNatText(4);
    assert NatText(4) == "4";
  }

  /** A term with 'x', no sign, no coefficient and no trigonometric name contributes the power
      extraction of its negated seed. */
  lemma {:induction false} PlainContribution(eq: Equation, t: string)
    requires Contains(t, "x") && t[0] != '-' && !CoefficientApplies(t)
    requires Trigonometric(t, [Neg(Seed(eq, t))]) == Success(TrigStep(false, t, [Neg(Seed(eq, t))]))
    requires HandlePower(t, [Neg(Seed(eq, t))]).Success?
    ensures Contribution(eq, t) == HandlePower(t, [Neg(Seed(eq, t))]).value.cands
  {
    var s := Seed(eq, t);
    assert HandleNegativity(t, [s], true) == Step(t, [Neg(s)]);
  }

  lemma EvenPowerOfOne(a: Expr, p: real)
    requires p != 0.0 && IsEven(p)
    ensures PowerCands([a], p) == [Root(a, p), Neg(Root(a, p))]
  {
    var r := PowerCands([a], p);
    assert r[0] == Root(a, p) && r[1] == Neg(Root(a, p));
  }

  /** `x**4` at the top level: the fourth root of the negated seed, and its negation. */
  lemma EvenPowerTerm(eq: Equation)
    ensures var s := Seed(eq, "x**4");
      Contribution(eq, "x**4") == [Root(Neg(s), 4.0), Neg(Root(Neg(s), 4.0))]
  {
    var s := Seed(eq, "x**4");
    assert OccursAt("x**4", "x", 0);
    PlainCoefficient([Neg(s)]);
    PlainTrig([Neg(s)]);
    FourthPower([Neg(s)]);
    IsEvenInteger(4);
    EvenPowerOfOne(Neg(s), 4.0);
    PlainContribution(eq, "x**4");
  }

  /** `float("2")` and `float("2 ")`: the exponent text of a square, with or without the space
      the engine puts before a closing operator. */
  lemma ParseTwo()
    ensures ParseFloat("2") == Some(2.0) && ParseFloat("2 ") == Some(2.0)
  {
    ParseFloatNatText(2);
    assert NatText(2) == "2";
    ParseFloatTrailingSpace("2");
    assert "2" + " " == "2 ";
  }

  lemma SineCoefficient(cands: seq<Expr>)
    ensures HandleCoefficient("sin(x)", cands) == Step("sin(x)", cands)
  {
    OccurrenceLead("sin(x)", "*");
    assert Find("sin(x)", "*") == -1;
  }

  lemma SineCloseBracket()
    ensures RFind("sin(x)", ")") == 5 && Find("sin(x)", ")") == 5
  {
    OccurrenceLead("sin(x)", ")");
    assert OccursAt("sin(x)", ")", 5);
  }

  lemma SineBrackets()
    ensures RFind("sin(x)", ")") == 5 && BracketArgument("sin(x)") == "x"
  {
    SineCloseBracket();
    FindAt("sin(x)", "(", 3);
  }

  lemma SineName()
    ensures FirstTrigName("sin(x)") == Some(0)
  {
    assert OccursAt("sin(x)", "sin", 0);
  }

  lemma SineInverted(cands: seq<Expr>)
    ensures Trigonometric("sin(x)", cands) == Success(TrigStep(true, "x", Inverted(Sin, cands)))
  {
    SineBrackets();
    SineName();
  }

  /** `sin(x)` at the top level: the rules turn it into asin of the negated seed with argument
      `x`, and the recursive call for that argument adds nothing, so the term contributes no
      candidate. */
  lemma SineTerm(eq: Equation)
    ensures var s := Seed(eq, "sin(x)");
      Rewrite("sin(x)", [s], true) == Success(TrigStep(true, "x", [Inv(Sin, Neg(s))]))
    ensures Contribution(eq, "sin(x)") == []
  {
    var s := Seed(eq, "sin(x)");
    assert HandleNegativity("sin(x)", [s], true) == Step("sin(x)", [Neg(s)]);
    SineCoefficient([Neg(s)]);
    SineInverted([Neg(s)]);
    assert Inverted(Sin, [Neg(s)]) == [Inv(Sin, Neg(s))];
  }

  /** `(x+1)**2` and `(x+2)**2` have a single `**`, at 5, and the exponent text `2`. */
  lemma BracketExponent(t: string)
    requires t in {"(x+1)**2", "(x+2)**2"}
    ensures Contains(t, "**") && SplitLast(t, "**") == "2"
  {
    assert FinalSeparator(t, 5);
    LastSeparatorAt(t, 5);
    assert t[7..] == "2";
  }

  lemma BracketKeptText()
    ensures Slice("(x+1)**2", 0, Find("(x+1)**2", "2") + 2) == "(x+1)**2"
  {
    var t := "(x+1)**2";
    OccurrenceLead(t, "2");
    assert OccursAt(t, "2", 7);
    assert Find(t, "2") == 7;
  }

  lemma BracketSquare(cands: seq<Expr>)
    ensures HandlePower("(x+1)**2", cands) == Success(Step("(x+1)**2", PowerCands(cands, 2.0)))
  {
    BracketExponent("(x+1)**2");
    ParseTwo();
    BracketKeptText();
  }

  /** A ')' at `b` with more text after it and no later ')' puts a power after a bracket. */
  lemma BracketClose(t: string, b: nat)
    requires b + 1 < |t| && t[b] == ')'
    requires forall j :: b < j < |t| ==> t[j] != ')'
    ensures PowerAfterBracket(t)
  {
    OccurrenceLead(t, ")");
    assert OccursAt(t, ")", b) by {
      assert t[b..b + 1] == ")";
    }
  }

  /** `(x+1)**2`: a bracket followed by more text, so the trigonometric rule already extracts
      the square before it searches for a name. */
  lemma BracketPrePower(cands: seq<Expr>)
    ensures PrePower("(x+1)**2", cands) == Success(Step("(x+1)**2", PowerCands(cands, 2.0)))
  {
    BracketClose("(x+1)**2", 4);
    BracketSquare(cands);
  }

  lemma BracketCoefficient(cands: seq<Expr>)
    ensures HandleCoefficient("(x+1)**2", cands) == Step("(x+1)**2", cands)
  {
    var t := "(x+1)**2";
    OccurrenceLead(t, "x");
    assert OccursAt(t, "x", 1);
    OccurrenceLead(t, "*");
    assert OccursAt(t, "*", 5);
    assert Find(t, "*") == 5 && Find(t, "x") == 1;
  }

  lemma BracketKeptPower()
    ensures KeptPower("(x+1)**2", 2.0)
  {
    BracketExponent("(x+1)**2");
    ParseTwo();
    BracketKeptText();
  }

  /** A powered bracket with no sign and no coefficient has its negated seed powered twice. */
  lemma PlainDoubleRewrite(t: string, s: Expr, p: real)
    requires |t| > 0 && t[0] != '-' && !CoefficientApplies(t)
    requires PoweredBracket(t, p)
    ensures Rewrite(t, [s], true) == Success(TrigStep(false, t, PowerCands(PowerCands([Neg(s)], p), p)))
  {
    SignlessStep(t, s);
    DoubleExtraction(t, [s], true, p);
  }

  /** Without a sign or a coefficient the text is kept and the seed is negated. */
  lemma SignlessStep(t: string, s: Expr)
    requires |t| > 0 && t[0] != '-' && !CoefficientApplies(t)
    ensures var n := HandleNegativity(t, [s], true); HandleCoefficient(n.text, n.cands) == Step(t, [Neg(s)])
  {
    assert HandleNegativity(t, [s], true) == Step(t, [Neg(s)]);
  }

  /** Such a term, with 'x', contributes exactly that list. */
  lemma PlainDoubleContribution(eq: Equation, t: string, p: real)
    requires Contains(t, "x") && t[0] != '-' && !CoefficientApplies(t)
    requires PoweredBracket(t, p)
    ensures Contribution(eq, t) == PowerCands(PowerCands([Neg(Seed(eq, t))], p), p)
  {
    var s := Seed(eq, t);
    PlainDoubleRewrite(t, s, p);
    ContributionOfStep(eq, t, TrigStep(false, t, PowerCands(PowerCands([Neg(s)], p), p)));
  }

  /** Two square extractions turn one candidate into both square roots of both of its square
      roots. */
  lemma SquareTwice(e: Expr)
    ensures var a, b := Root(e, 2.0), Neg(Root(e, 2.0));
      PowerCands(PowerCands([e], 2.0), 2.0) == [Root(a, 2.0), Root(b, 2.0), Neg(Root(a, 2.0)), Neg(Root(b, 2.0))]
  {
    IsEvenInteger(2);
    EvenPowerOfOne(e, 2.0);
    var a, b := Root(e, 2.0), Neg(Root(e, 2.0));
    var sq := PowerCands([a, b], 2.0);
    assert sq == [Root(a, 2.0), Root(b, 2.0), Neg(Root(a, 2.0)), Neg(Root(b, 2.0))];
  }

  lemma BracketPlain()
    ensures Contains("(x+1)**2", "x") && !CoefficientApplies("(x+1)**2")
  {
    assert OccursAt("(x+1)**2", "x", 1);
    BracketCoefficient([]);
  }

  lemma BracketPowered()
    ensures PoweredBracket("(x+1)**2", 2.0)
  {
    BracketClose("(x+1)**2", 4);
    NoTrigName("(x+1)**2");
    BracketKeptPower();
  }

  /** `(x+1)**2` at the top level: the square is extracted twice, once before the
      trigonometric search and once by the power rule, so the term contributes four candidates,
      the square roots of both square roots of the negated seed. */
  lemma SquaredBracketTerm(eq: Equation)
    ensures var s := Seed(eq, "(x+1)**2");
      var a, b := Root(Neg(s), 2.0), Neg(Root(Neg(s), 2.0));
      Contribution(eq, "(x+1)**2") == [Root(a, 2.0), Root(b, 2.0), Neg(Root(a, 2.0)), Neg(Root(b, 2.0))]
  {
    var t := "(x+1)**2";
    BracketPlain();
    BracketPowered();
    PlainDoubleContribution(eq, t, 2.0);
    SquareTwice(Neg(Seed(eq, t)));
  }

  lemma ShiftedBracketOnly()
    ensures !Contains("(x+2)", "**")
  {
    OccurrenceLead("(x+2)", "**");
  }

  /** The kept text of a text whose exponent text first occurs at `i`. */
  lemma KeptTextAt(t: string, i: int)
    requires Find(t, SplitLast(t, "**")) == i
    ensures KeptText(t) == Slice(t, 0, i + 2)
  {
  }

  /** The exponent text `2` of `(x+2)**2` first occurs inside the bracket. */
  lemma ShiftedPiece()
    ensures Find("(x+2)**2", SplitLast("(x+2)**2", "**")) == 3
  {
    FindAt("(x+2)**2", "2", 3);
    BracketExponent("(x+2)**2");
  }

  /** `find("2")` meets the digit inside the bracket, so the kept text is the bracket alone. */
  lemma ShiftedKeptText()
    ensures KeptText("(x+2)**2") == "(x+2)" && !Contains("(x+2)", "**")
  {
    var t := "(x+2)**2";
    ShiftedBracketOnly();
    assert Slice(t, 0, 5) == "(x+2)";
    ShiftedPiece();
    KeptTextAt(t, 3);
  }

  lemma ShiftedCut()
    ensures CutBracket("(x+2)**2", 2.0)
  {
    var t := "(x+2)**2";
    BracketClose(t, 4);
    NoTrigName(t);
    ShiftedKeptText();
    ParseTwo();
    BracketExponent(t);
  }

  lemma ShiftedPlain()
    ensures Contains("(x+2)**2", "x") && !CoefficientApplies("(x+2)**2")
  {
    var t := "(x+2)**2";
    OccurrenceLead(t, "x");
    assert OccursAt(t, "x", 1);
    OccurrenceLead(t, "*");
    assert OccursAt(t, "*", 5);
    assert Find(t, "*") == 5 && Find(t, "x") == 1;
  }

  /** A bracket cut short by its own exponent, with no sign and no coefficient, has its negated
      seed powered once. */
  lemma PlainSingleRewrite(t: string, s: Expr, p: real)
    requires |t| > 0 && t[0] != '-' && !CoefficientApplies(t)
    requires CutBracket(t, p)
    ensures Rewrite(t, [s], true) == Success(TrigStep(false, KeptText(t), PowerCands([Neg(s)], p)))
  {
    SignlessStep(t, s);
    SingleExtraction(t, [s], true, p);
  }

  /** Such a term, with 'x', contributes exactly that list. */
  lemma PlainSingleContribution(eq: Equation, t: string, p: real)
    requires Contains(t, "x") && t[0] != '-' && !CoefficientApplies(t)
    requires CutBracket(t, p)
    ensures Contribution(eq, t) == PowerCands([Neg(Seed(eq, t))], p)
  {
    var s := Seed(eq, t);
    PlainSingleRewrite(t, s, p);
    ContributionOfStep(eq, t, TrigStep(false, KeptText(t), PowerCands([Neg(s)], p)));
  }

  /** `(x+2)**2` at the top level: the kept text is `(x+2)`, so the square is extracted only
      once and the term contributes two candidates, unlike `(x+1)**2`. */
  lemma ShiftedSquareTerm(eq: Equation)
    ensures var s := Seed(eq, "(x+2)**2");
      Contribution(eq, "(x+2)**2") == [Root(Neg(s), 2.0), Neg(Root(Neg(s), 2.0))]
  {
    var t := "(x+2)**2";
    ShiftedPlain();
    ShiftedCut();
    PlainSingleContribution(eq, t, 2.0);
    IsEvenInteger(2);
    EvenPowerOfOne(Neg(Seed(eq, t)), 2.0);
  }

  /** A bracket whose kept text still carries a power, with no sign and no coefficient,
      contributes its negated seed powered by the outer exponent and then by the inner one. */
  lemma PlainRepoweredContribution(eq: Equation, t: string, p: real, q: real)
    requires Contains(t, "x") && t[0] != '-' && !CoefficientApplies(t)
    requires RepoweredBracket(t, p, q)
    ensures Contribution(eq, t) == PowerCands(PowerCands([Neg(Seed(eq, t))], p), q)
  {
    var s := Seed(eq, t);
    SignlessStep(t, s);
    SecondExtraction(t, [s], true, p, q);
    ContributionOfStep(eq, t, TrigStep(false, KeptText(KeptText(t)), PowerCands(PowerCands([Neg(s)], p), q)));
  }

  lemma SpacedPlain()
    ensures Contains("(x**2 + 1)**2", "x") && !CoefficientApplies("(x**2 + 1)**2")
  {
    FindAt("(x**2 + 1)**2", "x", 1);
    FindAt("(x**2 + 1)**2", "*", 2);
  }

  /** The last `**` of `(x**2 + 1)**2` is the outer one, and its exponent text is `2`. */
  lemma SpacedExponent()
    ensures Contains("(x**2 + 1)**2", "**") && SplitLast("(x**2 + 1)**2", "**") == "2"
  {
    var t := "(x**2 + 1)**2";
    assert FinalSeparator(t, 10);
    LastSeparatorAt(t, 10);
    assert t[12..] == "2";
  }

  /** The outer exponent text `2` first occurs in the inner power. */
  lemma SpacedPiece()
    ensures Find("(x**2 + 1)**2", SplitLast("(x**2 + 1)**2", "**")) == 4
  {
    FindAt("(x**2 + 1)**2", "2", 4);
    SpacedExponent();
  }

  /** `find("2")` meets the inner exponent, so the kept text is `(x**2 `, with its space. */
  lemma SpacedKeptText()
    ensures KeptText("(x**2 + 1)**2") == "(x**2 "
  {
    var t := "(x**2 + 1)**2";
    assert KeptText(t) == Slice(t, 0, 6) by {
      SpacedPiece();
      KeptTextAt(t, 4);
    }
    assert Slice(t, 0, 6) == "(x**2 ";
  }

  /** `(x**2 ` splits into `(x` and `2 `. */
  lemma InnerExponent()
    ensures Contains("(x**2 ", "**") && SplitLast("(x**2 ", "**") == "2 "
  {
    var k := "(x**2 ";
    assert FinalSeparator(k, 2);
    LastSeparatorAt(k, 2);
    assert k[4..] == "2 ";
  }

  /** The piece `2 ` occurs first at its own place, so the power rule keeps all of `(x**2 `. */
  lemma InnerKeptText()
    ensures KeptText("(x**2 ") == "(x**2 "
  {
    var k := "(x**2 ";
    assert Slice(k, 0, 6) == k;
    assert Find(k, SplitLast(k, "**")) == 4 by {
      FindAt(k, "2 ", 4);
      InnerExponent();
    }
    KeptTextAt(k, 4);
  }

  lemma SpacedRepowered()
    ensures RepoweredBracket("(x**2 + 1)**2", 2.0, 2.0)
  {
    var t := "(x**2 + 1)**2";
    BracketClose(t, 9);
    NoTrigName(t);
    SpacedKeptText();
    InnerKeptText();
    ParseTwo();
    InnerExponent();
    SpacedExponent();
  }

  /** `(x**2 + 1)**2` as the engine renders it: the outer square is extracted before the
      trigonometric search, which keeps `(x**2 `; the power rule reads the `2 ` left after its
      `**` as 2, so the term contributes four candidates. */
  lemma SpacedSquareTerm(eq: Equation)
    ensures var s := Seed(eq, "(x**2 + 1)**2");
      var a, b := Root(Neg(s), 2.0), Neg(Root(Neg(s), 2.0));
      Contribution(eq, "(x**2 + 1)**2") == [Root(a, 2.0), Root(b, 2.0), Neg(Root(a, 2.0)), Neg(Root(b, 2.0))]
  {
    var t := "(x**2 + 1)**2";
    SpacedPlain();
    SpacedRepowered();
    PlainRepoweredContribution(eq, t, 2.0, 2.0);
    SquareTwice(Neg(Seed(eq, t)));
  }
}
