/** `EquationTransformer.process_equation` and the constructor: every term of the equation is
    rewritten by the rules into candidate right-hand sides g(x), and trigonometric terms recurse
    into the parsed argument of the function. */
module EquationTransformer {
  import opened Outcomes
  import opened PyText
  import opened Expressions
  import opened Rules

  /** `equation - term`, the single candidate a term is seeded with at the top level. */
  function Seed(eq: Equation, t: string): Expr {
    Sub(Whole(eq), TermOf(t))
  }

  /** The list a term starts from: at the top level its seed; in a nested call every candidate
      accumulated so far by this same call, minus `equation - term`. */
  function Seeds(eq: Equation, t: string, acc: seq<Expr>, firstTime: bool): seq<Expr> {
    if firstTime then [Seed(eq, t)]
    else seq(|acc|, i requires 0 <= i < |acc| => Sub(acc[i], Seed(eq, t)))
  }

  /** The rules applied to one term, up to the point where a trigonometric term would recurse:
      sign, coefficient, trigonometric inversion, and power extraction for the others. Only a
      rejected exponent raises, and each of the at most two power extractions keeps or doubles
      the number of candidates. */
  function Rewrite(t: string, seeded: seq<Expr>, firstTime: bool): (r: Result<TrigStep>)
    requires |t| > 0
    ensures r.Failure? ==> r.error.ValueError?
    ensures r.Success? ==> |r.value.cands| in {|seeded|, 2 * |seeded|, 4 * |seeded|}
  {
    var n := HandleNegativity(t, seeded, firstTime);
    var c := HandleCoefficient(n.text, n.cands);
    match Trigonometric(c.text, c.cands)
    case Failure(e) => Failure(e)
    case Success(st) =>
      if st.isTrig then Success(st)
      else
        match HandlePower(st.text, st.cands)
        case Failure(e) => Failure(e)
        case Success(p) => Success(TrigStep(false, p.text, p.cands))
  }

  /** What one term adds to the accumulator: nothing for a term without 'x', otherwise what its
      rewrite leads to. */
  function TermCandidates(eq: Equation, t: string, acc: seq<Expr>, firstTime: bool, engine: Engine, fuel: nat)
    : Result<seq<Expr>>
    decreases fuel, 0, 1
  {
    if !Contains(t, "x") then Success([])
    else AfterRules(Rewrite(t, Seeds(eq, t, acc, firstTime), firstTime), engine, fuel)
  }

  /** What a rewritten term leads to: the rewritten candidates, or for a trigonometric term the
      nested call on the parsed argument, which replaces them. */
  function AfterRules(rw: Result<TrigStep>, engine: Engine, fuel: nat): Result<seq<Expr>>
    decreases fuel, 0, 0
  {
    match rw
    case Failure(e) => Failure(e)
    case Success(st) =>
      if !st.isTrig then Success(st.cands)
      else if fuel == 0 then Failure(RecursionLimit)
      else
        match engine.parse(st.text)
        case None => Failure(LatexError(st.text))
        case Some(inner) => Transform(inner, false, engine, fuel - 1)
  }

  /** The value `process_equation(equation, first_time)` returns; `fuel` bounds the depth of
      nested calls. */
  function Transform(eq: Equation, firstTime: bool, engine: Engine, fuel: nat): Result<seq<Expr>>
    decreases fuel, 2, 0
  {
    TransformFrom(eq, firstTime, engine, fuel, 0, [])
  }

  /** The loop of `process_equation` from term `k` on, with `acc` accumulated so far. */
  function TransformFrom(eq: Equation, firstTime: bool, engine: Engine, fuel: nat, k: nat, acc: seq<Expr>)
    : Result<seq<Expr>>
    requires k <= |eq.terms|
    decreases fuel, 1, |eq.terms| - k
  {
    if k == |eq.terms| then Success(acc)
    else
      match TermCandidates(eq, eq.terms[k], acc, firstTime, engine, fuel)
      case Failure(e) => Failure(e)
      case Success(local) => TransformFrom(eq, firstTime, engine, fuel, k + 1, acc + local)
  }

  /** `process_equation`: walks the terms in order and extends the accumulator with what each
      x-bearing term yields. */
  method ProcessEquation(eq: Equation, firstTime: bool, engine: Engine, fuel: nat) returns (r: Result<seq<Expr>>)
    decreases fuel
    ensures r == Transform(eq, firstTime, engine, fuel)
    ensures !firstTime ==> r.Failure? || r == Success([])
    ensures firstTime && r.Success? ==> r.value == DirectCandidates(eq)
  {
    var acc: seq<Expr> := [];
    for k := 0 to |eq.terms|
      invariant TransformFrom(eq, firstTime, engine, fuel, k, acc) == Transform(eq, firstTime, engine, fuel)
    {
      var term := eq.terms[k];
      var seeded: seq<Expr>;
      if !firstTime {
        seeded := seq(|acc|, i requires 0 <= i < |acc| => Sub(acc[i], Seed(eq, term)));
      } else {
        seeded := [Seed(eq, term)];
      }
      assert seeded == Seeds(eq, term, acc, firstTime);
      if Contains(term, "x") {
        ghost var expected := TermCandidates(eq, term, acc, firstTime, engine, fuel);
        assert expected == AfterRules(Rewrite(term, seeded, firstTime), engine, fuel);
        var n := HandleNegativity(term, seeded, firstTime);
        var c := HandleCoefficient(n.text, n.cands);
        var trig := HandleTrigonometric(c.text, c.cands);
        var local: seq<Expr>;
        if trig.Failure? {
          assert Rewrite(term, seeded, firstTime) == Failure(trig.error);
          assert expected == Failure(trig.error);
          return Failure(trig.error);
        } else if trig.value.isTrig {
          assert Rewrite(term, seeded, firstTime) == trig;
          if fuel == 0 {
            assert expected == Failure(RecursionLimit);
            return Failure(RecursionLimit);
          }
          var parsed := engine.parse(trig.value.text);
          if parsed.None? {
            assert expected == Failure(LatexError(trig.value.text));
            return Failure(LatexError(trig.value.text));
          }
          var inner := ProcessEquation(parsed.value, false, engine, fuel - 1);
          assert expected == inner;
          if inner.Failure? {
            return inner;
          }
          local := inner.value;
        } else {
          var powered := HandlePower(trig.value.text, trig.value.cands);
          if powered.Failure? {
            assert Rewrite(term, seeded, firstTime) == Failure(powered.error);
            assert expected == Failure(powered.error);
            return Failure(powered.error);
          }
          assert Rewrite(term, seeded, firstTime) == Success(TrigStep(false, powered.value.text, powered.value.cands));
          local := powered.value.cands;
        }
        assert expected == Success(local);
        acc := acc + local;
      } else {
        assert acc + [] == acc;
      }
    }
    r := Success(acc);
    NestedTransformIsEmpty(eq, engine, fuel);
    TopLevelIsDirect(eq, engine, fuel);
  }

  /** An `EquationTransformer` once its constructor has run: `original_equation`, the simplified
      parse of the input, and `transformed_equations`, its candidates. */
  datatype Transformer = Transformer(original: Equation, transformed: seq<Expr>)

  /** The transformer the constructor builds from a LaTeX text, or the exception it raises. */
  function Build(latex: string, engine: Engine, fuel: nat): Result<Transformer> {
    match engine.parse(latex)
    case None => Failure(LatexError(latex))
    case Some(e) =>
      var eq := engine.simplify(e);
      match Transform(eq, true, engine, fuel)
      case Failure(err) => Failure(err)
      case Success(cs) => Success(Transformer(eq, cs))
  }

  /** The constructor: parses and simplifies the equation, then runs the top-level call. */
  method NewTransformer(latex: string, engine: Engine, fuel: nat) returns (r: Result<Transformer>)
    ensures r == Build(latex, engine, fuel)
    ensures r.Success? ==>
      engine.parse(latex).Some? && r.value.original == engine.simplify(engine.parse(latex).value) &&
      r.value.transformed == DirectCandidates(r.value.original)
    ensures engine.parse(latex).None? ==> r == Failure(LatexError(latex))
  {
    var parsed := engine.parse(latex);
    if parsed.None? {
      return Failure(LatexError(latex));
    }
    var original := engine.simplify(parsed.value);
    var transformed := ProcessEquation(original, true, engine, fuel);
    if transformed.Failure? {
      return Failure(transformed.error);
    }
    r := Success(Transformer(original, transformed.value));
  }

  // ---------------------------------------------------------------- nested calls

  /** A nested call starts from an empty accumulator and seeds every term from it, so it
      yields no candidate at all: it returns the empty list or fails. */
  lemma {:induction false} NestedTransformIsEmpty(eq: Equation, engine: Engine, fuel: nat)
    ensures var r := Transform(eq, false, engine, fuel); r.Failure? || r == Success([])
    decreases fuel, 2, 0
  {
    NestedFromIsEmpty(eq, engine, fuel, 0);
  }

  lemma {:induction false} NestedFromIsEmpty(eq: Equation, engine: Engine, fuel: nat, k: nat)
    requires k <= |eq.terms|
    ensures var r := TransformFrom(eq, false, engine, fuel, k, []); r.Failure? || r == Success([])
    decreases fuel, 1, |eq.terms| - k
  {
    if k < |eq.terms| {
      NestedTermIsEmpty(eq, eq.terms[k], engine, fuel);
      match TermCandidates(eq, eq.terms[k], [], false, engine, fuel)
      case Failure(_) =>
      case Success(local) =>
        assert [] + local == [];
        NestedFromIsEmpty(eq, engine, fuel, k + 1);
    }
  }

  lemma {:induction false} NestedTermIsEmpty(eq: Equation, t: string, engine: Engine, fuel: nat)
    ensures var r := TermCandidates(eq, t, [], false, engine, fuel); r.Failure? || r == Success([])
    decreases fuel, 0, 1
  {
    if Contains(t, "x") {
      assert Seeds(eq, t, [], false) == [];
      RewriteOfNothing(t, false);
      NothingAfterRules(Rewrite(t, [], false), engine, fuel);
    }
  }

  /** A rewrite of the empty list leads to the empty list or fails. */
  lemma {:induction false} NothingAfterRules(rw: Result<TrigStep>, engine: Engine, fuel: nat)
    requires rw.Success? ==> rw.value.cands == []
    ensures var r := AfterRules(rw, engine, fuel); r.Failure? || r == Success([])
    decreases fuel, 0, 0
  {
    if rw.Success? && rw.value.isTrig && fuel > 0 && engine.parse(rw.value.text).Some? {
      NestedTransformIsEmpty(engine.parse(rw.value.text).value, engine, fuel - 1);
    }
  }

  /** The rules map the empty list to the empty list. */
  lemma RewriteOfNothing(t: string, firstTime: bool)
    requires |t| > 0
    ensures var r := Rewrite(t, [], firstTime); r.Success? ==> r.value.cands == []
  {
    var n := HandleNegativity(t, [], firstTime);
    assert n.cands == [];
    var c := HandleCoefficient(n.text, n.cands);
    assert c.cands == [];
    match Trigonometric(c.text, c.cands)
    case Failure(_) =>
    case Success(st) =>
      assert |PrePower(c.text, c.cands).value.cands| == 0;
      assert st.cands == [];
      if !st.isTrig {
        assert HandlePower(st.text, st.cands).Success? ==> HandlePower(st.text, st.cands).value.cands == [];
      }
  }

  // ---------------------------------------------------------------- the depth bound

  /** A result reached within `fuel` nested calls is the result with one call more to spare:
      only `RecursionLimit` depends on the bound. */
  lemma {:induction false} TransformFuel(eq: Equation, firstTime: bool, engine: Engine, fuel: nat)
    requires Transform(eq, firstTime, engine, fuel) != Failure(RecursionLimit)
    ensures Transform(eq, firstTime, engine, fuel + 1) == Transform(eq, firstTime, engine, fuel)
    decreases fuel, 2, 0
  {
    TransformFromFuel(eq, firstTime, engine, fuel, 0, []);
  }

  lemma {:induction false} TransformFromFuel(eq: Equation, firstTime: bool, engine: Engine, fuel: nat,
                                             k: nat, acc: seq<Expr>)
    requires k <= |eq.terms|
    requires TransformFrom(eq, firstTime, engine, fuel, k, acc) != Failure(RecursionLimit)
    ensures TransformFrom(eq, firstTime, engine, fuel + 1, k, acc) == TransformFrom(eq, firstTime, engine, fuel, k, acc)
    decreases fuel, 1, |eq.terms| - k
  {
    if k < |eq.terms| {
      var tc := TermCandidates(eq, eq.terms[k], acc, firstTime, engine, fuel);
      TermFuel(eq, eq.terms[k], acc, firstTime, engine, fuel);
      if tc.Success? {
        TransformFromFuel(eq, firstTime, engine, fuel, k + 1, acc + tc.value);
      }
    }
  }

  lemma {:induction false} TermFuel(eq: Equation, t: string, acc: seq<Expr>, firstTime: bool, engine: Engine,
                                    fuel: nat)
    requires TermCandidates(eq, t, acc, firstTime, engine, fuel) != Failure(RecursionLimit)
    ensures TermCandidates(eq, t, acc, firstTime, engine, fuel + 1) == TermCandidates(eq, t, acc, firstTime, engine, fuel)
    decreases fuel, 0, 1
  {
    if Contains(t, "x") {
      AfterRulesFuel(Rewrite(t, Seeds(eq, t, acc, firstTime), firstTime), engine, fuel);
    }
  }

  lemma {:induction false} AfterRulesFuel(rw: Result<TrigStep>, engine: Engine, fuel: nat)
    requires AfterRules(rw, engine, fuel) != Failure(RecursionLimit)
    ensures AfterRules(rw, engine, fuel + 1) == AfterRules(rw, engine, fuel)
    decreases fuel, 0, 0
  {
    if rw.Success? && rw.value.isTrig && engine.parse(rw.value.text).Some? {
      TransformFuel(engine.parse(rw.value.text).value, false, engine, fuel - 1);
    }
  }

  /** Any larger bound gives the same result: the bound stands for a recursion limit that is
      never reached. */
  lemma {:induction false} TransformFuelBeyond(eq: Equation, firstTime: bool, engine: Engine, fuel: nat, more: nat)
    requires Transform(eq, firstTime, engine, fuel) != Failure(RecursionLimit)
    ensures Transform(eq, firstTime, engine, fuel + more) == Transform(eq, firstTime, engine, fuel)
    decreases more
  {
    if more > 0 {
      TransformFuelBeyond(eq, firstTime, engine, fuel, more - 1);
      TransformFuel(eq, firstTime, engine, fuel + more - 1);
    }
  }

  /** The text carries the numeric exponent `p` after its last `**`, and the slice the power
      rule keeps is the whole text. */
  predicate KeptPower(text: string, p: real) {
    Contains(text, "**") && ParseFloat(SplitLast(text, "**")) == Some(p) &&
    Slice(text, 0, Find(text, SplitLast(text, "**")) + 2) == text
  }

  /** A bracket followed by more text, no trigonometric name, and a numeric exponent `p` that
      the power rule keeps the whole text for: a text such as `(x+1)**2`. */
  predicate PoweredBracket(text: string, p: real) {
    PowerAfterBracket(text) && FirstTrigName(text).None? && KeptPower(text, p)
  }

  /** An extraction whose exponent is numeric and whose kept slice is the whole text leaves the
      text unchanged and applies the exponent to the candidates. */
  lemma ExtractionKeepsText(text: string, cands: seq<Expr>, p: real)
    requires KeptPower(text, p)
    ensures HandlePower(text, cands) == Success(Step(text, PowerCands(cands, p)))
  {
  }

  /** A term whose text, after the sign and coefficient rules, is a powered bracket has its
      exponent extracted twice: once before the trigonometric search and
      once by the ordinary power rule, on the same text. */
  lemma DoubleExtraction(t: string, seeded: seq<Expr>, firstTime: bool, p: real)
    requires |t| > 0
    requires var n := HandleNegativity(t, seeded, firstTime); var c := HandleCoefficient(n.text, n.cands);
      PoweredBracket(c.text, p)
    ensures var n := HandleNegativity(t, seeded, firstTime); var c := HandleCoefficient(n.text, n.cands);
      Rewrite(t, seeded, firstTime) == Success(TrigStep(false, c.text, PowerCands(PowerCands(c.cands, p), p)))
  {
    var n := HandleNegativity(t, seeded, firstTime);
    var c := HandleCoefficient(n.text, n.cands);
    var once := PowerCands(c.cands, p);
    ExtractionKeepsText(c.text, c.cands, p);
    assert Trigonometric(c.text, c.cands) == Success(TrigStep(false, c.text, once));
    ExtractionKeepsText(c.text, once, p);
  }

  /** The text the power rule keeps: up to two characters past the first place where the text
      after the last `**` occurs. */
  function KeptText(text: string): string {
    Slice(text, 0, Find(text, SplitLast(text, "**")) + 2)
  }

  /** A bracket followed by more text, no trigonometric name, and a numeric exponent `p` whose
      kept text has no `**` left: a text such as `(x+2)**2`, where the exponent's digits first
      occur inside the bracket. */
  predicate CutBracket(text: string, p: real) {
    PowerAfterBracket(text) && FirstTrigName(text).None? && Contains(text, "**") &&
    ParseFloat(SplitLast(text, "**")) == Some(p) && !Contains(KeptText(text), "**")
  }

  /** A term whose text, after the sign and coefficient rules, is such a bracket has its
      exponent extracted once, before the trigonometric search: the power rule then finds no
      `**` in the kept text and leaves it and the candidates alone. */
  lemma SingleExtraction(t: string, seeded: seq<Expr>, firstTime: bool, p: real)
    requires |t| > 0
    requires var n := HandleNegativity(t, seeded, firstTime); var c := HandleCoefficient(n.text, n.cands);
      CutBracket(c.text, p)
    ensures var n := HandleNegativity(t, seeded, firstTime); var c := HandleCoefficient(n.text, n.cands);
      Rewrite(t, seeded, firstTime) == Success(TrigStep(false, KeptText(c.text), PowerCands(c.cands, p)))
  {
    var n := HandleNegativity(t, seeded, firstTime);
    var c := HandleCoefficient(n.text, n.cands);
    var once := PowerCands(c.cands, p);
    assert HandlePower(c.text, c.cands) == Success(Step(KeptText(c.text), once));
    assert Trigonometric(c.text, c.cands) == Success(TrigStep(false, KeptText(c.text), once));
    assert HandlePower(KeptText(c.text), once) == Success(Step(KeptText(c.text), once));
  }

  /** A bracket followed by more text, no trigonometric name, and a numeric exponent `p`,
      whose kept text still holds a `**` with the numeric exponent `q`: a text such as
      `(x**2 + 1)**2`, where the kept text is `(x**2 `. */
  predicate RepoweredBracket(text: string, p: real, q: real) {
    PowerAfterBracket(text) && FirstTrigName(text).None? && Contains(text, "**") &&
    ParseFloat(SplitLast(text, "**")) == Some(p) &&
    Contains(KeptText(text), "**") && ParseFloat(SplitLast(KeptText(text), "**")) == Some(q)
  }

  /** A term whose text, after the sign and coefficient rules, is such a bracket has its outer
      exponent extracted before the trigonometric search and the exponent left in the kept
      text extracted by the power rule. */
  lemma SecondExtraction(t: string, seeded: seq<Expr>, firstTime: bool, p: real, q: real)
    requires |t| > 0
    requires var n := HandleNegativity(t, seeded, firstTime); var c := HandleCoefficient(n.text, n.cands);
      RepoweredBracket(c.text, p, q)
    ensures var n := HandleNegativity(t, seeded, firstTime); var c := HandleCoefficient(n.text, n.cands);
      Rewrite(t, seeded, firstTime) ==
        Success(TrigStep(false, KeptText(KeptText(c.text)), PowerCands(PowerCands(c.cands, p), q)))
  {
    var n := HandleNegativity(t, seeded, firstTime);
    var c := HandleCoefficient(n.text, n.cands);
    var once := PowerCands(c.cands, p);
    var kept := KeptText(c.text);
    assert HandlePower(c.text, c.cands) == Success(Step(kept, once));
    assert Trigonometric(c.text, c.cands) == Success(TrigStep(false, kept, once));
    assert HandlePower(kept, once) == Success(Step(KeptText(kept), PowerCands(once, q)));
  }

  // ---------------------------------------------------------------- the top level

  /** What one term contributes at the top level: for an x-bearing term that is not
      trigonometric, the rules applied to its seed `equation - term`; nothing otherwise. */
  function Contribution(eq: Equation, t: string): seq<Expr> {
    if !Contains(t, "x") then [] else Retained(Rewrite(t, [Seed(eq, t)], true))
  }

  /** A term whose rewrite succeeds without the trigonometric flag contributes the rewritten
      candidates. */
  lemma ContributionOfStep(eq: Equation, t: string, st: TrigStep)
    requires Contains(t, "x") && Rewrite(t, [Seed(eq, t)], true) == Success(st) && !st.isTrig
    ensures Contribution(eq, t) == st.cands
  {
  }

  /** The candidates a successful rewrite keeps at the top level. */
  function Retained(rw: Result<TrigStep>): seq<Expr> {
    match rw
    case Success(st) => if st.isTrig then [] else st.cands
    case Failure(_) => []
  }

  /** The contributions of the terms from `k` on, concatenated in term order. */
  function DirectFrom(eq: Equation, k: nat): seq<Expr>
    requires k <= |eq.terms|
    decreases |eq.terms| - k
  {
    if k == |eq.terms| then [] else Contribution(eq, eq.terms[k]) + DirectFrom(eq, k + 1)
  }

  function DirectCandidates(eq: Equation): seq<Expr> {
    DirectFrom(eq, 0)
  }

  /** At the top level a term's own candidates do not depend on what was accumulated before it,
      and a trigonometric term adds the (empty) result of its nested call. */
  lemma {:induction false} TopLevelTerm(eq: Equation, t: string, acc: seq<Expr>, engine: Engine, fuel: nat)
    ensures var r := TermCandidates(eq, t, acc, true, engine, fuel); r.Success? ==> r.value == Contribution(eq, t)
  {
    if Contains(t, "x") {
      assert Seeds(eq, t, acc, true) == [Seed(eq, t)];
      RetainedAfterRules(Rewrite(t, [Seed(eq, t)], true), engine, fuel);
    }
  }

  /** At the top level what a rewrite leads to is what it retains: the nested call of a
      trigonometric term adds nothing. */
  lemma RetainedAfterRules(rw: Result<TrigStep>, engine: Engine, fuel: nat)
    ensures var r := AfterRules(rw, engine, fuel); r.Success? ==> r.value == Retained(rw)
  {
    if rw.Success? && rw.value.isTrig && fuel > 0 && engine.parse(rw.value.text).Some? {
      NestedTransformIsEmpty(engine.parse(rw.value.text).value, engine, fuel - 1);
    }
  }

  lemma {:induction false} TopLevelFrom(eq: Equation, engine: Engine, fuel: nat, k: nat, acc: seq<Expr>)
    requires k <= |eq.terms|
    ensures var r := TransformFrom(eq, true, engine, fuel, k, acc); r.Success? ==> r.value == acc + DirectFrom(eq, k)
    decreases |eq.terms| - k
  {
    if k < |eq.terms| {
      var t := eq.terms[k];
      var tc := TermCandidates(eq, t, acc, true, engine, fuel);
      TopLevelTerm(eq, t, acc, engine, fuel);
      if tc.Success? {
        assert TransformFrom(eq, true, engine, fuel, k, acc) == TransformFrom(eq, true, engine, fuel, k + 1, acc + tc.value);
        assert DirectFrom(eq, k) == tc.value + DirectFrom(eq, k + 1);
        TopLevelFrom(eq, engine, fuel, k + 1, acc + tc.value);
        Reassociate(acc, tc.value, DirectFrom(eq, k + 1));
      }
    }
  }

  lemma Reassociate(a: seq<Expr>, b: seq<Expr>, c: seq<Expr>)
    ensures a + b + c == a + (b + c)
  {
  }

  /** A successful top-level call returns, in term order, exactly the contributions of its
      terms: terms without 'x' and trigonometric terms add nothing. */
  lemma TopLevelIsDirect(eq: Equation, engine: Engine, fuel: nat)
    ensures var r := Transform(eq, true, engine, fuel); r.Success? ==> r.value == DirectCandidates(eq)
  {
    TopLevelFrom(eq, engine, fuel, 0, []);
  }

  /** An equation without an x-bearing term yields the empty list, at any level. */
  lemma NoVariableNoCandidates(eq: Equation, firstTime: bool, engine: Engine, fuel: nat)
    requires forall k :: 0 <= k < |eq.terms| ==> !Contains(eq.terms[k], "x")
    ensures Transform(eq, firstTime, engine, fuel) == Success([])
  {
    NoVariableFrom(eq, firstTime, engine, fuel, 0);
  }

  lemma {:induction false} NoVariableFrom(eq: Equation, firstTime: bool, engine: Engine, fuel: nat, k: nat)
    requires k <= |eq.terms|
    requires forall j :: k <= j < |eq.terms| ==> !Contains(eq.terms[j], "x")
    ensures TransformFrom(eq, firstTime, engine, fuel, k, []) == Success([])
    decreases |eq.terms| - k
  {
    if k < |eq.terms| {
      var none: seq<Expr> := [];
      assert TermCandidates(eq, eq.terms[k], none, firstTime, engine, fuel) == Success(none);
      assert none + none == none;
      NoVariableFrom(eq, firstTime, engine, fuel, k + 1);
    }
  }

  /** A term contributes one, two or four candidates, or none; each is built from the term's
      seed by negation, division, roots and inverse functions, or is the constant 1. */
  lemma ContributionShape(eq: Equation, t: string)
    ensures var c := Contribution(eq, t); |c| in {0, 1, 2, 4} && FromSeed(c, Seed(eq, t))
  {
    if Contains(t, "x") {
      RewriteShape(eq, t);
    }
  }

  /** The rules applied to a term's seed give one, two or four candidates, each built from it
      or the constant 1. */
  lemma RewriteShape(eq: Equation, t: string)
    requires |t| > 0
    ensures var seed := Seed(eq, t); var rw := Rewrite(t, [seed], true);
      rw.Success? ==> |rw.value.cands| in {1, 2, 4} && FromSeed(rw.value.cands, seed)
  {
    var seed := Seed(eq, t);
    var n := HandleNegativity(t, [seed], true);
    var c := HandleCoefficient(n.text, n.cands);
    SignAndCoefficientShape(eq, t);
    TrigonometricKeepsOrigin(c.text, c.cands, seed);
    match Trigonometric(c.text, c.cands)
    case Failure(_) =>
    case Success(st) =>
      if !st.isTrig {
        PowerKeepsOrigin(st.text, st.cands, seed);
      }
  }

  /** The sign and coefficient rules keep a term's single seed single and built from it (or
      the constant 1, which `FromSeed` also admits). */
  lemma SignAndCoefficientShape(eq: Equation, t: string)
    requires |t| > 0
    ensures var seed := Seed(eq, t);
      var n := HandleNegativity(t, [seed], true); var c := HandleCoefficient(n.text, n.cands);
      |c.cands| == 1 && FromSeed(c.cands, seed)
  {
    var seed := Seed(eq, t);
    var n := HandleNegativity(t, [seed], true);
    assert FromSeed(n.cands, seed) by {
      assert n.cands == [n.cands[0]];
      assert Core(n.cands[0]) == seed;
    }
    var c := HandleCoefficient(n.text, n.cands);
    assert FromSeed(c.cands, seed) by {
      if CoefficientApplies(n.text) {
        assert c.cands == [Div(n.cands[0], ParseFloat(n.text[..Find(n.text, "*")]).value)];
      }
    }
  }
}
