/** The four text-driven rewrite rules of `EquationTransformer`: each inspects the rendered
    text of one term and rewrites the candidate list g(x) accordingly. */
module Rules {
  import opened Outcomes
  import opened PyText
  import opened Expressions

  /** What a rule returns: the rewritten term text and the rewritten candidate list. */
  datatype Step = Step(text: string, cands: seq<Expr>)

  /** What `handle_trigonometric` returns: whether the term was trigonometric, its text, its candidates. */
  datatype TrigStep = TrigStep(isTrig: bool, text: string, cands: seq<Expr>)

  /** The trigonometric names in the order they are tried, and the functions they stand for. */
  const TrigNames: seq<string> := ["sin", "cos", "tan", "cot", "sec", "csc"]
  const TrigFns: seq<Trig> := [Sin, Cos, Tan, Cot, Sec, Csc]

  function Negated(cands: seq<Expr>): (r: seq<Expr>)
    ensures |r| == |cands| && forall i :: 0 <= i < |cands| ==> r[i] == Neg(cands[i])
  {
    seq(|cands|, i requires 0 <= i < |cands| => Neg(cands[i]))
  }

  function Inverted(f: Trig, cands: seq<Expr>): (r: seq<Expr>)
    ensures |r| == |cands| && forall i :: 0 <= i < |cands| ==> r[i] == Inv(f, cands[i])
  {
    seq(|cands|, i requires 0 <= i < |cands| => Inv(f, cands[i]))
  }

  /** Every candidate is `One` or was built from `seed` by the rules' wrappers. */
  predicate FromSeed(cands: seq<Expr>, seed: Expr) {
    forall c :: c in cands ==> Core(c) == One || Core(c) == seed
  }

  // ---------------------------------------------------------------- handle_negativity

  /** Strips a leading '-' from the text. The candidates are negated when the sign of the text
      disagrees with the call's level: a negative term in a nested call, a non-negative term at
      the top level. The text must be non-empty (its first character is read). */
  function HandleNegativity(text: string, cands: seq<Expr>, firstTime: bool): (r: Step)
    requires |text| > 0
    ensures |r.cands| == |cands|
    ensures text == (if text[0] == '-' then "-" else "") + r.text
    ensures forall i :: 0 <= i < |cands| ==>
      r.cands[i] == if (text[0] == '-') != firstTime then Neg(cands[i]) else cands[i]
  {
    if text[0] == '-' then
      Step(text[1..], if !firstTime then Negated(cands) else cands)
    else
      Step(text, if firstTime then Negated(cands) else cands)
  }

  /** The two sign conventions agree on the text and give opposite candidates. */
  lemma SignConventionsOppose(text: string, cands: seq<Expr>)
    requires |text| > 0
    ensures HandleNegativity(text, cands, true).text == HandleNegativity(text, cands, false).text
    ensures forall i :: 0 <= i < |cands| ==>
      var a, b := HandleNegativity(text, cands, true).cands[i], HandleNegativity(text, cands, false).cands[i];
      (a == Neg(b) && b == cands[i]) || (b == Neg(a) && a == cands[i])
  {
  }

  // ---------------------------------------------------------------- handle_coefficient

  /** A '*' occurs before the first 'x' and the text before that '*' is a number. */
  predicate CoefficientApplies(text: string) {
    var star := Find(text, "*");
    star != -1 && star < Find(text, "x") && ParseFloat(text[..star]).Some?
  }

  /** Divides every candidate by a leading numeric coefficient and keeps the text from the '*' on;
      any other text leaves both unchanged. */
  function HandleCoefficient(text: string, cands: seq<Expr>): (r: Step)
    ensures r == Step(text, cands) <==> !CoefficientApplies(text)
    ensures CoefficientApplies(text) ==>
      var star := Find(text, "*");
      var c := ParseFloat(text[..star]).value;
      r.text == text[star..] && |r.cands| == |cands| &&
      forall i :: 0 <= i < |cands| ==> r.cands[i] == Div(cands[i], c)
  {
    var star := Find(text, "*");
    var x := Find(text, "x");
    if star != -1 && star < x then
      match ParseFloat(text[..star])
      case None => Step(text, cands)
      case Some(c) => Step(text[star..], seq(|cands|, i requires 0 <= i < |cands| => Div(cands[i], c)))
    else Step(text, cands)
  }

  /** Applying the rule to its own output changes nothing: the kept text starts with '*',
      so no coefficient stands before it any more. */
  lemma {:induction false} CoefficientIdempotent(text: string, cands: seq<Expr>)
    ensures var r := HandleCoefficient(text, cands); HandleCoefficient(r.text, r.cands) == r
  {
    var r := HandleCoefficient(text, cands);
    if CoefficientApplies(text) {
      assert r.text == text[Find(text, "*")..];
      StarLeadsNoCoefficient(r.text);
    }
  }

  /** A text that starts with '*' has an empty prefix before its first '*', which is no number. */
  lemma StarLeadsNoCoefficient(text: string)
    requires |text| > 0 && text[0] == '*'
    ensures !CoefficientApplies(text)
  {
    assert OccursAt(text, "*", 0) by {
      assert text[0..1] == [text[0]];
    }
    assert ParseFloat(text[..0]).None? by {
      assert text[..0] == [];
    }
  }

  // ---------------------------------------------------------------- handle_power

  /** Python's `p % 2 == 0` on a float: `p` is an even integer. */
  predicate IsEven(p: real) {
    (p / 2.0).Floor as real == p / 2.0
  }

  /** On integers the float test is integer parity. */
  lemma {:induction false} IsEvenInteger(n: int)
    ensures IsEven(n as real) <==> n % 2 == 0
  {
    var h := (n as real) / 2.0;
    var q := n / 2;
    assert n == 2 * q + n % 2;
    if n % 2 == 0 {
      assert h == q as real;
    } else {
      assert h == q as real + 0.5;
      assert h.Floor == q;
    }
  }

  /** The candidates `handle_power` builds for a parsed exponent p. */
  function PowerCands(cands: seq<Expr>, p: real): (r: seq<Expr>)
    ensures p == 0.0 ==> |r| == |cands| && forall i :: 0 <= i < |cands| ==> r[i] == One
    ensures p != 0.0 && IsEven(p) ==> (|r| == 2 * |cands| &&
      forall i :: 0 <= i < |cands| ==> r[i] == Root(cands[i], p) && r[|cands| + i] == Neg(Root(cands[i], p)))
    ensures p != 0.0 && !IsEven(p) ==> (|r| == |cands| &&
      forall i :: 0 <= i < |cands| ==> r[i] == Root(cands[i], p))
  {
    if p == 0.0 then seq(|cands|, _ => One)
    else
      var roots := seq(|cands|, i requires 0 <= i < |cands| => Root(cands[i], p));
      roots + (if IsEven(p) then Negated(roots) else [])
  }

  /** `s[:k]` for a non-negative k is a prefix of s. */
  lemma {:induction false} SlicePrefix(s: string, k: int)
    requires k >= 0
    ensures |Slice(s, 0, k)| <= |s| && Slice(s, 0, k) == s[..|Slice(s, 0, k)|]
  {
  }

  /** Extracts the exponent after the last `**`: exponent 0 makes every candidate the constant 1,
      any other exponent p takes the 1/p root of every candidate, and an even p appends the
      negated roots in the same order. A text without `**` changes nothing; an exponent that is
      not a number fails. The text kept is a prefix of the input. */
  function HandlePower(text: string, cands: seq<Expr>): (r: Result<Step>)
    ensures !Contains(text, "**") ==> r == Success(Step(text, cands))
    ensures Contains(text, "**") ==> (r.Failure? <==> ParseFloat(SplitLast(text, "**")).None?)
    ensures r.Success? ==> |r.value.text| <= |text| && r.value.text == text[..|r.value.text|]
    ensures r.Success? && Contains(text, "**") ==>
      r.value.text == Slice(text, 0, Find(text, SplitLast(text, "**")) + 2)
    ensures r.Success? && Contains(text, "**") ==>
      r.value.cands == PowerCands(cands, ParseFloat(SplitLast(text, "**")).value)
    ensures r.Failure? ==> r.error.ValueError?
    ensures r.Success? ==> |r.value.cands| in {|cands|, 2 * |cands|}
  {
    if !Contains(text, "**") then Success(Step(text, cands))
    else
      var piece := SplitLast(text, "**");
      var at := Find(text, piece);
      match ParseFloat(piece)
      case None => Failure(ValueError(piece))
      case Some(p) =>
        SlicePrefix(text, at + 2);
        Success(Step(Slice(text, 0, at + 2), PowerCands(cands, p)))
  }

  /** The list grows by a factor of one or two, and keeps its origin. */
  lemma PowerKeepsOrigin(text: string, cands: seq<Expr>, seed: Expr)
    requires FromSeed(cands, seed)
    ensures var r := HandlePower(text, cands);
      r.Success? ==> (|r.value.cands| == |cands| || |r.value.cands| == 2 * |cands|) && FromSeed(r.value.cands, seed)
  {
    if HandlePower(text, cands).Success? && Contains(text, "**") {
      PowerCandsKeepOrigin(cands, ParseFloat(SplitLast(text, "**")).value, seed);
    }
  }

  lemma PowerCandsKeepOrigin(cands: seq<Expr>, p: real, seed: Expr)
    requires FromSeed(cands, seed)
    ensures var r := PowerCands(cands, p);
      (|r| == |cands| || |r| == 2 * |cands|) && FromSeed(r, seed)
  {
    var r := PowerCands(cands, p);
    forall c | c in r ensures Core(c) == One || Core(c) == seed {
      var i :| 0 <= i < |r| && r[i] == c;
      if i >= |cands| {
        assert cands[i - |cands|] in cands;
      } else {
        assert cands[i] in cands;
      }
    }
  }

  // ---------------------------------------------------------------- handle_trigonometric

  /** The last ')' exists and is not the last character: a powered bracket such as `sin(x)**2`. */
  predicate PowerAfterBracket(text: string) {
    var b := RFind(text, ")");
    b != -1 && b + 1 < |text|
  }

  /** The power extraction `handle_trigonometric` runs before it looks for a name. */
  function PrePower(text: string, cands: seq<Expr>): Result<Step> {
    if PowerAfterBracket(text) then HandlePower(text, cands) else Success(Step(text, cands))
  }

  /** The index of the first trigonometric name occurring in the text, in the fixed order. */
  function FirstTrigName(text: string): (r: Option<nat>)
    ensures r.Some? ==> (r.value < |TrigNames| && Contains(text, TrigNames[r.value]) &&
      forall j :: 0 <= j < r.value ==> !Contains(text, TrigNames[j]))
    ensures r.None? ==> forall j :: 0 <= j < |TrigNames| ==> !Contains(text, TrigNames[j])
  {
    FirstTrigFrom(text, 0)
  }

  function FirstTrigFrom(text: string, k: nat): (r: Option<nat>)
    requires k <= |TrigNames|
    decreases |TrigNames| - k
    ensures r.Some? ==> (k <= r.value < |TrigNames| && Contains(text, TrigNames[r.value]) &&
      forall j :: k <= j < r.value ==> !Contains(text, TrigNames[j]))
    ensures r.None? ==> forall j :: k <= j < |TrigNames| ==> !Contains(text, TrigNames[j])
  {
    if k == |TrigNames| then None
    else if Contains(text, TrigNames[k]) then Some(k)
    else FirstTrigFrom(text, k + 1)
  }

  /** The text between the first '(' and the first ')', as Python slices it. */
  function BracketArgument(text: string): string {
    Slice(text, Find(text, "(") + 1, Find(text, ")"))
  }

  /** The value `handle_trigonometric` computes. */
  function Trigonometric(text: string, cands: seq<Expr>): (r: Result<TrigStep>)
    ensures r.Failure? ==> r.error.ValueError?
    ensures r.Success? ==> |r.value.cands| in {|cands|, 2 * |cands|}
  {
    match PrePower(text, cands)
    case Failure(e) => Failure(e)
    case Success(pre) =>
      match FirstTrigName(text)
      case None => Success(TrigStep(false, pre.text, pre.cands))
      case Some(k) =>
        Success(TrigStep(true, BracketArgument(text), Inverted(TrigFns[k], pre.cands)))
  }

  /** Runs the power extraction first when a bracket is followed by more text, then looks for
      the first trigonometric name; on a match it wraps every candidate in the matching inverse
      and keeps only the bracket's argument. */
  method HandleTrigonometric(text: string, cands: seq<Expr>) returns (r: Result<TrigStep>)
    ensures r == Trigonometric(text, cands)
  {
    var newText := text;
    var list := cands;
    var lastBracket := RFind(text, ")");
    if lastBracket != -1 && lastBracket + 1 < |text| {
      var powered := HandlePower(text, list);
      if powered.Failure? {
        return Failure(powered.error);
      }
      newText, list := powered.value.text, powered.value.cands;
    }
    ghost var pre, preText := list, newText;
    assert PrePower(text, cands) == Success(Step(preText, pre));
    var isTrig := false;
    var k := 0;
    while k < |TrigNames|
      invariant 0 <= k <= |TrigNames|
      invariant forall j :: 0 <= j < k ==> !Contains(text, TrigNames[j])
      invariant !isTrig && list == pre && newText == preText
    {
      if Contains(text, TrigNames[k]) {
        newText := BracketArgument(text);
        for i := 0 to |list|
          invariant |list| == |pre|
          invariant forall j :: 0 <= j < i ==> list[j] == Inv(TrigFns[k], pre[j])
          invariant forall j :: i <= j < |list| ==> list[j] == pre[j]
        {
          list := list[i := Inv(TrigFns[k], list[i])];
        }
        assert list == Inverted(TrigFns[k], pre);
        assert FirstTrigName(text) == Some(k);
        isTrig := true;
        break;
      }
      k := k + 1;
    }
    if !isTrig {
      assert FirstTrigName(text) == None;
    }
    r := Success(TrigStep(isTrig, newText, list));
  }

  /** The rule fails exactly when the power extraction before the name search fails; it reports
      a trigonometric term exactly when one of the names occurs, and then wraps every candidate
      in the inverse of the first name found and keeps the bracket's argument; otherwise it
      returns what the power extraction gave. */
  lemma TrigonometricMeaning(text: string, cands: seq<Expr>)
    ensures var r := Trigonometric(text, cands);
      r.Failure? <==> PrePower(text, cands).Failure?
    ensures var r := Trigonometric(text, cands);
      r.Success? ==>
        var pre := PrePower(text, cands).value;
        (r.value.isTrig <==> exists j :: 0 <= j < |TrigNames| && Contains(text, TrigNames[j])) &&
        (r.value.isTrig ==>
          var k := FirstTrigName(text).value;
          r.value.text == BracketArgument(text) && |r.value.cands| == |pre.cands| &&
          forall i :: 0 <= i < |pre.cands| ==> r.value.cands[i] == Inv(TrigFns[k], pre.cands[i])) &&
        (!r.value.isTrig ==> r.value.text == pre.text && r.value.cands == pre.cands)
  {
    if FirstTrigName(text).None? {
      assert !exists j :: 0 <= j < |TrigNames| && Contains(text, TrigNames[j]);
    }
  }

  lemma InvertedKeepsOrigin(f: Trig, cands: seq<Expr>, seed: Expr)
    requires FromSeed(cands, seed)
    ensures FromSeed(Inverted(f, cands), seed)
  {
    var r := Inverted(f, cands);
    forall c | c in r ensures Core(c) == One || Core(c) == seed {
      var i :| 0 <= i < |r| && r[i] == c;
      assert cands[i] in cands;
    }
  }

  /** The trigonometric rule keeps the origin of every candidate and may double the list. */
  lemma TrigonometricKeepsOrigin(text: string, cands: seq<Expr>, seed: Expr)
    requires FromSeed(cands, seed)
    ensures var r := Trigonometric(text, cands);
      r.Success? ==> (|r.value.cands| == |cands| || |r.value.cands| == 2 * |cands|) && FromSeed(r.value.cands, seed)
  {
    PowerKeepsOrigin(text, cands, seed);
    match PrePower(text, cands)
    case Failure(_) =>
    case Success(pre) =>
      match FirstTrigName(text)
      case None =>
      case Some(k) => InvertedKeepsOrigin(TrigFns[k], pre.cands, seed);
  }
}
