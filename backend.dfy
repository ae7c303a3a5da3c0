/** The request handler and `fixed_point_iteration` of the backend: build the transformer from
    the equation text, evaluate its candidates numerically, and iterate them in order. */
module Backend {
  import opened Outcomes
  import opened Expressions
  import opened EquationTransformer
  import opened FixedPoint

  /** The JSON fields the handler reads; a missing field is None. */
  datatype Request = Request(
    fx: Option<string>,
    initialGuess: Option<real>,
    tolerance: Option<real>,
    maxIterations: Option<int>)

  /** The JSON object the handler answers with. `Raised` stands for an exception that escapes
      the handler, which the web framework turns into a server error. */
  datatype Response =
    | Found(root: real, iterations: nat, allIterations: seq<real>)
    | Message(message: string)
    | Invalid(error: string)
    | Raised(exception: Error)

  const NonConvergenceMessage := "Did not converge within the maximum number of iterations."
  const InvalidInputError := "Invalid input parameters."

  /** The equation text is present and non-empty, and the guess, the tolerance and the
      iteration bound are all present. */
  predicate RequestComplete(req: Request) {
    req.fx.Some? && |req.fx.value| > 0 &&
    req.initialGuess.Some? && req.tolerance.Some? && req.maxIterations.Some?
  }

  /** The candidates as real functions, `x -> float(g.subs(x, value))`, in the same order. */
  function Evaluations(engine: Engine, cands: seq<Expr>): (gs: seq<real -> real>)
    ensures |gs| == |cands| && forall i :: 0 <= i < |cands| ==> gs[i] == engine.eval(cands[i])
  {
    seq(|cands|, i requires 0 <= i < |cands| => engine.eval(cands[i]))
  }

  /** The index of the first candidate that is a plain number, or the number of candidates. */
  function FirstPlain(cands: seq<Expr>): (k: nat)
    ensures k <= |cands|
    ensures k < |cands| ==> PlainNumber(cands[k])
    ensures forall j :: 0 <= j < k ==> !PlainNumber(cands[j])
  {
    if cands == [] then 0
    else if PlainNumber(cands[0]) then 0
    else 1 + FirstPlain(cands[1..])
  }

  /** The attribute a plain number lacks. */
  const NoSubs := "subs"

  /** The outcome of the candidate loop of `fixed_point_iteration`. The candidates before the
      first plain number are iterated as real functions; when none of them converges and the
      loop reaches the plain number with at least one step to take, `g_x.subs` raises. */
  function Iterate(cands: seq<Expr>, fx: string, x0: real, tol: real, maxIter: int, engine: Engine)
    : Result<Outcome>
  {
    var k := FirstPlain(cands);
    var before := Run(Evaluations(engine, cands[..k]), engine.evalLatex(fx), x0, tol, maxIter);
    if before.NotConverged? && k < |cands| && maxIter > 0 then Failure(AttributeError(NoSubs))
    else Success(before)
  }

  /** What `fixed_point_iteration` returns or raises. */
  function Solve(fx: string, x0: real, tol: real, maxIter: int, engine: Engine, fuel: nat): Result<Outcome> {
    match Build(fx, engine, fuel)
    case Failure(e) => Failure(e)
    case Success(t) => Iterate(t.transformed, fx, x0, tol, maxIter, engine)
  }

  /** `fixed_point_iteration`: the candidates it iterates are exactly the top-level candidates of
      the simplified equation, in order; an exception of the transformer escapes unchanged, and
      so does the one raised on reaching a plain-number candidate. */
  method FixedPointIteration(fx: string, x0: real, tol: real, maxIter: int, engine: Engine, fuel: nat)
    returns (r: Result<Outcome>)
    ensures r == Solve(fx, x0, tol, maxIter, engine, fuel)
    ensures Build(fx, engine, fuel).Failure? ==> r == Failure(Build(fx, engine, fuel).error)
    ensures Build(fx, engine, fuel).Success? ==>
      r == Iterate(DirectCandidates(Build(fx, engine, fuel).value.original), fx, x0, tol, maxIter, engine)
  {
    var transformer := NewTransformer(fx, engine, fuel);
    if transformer.Failure? {
      return Failure(transformer.error);
    }
    var cands := transformer.value.transformed;
    var k := FirstPlain(cands);
    var gs := Evaluations(engine, cands[..k]);
    var outcome := IterateCandidates(gs, engine.evalLatex(fx), x0, tol, maxIter);
    if outcome.NotConverged? && k < |cands| && maxIter > 0 {
      return Failure(AttributeError(NoSubs));
    }
    r := Success(outcome);
  }

  /** Without a plain-number candidate the loop runs over every candidate. */
  lemma IterateWithoutPlain(cands: seq<Expr>, fx: string, x0: real, tol: real, maxIter: int, engine: Engine)
    requires forall i :: 0 <= i < |cands| ==> !PlainNumber(cands[i])
    ensures Iterate(cands, fx, x0, tol, maxIter, engine) ==
      Success(Run(Evaluations(engine, cands), engine.evalLatex(fx), x0, tol, maxIter))
  {
    assert cands[..|cands|] == cands;
  }

  /** Reaching a plain-number candidate with steps to take raises: the loop gets there when no
      candidate before it meets the test. */
  lemma {:induction false} PlainCandidateRaises(cands: seq<Expr>, i: nat, fx: string, x0: real, tol: real, maxIter: int, engine: Engine)
    requires i < |cands| && PlainNumber(cands[i]) && maxIter > 0
    requires forall j :: 0 <= j < i ==> FirstHit(engine.eval(cands[j]), engine.evalLatex(fx), x0, tol, maxIter).None?
    ensures Iterate(cands, fx, x0, tol, maxIter, engine) == Failure(AttributeError(NoSubs))
  {
    var k := FirstPlain(cands);
    var gs := Evaluations(engine, cands[..k]);
    var f := engine.evalLatex(fx);
    RunMeaning(gs, f, x0, tol, maxIter);
    forall j, n | 0 <= j < k && 0 <= n < maxIter ensures !Meets(gs[j], f, x0, tol, n) {
      assert gs[j] == engine.eval(cands[j]);
    }
  }

  /** A convergence the loop reports is the one it would report over all candidates: a
      plain-number candidate only ever cuts the loop short by raising. */
  lemma {:induction false} ConvergenceIgnoresPlain(cands: seq<Expr>, fx: string, x0: real, tol: real, maxIter: int, engine: Engine)
    ensures var r := Iterate(cands, fx, x0, tol, maxIter, engine);
      r.Success? && r.value.Converged? ==>
        r.value == Run(Evaluations(engine, cands), engine.evalLatex(fx), x0, tol, maxIter)
  {
    var k := FirstPlain(cands);
    var pre, all := Evaluations(engine, cands[..k]), Evaluations(engine, cands);
    var f := engine.evalLatex(fx);
    assert forall j :: 0 <= j < k ==> pre[j] == all[j];
    var w := Winner(pre, f, x0, tol, maxIter);
    if w.Some? {
      WinnerOfPrefix(pre, all, f, x0, tol, maxIter);
    }
  }

  /** The first candidate of a prefix that meets the test is also the first of the whole list. */
  lemma WinnerOfPrefix(pre: seq<real -> real>, all: seq<real -> real>, f: real -> real, x0: real, tol: real, maxIter: int)
    requires |pre| <= |all| && forall j :: 0 <= j < |pre| ==> pre[j] == all[j]
    requires Winner(pre, f, x0, tol, maxIter).Some?
    ensures Winner(all, f, x0, tol, maxIter) == Winner(pre, f, x0, tol, maxIter)
  {
    var i := Winner(pre, f, x0, tol, maxIter).value;
    assert all[i] == pre[i];
    assert forall j :: 0 <= j < i ==> all[j] == pre[j];
  }

  /** The JSON answer for what `fixed_point_iteration` returned or raised. */
  function Respond(r: Result<Outcome>): (resp: Response)
    ensures !resp.Invalid?
  {
    match r
    case Failure(e) => Raised(e)
    case Success(Converged(root, n, trace)) => Found(root, n, trace)
    case Success(NotConverged) => Message(NonConvergenceMessage)
  }

  /** `api_fixed_point_iteration`: an incomplete request is answered with the error object
      before any computation; a complete one with the iteration's result. */
  method ApiFixedPointIteration(req: Request, engine: Engine, fuel: nat) returns (resp: Response)
    ensures resp.Invalid? <==> !RequestComplete(req)
    ensures !RequestComplete(req) ==> resp == Invalid(InvalidInputError)
    ensures RequestComplete(req) ==>
      resp == Respond(Solve(req.fx.value, req.initialGuess.value, req.tolerance.value, req.maxIterations.value, engine, fuel))
  {
    if RequestComplete(req) {
      var result := FixedPointIteration(req.fx.value, req.initialGuess.value, req.tolerance.value,
                                        req.maxIterations.value, engine, fuel);
      resp := Respond(result);
    } else {
      resp := Invalid(InvalidInputError);
    }
  }
}
