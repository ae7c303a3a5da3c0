/** The iteration loop of `fixed_point_iteration`: the candidates are tried in order; each one
    restarts from x0 with an empty trace and steps x_{n+1} = g(x_n) at most `maxIter` times,
    stopping at the first step where |x_{n+1} - x_n| < tol or |f(x_n)| < tol. Candidates and the
    original equation are given as their numeric evaluations. */
module FixedPoint {
  import opened Outcomes

  function Abs(v: real): (r: real)
    ensures r >= 0.0 && (r == v || r == -v)
  {
    if v < 0.0 then -v else v
  }

  /** x_n: the approximation after n steps of g from x0. */
  function Approx(g: real -> real, x0: real, n: nat): real {
    if n == 0 then x0 else g(Approx(g, x0, n - 1))
  }

  /** The values a candidate appends after n steps: x_1, ..., x_n. */
  function Trace(g: real -> real, x0: real, n: nat): (t: seq<real>)
    ensures |t| == n && forall j :: 0 <= j < n ==> t[j] == Approx(g, x0, j + 1)
  {
    if n == 0 then [] else Trace(g, x0, n - 1) + [Approx(g, x0, n)]
  }

  /** Step k of candidate g meets the test: the step is shorter than tol, or the residual of the
      original equation at x_k (the point the step starts from) is below tol. */
  predicate Meets(g: real -> real, f: real -> real, x0: real, tol: real, k: nat) {
    Abs(Approx(g, x0, k + 1) - Approx(g, x0, k)) < tol || Abs(f(Approx(g, x0, k))) < tol
  }

  /** The first step of g below `maxIter` that meets the test, if any. */
  function FirstHit(g: real -> real, f: real -> real, x0: real, tol: real, maxIter: int): (r: Option<nat>)
    ensures r.Some? ==> (r.value < maxIter && Meets(g, f, x0, tol, r.value) &&
      forall j :: 0 <= j < r.value ==> !Meets(g, f, x0, tol, j))
    ensures r.None? ==> forall j :: 0 <= j < maxIter ==> !Meets(g, f, x0, tol, j)
  {
    FirstHitFrom(g, f, x0, tol, maxIter, 0)
  }

  function FirstHitFrom(g: real -> real, f: real -> real, x0: real, tol: real, maxIter: int, k: nat)
    : (r: Option<nat>)
    decreases maxIter - k
    ensures r.Some? ==> (k <= r.value < maxIter && Meets(g, f, x0, tol, r.value) &&
      forall j :: k <= j < r.value ==> !Meets(g, f, x0, tol, j))
    ensures r.None? ==> forall j :: k <= j < maxIter ==> !Meets(g, f, x0, tol, j)
  {
    if k >= maxIter then None
    else if Meets(g, f, x0, tol, k) then Some(k)
    else FirstHitFrom(g, f, x0, tol, maxIter, k + 1)
  }

  /** The first candidate that meets the test within `maxIter` steps, if any. */
  function Winner(gs: seq<real -> real>, f: real -> real, x0: real, tol: real, maxIter: int): (r: Option<nat>)
    ensures r.Some? ==> (r.value < |gs| && FirstHit(gs[r.value], f, x0, tol, maxIter).Some? &&
      forall i :: 0 <= i < r.value ==> FirstHit(gs[i], f, x0, tol, maxIter).None?)
    ensures r.None? ==> forall i :: 0 <= i < |gs| ==> FirstHit(gs[i], f, x0, tol, maxIter).None?
  {
    WinnerFrom(gs, f, x0, tol, maxIter, 0)
  }

  function WinnerFrom(gs: seq<real -> real>, f: real -> real, x0: real, tol: real, maxIter: int, i: nat)
    : (r: Option<nat>)
    requires i <= |gs|
    decreases |gs| - i
    ensures r.Some? ==> (i <= r.value < |gs| && FirstHit(gs[r.value], f, x0, tol, maxIter).Some? &&
      forall j :: i <= j < r.value ==> FirstHit(gs[j], f, x0, tol, maxIter).None?)
    ensures r.None? ==> forall j :: i <= j < |gs| ==> FirstHit(gs[j], f, x0, tol, maxIter).None?
  {
    if i == |gs| then None
    else if FirstHit(gs[i], f, x0, tol, maxIter).Some? then Some(i)
    else WinnerFrom(gs, f, x0, tol, maxIter, i + 1)
  }

  /** The function's result: the root, the number of the converging step and the trace, or the
      non-convergence outcome, which carries no trace. */
  datatype Outcome = Converged(root: real, iterations: nat, trace: seq<real>) | NotConverged

  /** The outcome the loop of `fixed_point_iteration` reaches. */
  function Run(gs: seq<real -> real>, f: real -> real, x0: real, tol: real, maxIter: int): Outcome {
    match Winner(gs, f, x0, tol, maxIter)
    case None => NotConverged
    case Some(i) =>
      var n := FirstHit(gs[i], f, x0, tol, maxIter).value;
      Converged(Approx(gs[i], x0, n + 1), n, Trace(gs[i], x0, n + 1))
  }

  /** Consecutive trace entries are consecutive steps of the candidate from x0. */
  lemma {:induction false} TraceRecurrence(g: real -> real, x0: real, n: nat)
    ensures n > 0 ==> Trace(g, x0, n)[0] == g(x0)
    ensures forall j :: 0 < j < n ==> Trace(g, x0, n)[j] == g(Trace(g, x0, n)[j - 1])
  {
    var t := Trace(g, x0, n);
    if n > 0 {
      assert t[0] == Approx(g, x0, 1) == g(Approx(g, x0, 0));
    }
    forall j | 0 < j < n ensures t[j] == g(t[j - 1]) {
      assert t[j] == Approx(g, x0, j + 1) == g(Approx(g, x0, j));
    }
  }

  /** What the outcome promises: a convergence reports the first step of the first candidate
      that meets the test, with the trace of that candidate alone, and non-convergence means
      that no candidate meets the test within `maxIter` steps. */
  lemma RunMeaning(gs: seq<real -> real>, f: real -> real, x0: real, tol: real, maxIter: int)
    ensures var r := Run(gs, f, x0, tol, maxIter);
      r.Converged? ==>
        var i := Winner(gs, f, x0, tol, maxIter).value;
        |r.trace| == r.iterations + 1 && r.iterations < maxIter && r.root == r.trace[r.iterations] &&
        (forall j :: 0 <= j < |r.trace| ==> r.trace[j] == Approx(gs[i], x0, j + 1)) &&
        Meets(gs[i], f, x0, tol, r.iterations) &&
        (forall j :: 0 <= j < r.iterations ==> !Meets(gs[i], f, x0, tol, j)) &&
        (forall j :: 0 <= j < i ==> forall k :: 0 <= k < maxIter ==> !Meets(gs[j], f, x0, tol, k))
    ensures Run(gs, f, x0, tol, maxIter) == NotConverged <==>
      forall i :: 0 <= i < |gs| ==> forall k :: 0 <= k < maxIter ==> !Meets(gs[i], f, x0, tol, k)
    ensures |gs| == 0 || maxIter <= 0 ==> Run(gs, f, x0, tol, maxIter) == NotConverged
  {
    match Winner(gs, f, x0, tol, maxIter)
    case None =>
    case Some(i) =>
      var hit := FirstHit(gs[i], f, x0, tol, maxIter);
      assert hit.Some?;
      forall j | 0 <= j < i ensures forall k :: 0 <= k < maxIter ==> !Meets(gs[j], f, x0, tol, k) {
        assert FirstHit(gs[j], f, x0, tol, maxIter).None?;
      }
  }

  /** The loop of `fixed_point_iteration` over the candidate evaluations `gs`, with `f` the
      evaluation of the original equation. */
  method IterateCandidates(gs: seq<real -> real>, f: real -> real, x0: real, tol: real, maxIter: int)
    returns (r: Outcome)
    ensures r == Run(gs, f, x0, tol, maxIter)
  {
    for i := 0 to |gs|
      invariant forall j :: 0 <= j < i ==> FirstHit(gs[j], f, x0, tol, maxIter).None?
    {
      var g := gs[i];
      var iterations: seq<real> := [];
      var xn := x0;
      var count := 0;
      while count < maxIter
        invariant 0 <= count && (maxIter >= 0 ==> count <= maxIter)
        invariant xn == Approx(g, x0, count) && iterations == Trace(g, x0, count)
        invariant forall j :: 0 <= j < count ==> !Meets(g, f, x0, tol, j)
      {
        var xn1 := g(xn);
        iterations := iterations + [xn1];
        if Abs(xn1 - xn) < tol || Abs(f(xn)) < tol {
          assert Meets(g, f, x0, tol, count);
          assert FirstHit(g, f, x0, tol, maxIter) == Some(count);
          assert Winner(gs, f, x0, tol, maxIter) == Some(i);
          return Converged(xn1, count, iterations);
        }
        xn := xn1;
        count := count + 1;
      }
      assert FirstHit(g, f, x0, tol, maxIter).None?;
    }
    assert Winner(gs, f, x0, tol, maxIter).None?;
    return NotConverged;
  }
}
