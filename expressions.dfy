/** What the transformer sees of the symbolic expression engine (sympy): an equation as its
    ordered additive terms, candidate right-hand sides g(x) as syntax, and the engine's own
    operations (LaTeX parsing, simplification, numeric substitution) as opaque functions. */
module Expressions {
  import opened Outcomes

  /** The six trigonometric heads the transformer recognises, with their principal inverses
      asin, acos, atan, acot, asec and acsc. */
  datatype Trig = Sin | Cos | Tan | Cot | Sec | Csc

  /** An expression as `as_ordered_terms()` presents it: its additive terms in the engine's
      canonical order, each as `str` renders it. */
  datatype Equation = Equation(terms: seq<string>)

  /** A candidate g(x), as the symbolic operations that built it. */
  datatype Expr =
    | Whole(eq: Equation)           // the equation itself
    | TermOf(text: string)          // one of its terms
    | Sub(left: Expr, right: Expr)  // left - right
    | Neg(arg: Expr)                // -arg
    | Div(arg: Expr, divisor: real) // arg / divisor
    | Root(arg: Expr, power: real)  // arg ** (1 / power)
    | One                           // the plain Python integer 1
    | Inv(fn: Trig, arg: Expr)      // the principal inverse of fn applied to arg

  /** The engine's operations, which this model does not look inside.
      parse: `parse_latex`, None where it raises.
      simplify: sympy's `simplify`.
      eval: `float(g.subs(x, v))` for a candidate g.
      evalLatex: `parse_latex(text).subs(x, v)`, the residual of the original equation. */
  datatype Engine = Engine(
    parse: string -> Option<Equation>,
    simplify: Equation -> Equation,
    eval: Expr -> real -> real,
    evalLatex: string -> real -> real)

  /** A candidate that Python computes as a plain number rather than a symbolic expression:
      the integer 1 and what negation, division and roots make of it. Such a value has no
      `subs` method. */
  predicate PlainNumber(c: Expr) {
    match c
    case One => true
    case Neg(a) => PlainNumber(a)
    case Div(a, _) => PlainNumber(a)
    case Root(a, _) => PlainNumber(a)
    case _ => false
  }

  /** The subexpression a candidate was built from, below the wrappers the rules add
      (negation, division by a coefficient, a root, an inverse trigonometric function). */
  function Core(c: Expr): Expr {
    match c
    case Neg(a) => Core(a)
    case Div(a, _) => Core(a)
    case Root(a, _) => Core(a)
    case Inv(_, a) => Core(a)
    case _ => c
  }
}
