# Fixed-point iteration: candidate rewriting and the iteration loop

This project models the backend of a fixed-point iteration solver. The solver takes an equation
f(x) = 0 as LaTeX text. It rewrites each additive term of the equation into candidate
right-hand sides g(x), so that x = g(x) can be iterated. It then iterates the candidates in order
until one of them converges.

Two pieces are modelled:

- `EquationTransformer` (`backend/EquationTransformer.py`). The constructor parses and
  simplifies the equation and calls `process_equation` at the top level. `process_equation`
  walks the ordered terms of the equation. At the top level it seeds each x-bearing term with
  `equation - term`; a nested call seeds it from its own accumulator. It then runs the
  text-driven rules on it:
  `handle_negativity` (sign), `handle_coefficient` (leading numeric factor),
  `handle_trigonometric` (inverse of a trigonometric head) and `handle_power` (roots of an
  exponent). A trigonometric term recurses into the parsed argument of the function.
- `fixed_point_iteration` and the presence check of the request handler (`backend/main.py`).

The symbolic engine stays abstract. `Expressions.Engine` bundles LaTeX parsing, simplification
and numeric substitution as function-valued parameters. A candidate is syntax (`Expressions.Expr`):
the operations that built it (`equation - term`, negation, division by a coefficient,
`** (1/p)`, the plain integer 1, an inverse trigonometric function). An equation is the sequence of
its terms as the engine renders them (`Expressions.Equation`). Python's string operations that
the rules use (`find`, `rfind`, `in`, slicing with clamped and negative bounds,
`split("**")[-1]`, `float()` on decimal numerals with surrounding whitespace) are modelled in
`PyText`.

The loops of the source are methods proved against specification functions.
`HandleTrigonometric` keeps the name loop and the index loop that overwrites the list.
`ProcessEquation` keeps the term loop that extends the accumulator. `IterateCandidates` keeps
the loop over candidates and the inner step loop. `handle_power` has no loop: it builds its
lists by comprehension and extends one of them in place (line 126). It is the function
`HandlePower` on values, with the extension written as a concatenation. The properties are
proved about the specification functions.

The main results:

- A nested call (`first_time=False`) seeds every term from its own accumulator. That
  accumulator starts empty, so a nested call returns the empty list or fails
  (`NestedTransformIsEmpty`). The list built for a trigonometric term is replaced by that
  nested result, so a trigonometric term contributes nothing (`RetainedAfterRules`,
  `TopLevelIsDirect`).
- The top-level result is the in-order concatenation of per-term contributions. Each
  contribution depends only on the term and the equation (`TopLevelIsDirect`). It holds none,
  one, two or four candidates, each built from the term's seed or the plain integer 1
  (`ContributionShape`).
- The iteration returns the first step of the first candidate that meets the test. The trace
  has one entry more than the reported step number. Non-convergence means that no candidate
  meets the test within `max_iter` steps (`RunMeaning`).
- A candidate that Python computes as a plain number has no `subs`. The iteration raises
  `AttributeError` when it reaches one with steps to take (`PlainCandidateRaises`). Any
  convergence it reports is the one the loop over all candidates gives
  (`ConvergenceIgnoresPlain`).

Some consequences of the code:

- A top-level term is seeded with `equation - term` (line 22). The sign rule then negates that
  seed for a term without a leading minus.
- A nested call seeds its terms from its own accumulator, which starts empty (lines 12 and
  20). The result of a nested call is therefore always empty, and a trigonometric term
  contributes no candidate.
- An exponent is read with `float` (line 114). A non-integer exponent goes through the odd
  branch: one root per candidate, with no error. Only an exponent text that is not a number
  raises `ValueError`.
- An error while evaluating a candidate is not caught (`backend/main.py:20-23`). It ends the
  request instead of moving on to the next candidate.
- Exponent 0 replaces every candidate by the Python integer 1 (line 117). Evaluating it at
  `backend/main.py:20` raises `AttributeError`.
- `handle_trigonometric` extracts the exponent when a `)` is followed by more text, even when
  no trigonometric name is present. The text it keeps is cut two characters after the first
  place where the exponent text occurs (line 127), which can lie inside the bracket.
  `process_equation` extracts again only when that kept text still holds `**`. For `(x+1)**2`
  the whole text is kept and the square is extracted twice, giving four candidates
  (`DoubleExtraction`, `SquaredBracketTerm`). For `(x+2)**2` the digit `2` first occurs inside
  the bracket, the kept text is `(x+2)`, and the term gives two candidates
  (`SingleExtraction`, `ShiftedSquareTerm`).
- The engine renders `+` and `-` between terms with a space on each side. For
  `(x**2 + 1)**2` the exponent text `2` first occurs in the inner power, so the kept text is
  `(x**2 `. Its own exponent text is `2 `, which `float` reads as 2 because it strips the space.
  The power rule then extracts that square too, and the term gives four candidates
  (`SecondExtraction`, `SpacedSquareTerm`).

## Model

| member | source | states |
|---|---|---|
| PyText.Find | backend/EquationTransformer.py:57-58 | `str.find`: the first index where the substring occurs, and no occurrence before it; -1 exactly when it never occurs |
| PyText.RFind | backend/EquationTransformer.py:75 | `str.rfind`: the last index where the substring occurs; -1 exactly when it never occurs |
| PyText.Slice | backend/EquationTransformer.py:127 | `s[a:b]` (also lines 61, 68 and 85): negative bounds count from the end, bounds are clamped to the text, and the result is the characters from the lower to the upper bound, empty when they cross |
| PyText.SplitLast | backend/EquationTransformer.py:108-112 | `split("**")[-1]` is a suffix of the text with no separator in it, and the whole text when the separator is absent |
| PyText.SplitLastFollowsSeparator | backend/EquationTransformer.py:108-112 | when the separator occurs, the last piece directly follows an occurrence of it |
| PyText.SplitLastAfterRFind | backend/EquationTransformer.py:108-112 | when `**` occurs and `***` does not, the last piece is the text after the last `**` |
| PyText.ParseFloat | backend/EquationTransformer.py:114 | `float` strips surrounding whitespace and then accepts only a text that starts with a digit, a sign or a decimal point |
| PyText.ParseFloatPadded | backend/EquationTransformer.py:114 | a text reads the same with a space on each side: `float(" " + s + " ") == float(s)` |
| PyText.ParseFloatTrailingSpace | backend/EquationTransformer.py:114 | a text reads the same with a space after it, as the `2 ` left after the `**` of `(x**2 ` does: `float(s + " ") == float(s)` |
| PyText.FindAt | backend/EquationTransformer.py:112 | an occurrence of the substring with no earlier character equal to its first one is the index `find` returns |
| PyText.LastSeparatorAt | backend/EquationTransformer.py:108-112 | a `**` not preceded by '*' and with no '*' after it is the separator whose following text `split("**")[-1]` returns |
| PyText.ParseFloatDecimal | backend/EquationTransformer.py:114 | a decimal numeral `w.f` reads as the value of `w` plus the digits of `f` scaled by ten to their count |
| PyText.ParseFloatSignedNatText | backend/EquationTransformer.py:63 | a sign in front of a rendered natural number is read back: `float("-" + str(n)) == -n` and `float("+" + str(n)) == n` |
| PyText.ParseFloatNatText | backend/EquationTransformer.py:114 | `float` inverts the decimal rendering of a natural number: `float(str(n)) == n` |
| Rules.Negated | backend/EquationTransformer.py:47 | `[-eq for eq in list]`: same length, every element negated in place order |
| Rules.HandleNegativity | backend/EquationTransformer.py:41-52 | keeps the list length; drops exactly a leading '-'; negates every candidate exactly when "starts with '-'" differs from `first_time` |
| Rules.SignConventionsOppose | backend/EquationTransformer.py:44-50 | the top-level and the nested sign conventions give the same text and opposite candidates |
| Rules.HandleCoefficient | backend/EquationTransformer.py:55-70 | unchanged text and list exactly when no '*' precedes the first 'x' or the prefix before it is not a number; otherwise every candidate divided by that number and the text cut to start at the '*' |
| Rules.CoefficientIdempotent | backend/EquationTransformer.py:55-70 | applying the rule to its own output changes nothing |
| Rules.StarLeadsNoCoefficient | backend/EquationTransformer.py:57-65 | a text that starts with '*' has no coefficient to divide by |
| Rules.IsEvenInteger | backend/EquationTransformer.py:119 | on integer-valued exponents the float test `p % 2 == 0` is integer parity |
| Rules.PowerCands | backend/EquationTransformer.py:116-126 | exponent 0 gives the constant 1 per candidate; an even p gives the 1/p roots followed by their negations; any other p gives the 1/p roots alone |
| Rules.HandlePower | backend/EquationTransformer.py:106-129 | no `**`: text and list unchanged; otherwise it fails exactly when the text after the last `**` is not a number, and on success the list is that exponent's `PowerCands`, kept or doubled in length, and the text is the prefix `s[:s.find(piece) + 2]` of the input, with `piece` the text after the last `**`; only `ValueError` is raised |
| Rules.PowerKeepsOrigin | backend/EquationTransformer.py:116-126 | the list keeps or doubles its length and every candidate still stems from the same seed |
| Rules.FirstTrigName | backend/EquationTransformer.py:81-84 | the index of the first of sin, cos, tan, cot, sec, csc that occurs in the text, with none before it occurring; None exactly when none occurs |
| Rules.Inverted | backend/EquationTransformer.py:97-98 | every candidate wrapped in the given inverse function, length kept |
| Rules.HandleTrigonometric | backend/EquationTransformer.py:73-103 | the method (power pre-pass, name loop with `break`, in-place overwrite of the list) computes `Trigonometric` |
| Rules.TrigonometricMeaning | backend/EquationTransformer.py:73-103 | fails exactly when the pre-pass power extraction fails; reports a trigonometric term exactly when a name occurs, then wraps every candidate in the inverse of the first name and keeps the text between the first '(' and the first ')'; otherwise returns the pre-pass result |
| Rules.TrigonometricKeepsOrigin | backend/EquationTransformer.py:73-103 | the rule keeps or doubles the list and every candidate still stems from the same seed |
| EquationTransformer.Rewrite | backend/EquationTransformer.py:26-34 | the rules applied to one term raise only `ValueError`, and give one, two or four times as many candidates as they were seeded with |
| EquationTransformer.DoubleExtraction | backend/EquationTransformer.py:75-79 | a term whose text after sign and coefficient is a powered bracket without a trigonometric name, and whose first extraction keeps the whole text, has its exponent applied twice, once before the name search and once by the power rule at line 34 |
| EquationTransformer.SingleExtraction | backend/EquationTransformer.py:75-79 | when the first extraction keeps a text without `**`, the exponent is applied once and the power rule at line 34 changes nothing |
| EquationTransformer.SecondExtraction | backend/EquationTransformer.py:75-79 | when the first extraction keeps a text that still holds a numeric `**`, the outer exponent is applied first and the kept text's exponent second, by the power rule at line 34, which keeps its own slice of the kept text |
| EquationTransformer.ProcessEquation | backend/EquationTransformer.py:10-38 | the term loop computes `Transform`; a nested call returns the empty list or fails; a successful top-level call returns `DirectCandidates` |
| EquationTransformer.TransformFuel | backend/EquationTransformer.py:30-32 | a result other than `RecursionLimit` is unchanged when one more level of nested calls is allowed |
| EquationTransformer.TransformFuelBeyond | backend/EquationTransformer.py:30-32 | such a result is unchanged for every larger bound, so the bound only decides whether the recursion limit is hit |
| EquationTransformer.NestedTransformIsEmpty | backend/EquationTransformer.py:12-20 | a call with `first_time=False` returns the empty list or fails, at any depth |
| EquationTransformer.RewriteOfNothing | backend/EquationTransformer.py:26-34 | the four rules map the empty list to the empty list |
| EquationTransformer.NothingAfterRules | backend/EquationTransformer.py:30-34 | an empty rewrite leads to the empty list or to a failure, through the nested call included |
| EquationTransformer.RetainedAfterRules | backend/EquationTransformer.py:30-34 | at the top level a trigonometric term's nested call adds nothing, and a plain term adds its rewritten candidates |
| EquationTransformer.TopLevelTerm | backend/EquationTransformer.py:21-36 | at the top level what a term adds does not depend on the candidates accumulated before it |
| EquationTransformer.TopLevelIsDirect | backend/EquationTransformer.py:12-38 | a successful top-level call returns the contributions of the terms concatenated in term order |
| EquationTransformer.NoVariableNoCandidates | backend/EquationTransformer.py:25 | an equation without an x-bearing term yields the empty list, at any level |
| EquationTransformer.ContributionShape | backend/EquationTransformer.py:21-36 | a term contributes zero, one, two or four candidates, each built from its seed `equation - term` or the constant 1 |
| EquationTransformer.RewriteShape | backend/EquationTransformer.py:26-34 | the rules turn one seed into one, two or four candidates, each built from it or the constant 1 |
| EquationTransformer.SignAndCoefficientShape | backend/EquationTransformer.py:26-27 | the sign and coefficient rules keep one seed as one candidate built from it |
| EquationTransformer.NewTransformer | backend/EquationTransformer.py:5-8 | the constructor stores the simplified parse and its top-level candidates; a text the parser rejects raises |
| FixedPoint.Trace | backend/main.py:14-21 | the trace after n steps holds x_1 … x_n of the candidate from x0 |
| FixedPoint.TraceRecurrence | backend/main.py:16-26 | the first trace entry is g(x0) and every later one is g of the entry before it |
| FixedPoint.FirstHit | backend/main.py:19-24 | the first step below `max_iter` where the step length or the residual of f at x_n is below tol; None exactly when no such step exists |
| FixedPoint.Winner | backend/main.py:12-27 | the first candidate, in list order, that meets the test within `max_iter` steps; every earlier one never meets it |
| FixedPoint.RunMeaning | backend/main.py:12-29 | on convergence: trace length is iterations + 1, iterations < max_iter, root is the last trace entry, the step is the first that meets the test, every earlier candidate never meets it; non-convergence exactly when no candidate meets the test; an empty list or max_iter <= 0 never converges |
| FixedPoint.IterateCandidates | backend/main.py:12-29 | the loop over candidates with its inner step loop computes `Run` |
| Backend.Evaluations | backend/main.py:13-20 | each candidate is turned into its numeric evaluation, order and length kept |
| Backend.FirstPlain | backend/main.py:12-20 | the index of the first candidate that is a plain number, with none before it; the length when there is none |
| Backend.FixedPointIteration | backend/main.py:9-29 | builds the transformer, then iterates the top-level candidates of the simplified equation in order; a transformer exception escapes unchanged, and so does the `AttributeError` of reaching a plain-number candidate |
| Backend.IterateWithoutPlain | backend/main.py:12-29 | without a plain-number candidate every candidate is iterated and the result is `Run` over all of them |
| Backend.PlainCandidateRaises | backend/main.py:20 | a plain-number candidate raises `AttributeError` when no earlier candidate meets the test and `max_iter` is positive |
| Backend.ConvergenceIgnoresPlain | backend/main.py:12-24 | a reported convergence is the one the loop over all candidates gives |
| Backend.WinnerOfPrefix | backend/main.py:12-24 | the first candidate of a prefix that meets the test is the first of the whole list |
| Backend.Respond | backend/main.py:24-29 | a result of the iteration is never the invalid-input answer |
| Backend.ApiFixedPointIteration | backend/main.py:35-43 | the invalid-input answer exactly when the function text is missing or empty or another field is missing; otherwise the answer of `fixed_point_iteration` |
| Scenarios.EvenPowerTerm | backend/EquationTransformer.py:116-126 | the term `x**4` contributes the fourth root of its negated seed and that root's negation |
| Scenarios.SineTerm | backend/EquationTransformer.py:28-32 | the rules turn `sin(x)` into asin of the negated seed with argument `x`, and the term contributes nothing |
| Scenarios.BracketPrePower | backend/EquationTransformer.py:75-79 | for `(x+1)**2` the trigonometric rule already extracts the square before any name search |
| Scenarios.PlainDoubleContribution | backend/EquationTransformer.py:75-79 | a powered bracket with 'x', no sign and no coefficient contributes its negated seed with the exponent applied twice |
| Scenarios.SquaredBracketTerm | backend/EquationTransformer.py:116-126 | `(x+1)**2` contributes four candidates: both square roots of both square roots of its negated seed |
| Scenarios.PlainSingleContribution | backend/EquationTransformer.py:127 | an unsigned bracket with 'x' and no coefficient, whose kept text has no `**` left, contributes its negated seed powered once |
| Scenarios.ShiftedSquareTerm | backend/EquationTransformer.py:127 | `(x+2)**2` keeps only `(x+2)` and contributes two candidates: the square root of its negated seed and its negation |
| Scenarios.PlainRepoweredContribution | backend/EquationTransformer.py:127 | an unsigned bracket with 'x' and no coefficient, whose kept text still holds a numeric `**`, contributes its negated seed powered by the outer exponent and then by the inner one |
| Scenarios.SpacedSquareTerm | backend/EquationTransformer.py:113-114 | `(x**2 + 1)**2` keeps `(x**2 `, reads its exponent text `2 ` as 2, and contributes four candidates: both square roots of both square roots of its negated seed |

## Left out

- The frontend (Tkinter, plotting, the HTTP client) and the Flask routing and JSON encoding: they are user interface and I/O.
- The symbolic engine: `parse_latex`, `simplify`, `as_ordered_terms`, `str` of a term, `subs` and the meaning of the inverse functions and powers. They are parameters of the model (`Expressions.Engine`), so no algebraic claim such as g(r) = r at a root is made.
- Floating point: values are Dafny `real`s, so rounding, overflow, NaN and infinities are not modelled.
- PyText.ParseFloat: accepts only an optionally signed decimal numeral, after stripping the ASCII whitespace characters (space, tab, line feed, vertical tab, form feed, carriage return). Python's `float` also accepts exponents, `inf`, `nan` and digit underscores, and strips non-ASCII whitespace too; such coefficients or exponents are treated as non-numbers here.
- Rules.HandleNegativity: requires a non-empty text. Python raises `IndexError` on an empty text, which cannot reach the rule because callers only pass texts containing 'x'.
- EquationTransformer.Transform: nesting depth is bounded by a `fuel` parameter, and running out gives `RecursionLimit`. It stands for Python's recursion limit: any other result stays the same under every larger bound (`TransformFuel`, `TransformFuelBeyond`). The depth at which Python actually stops is not modelled.
- Backend.Evaluations: a substitution that is complex or undefined makes `float()` raise in the source, and nothing catches it. The model treats every evaluation of a symbolic candidate as a real function and does not model that exception. A plain-number candidate is not evaluated; reaching it raises `AttributeError` (`Backend.PlainCandidateRaises`).
- Backend.ApiFixedPointIteration: the JSON types of the fields are not checked. A request field is either absent or holds a value of the expected type.
- In-place mutation and aliasing of Python lists are modelled on values. `equation_list` is a sequence that the methods reassign, and no list is shared between calls. The in-place `extend` of `handle_power` (line 126) is a concatenation in the function `Rules.HandlePower`.
