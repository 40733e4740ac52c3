# RusitApp root-finding engine, modelled in Dafny

RusitApp is an educational calculator. Each method page takes a function typed
by the user, a few numbers (an interval or starting points, a tolerance `tol`,
an iteration cap `maxIter`) and, when "run" is pressed, fills a table with one
row per iteration and shows an approximate root or an error message. This
project models the `run` of four pages: regula falsi (false position),
Newton–Raphson, secant and fixed-point iteration. It also models the display
helper `roundTo` that all four pages share.

How the model is laid out:

- `numeric.dfy` (module `Numeric`) defines numbers. A JavaScript number is
  `Fin(v)` with `v` an exact `real`, or `NonFinite`, which stands for NaN and
  both infinities. Arithmetic propagates `NonFinite` the way NaN propagates.
  Every comparison with `NonFinite` is false. A user function is a
  `RealFn = Num -> Num`.
- `outcome.dfy` (module `Runs`) defines what a run leaves behind. The table
  rows, the root and the error message become one `Outcome`:
  `Converged(root, trace)`, `Exhausted(best, trace)` with `best` null when
  there are no rows, or `Failed(reason, trace)`. There is one `Failure`
  constructor per message the pages show. `Message` gives that text; it is
  display text only and no contract uses it.
- `false_position.dfy`, `newton.dfy`, `secant.dfy` and `fixed_point.dfy`
  hold one module per page. Each has:
  - the page's `Row` record;
  - `Run`, a method whose `while` loop builds the rows as the page's `for`
    loop does, carrying the same variables (`prev` included);
  - a relational specification: `IsStep` says how row `j` follows from row
    `j - 1`, and `Reports` says when the run stops and what it reports;
  - lemmas about that specification.

  `Run`'s postconditions state the validation gates in the source's order.
  For inputs that pass them, `Run`'s postconditions state `Reports`.
  `ReportsDetermined` proves that `Reports` allows at most one outcome, and
  `Run` produces one. So, for a user function that never throws and always
  answers the same for the same input, a run depends only on its inputs.
- `display.dfy` (module `Display`) models `roundTo` and its bounds.
- `examples_runs.dfy` (module `Examples`) holds concrete runs. Each outcome
  follows from the `Run` contracts alone.

Behaviours of the code that the model keeps as written:

- The regula-falsi loop (`false-position/page.tsx:97-119`) never checks that
  `f(xr)` is finite. A NaN `f(xr)` is stored in the row and moves the left end
  of the bracket.
- Newton's exact-zero test looks at `f(xi)` at the old point
  (`newton/page.tsx:98`). The fixed-point page has no exact-zero test
  (`fixed-point/page.tsx:79`).
- `Failure` has one constructor per message the pages set. Newton, secant and
  fixed point each have their own "not finite" message.

## Model

| member | source | states |
|---|---|---|
| `FalsePosition.Run` | rusitapp/src/app/false-position/page.tsx:54-123 | Non-finite `a`, `b`, `tol` or `maxIter` fails first. Then `a >= b` fails, then `tol <= 0` fails; each of these leaves no rows. Next come the end-point gates, in order: a non-finite `f(a)` or `f(b)` fails; `f(a) == 0` converges to `a` with no rows, checked before `f(b)`; `f(b) == 0` converges to `b` with no rows; `f(a)*f(b) > 0` fails. Otherwise the run satisfies `Reports`: rows numbered `1..k` with `k <= maxIter`; row 1 on `[a, b]` with `err = |b - a|`; each later row on the narrowed bracket with `err = |xr_i - xr_{i-1}|`; the run stops at the first row where `f(xr) == 0` or `err < tol`, that row included, and its `xr` is the root; otherwise the run is exhausted after exactly `max(maxIter, 0)` rows, with the last `xr` as root, or null when there are no rows |
| `FalsePosition.EstimateInside` | rusitapp/src/app/false-position/page.tsx:98 | Over exact reals, if `left < right` and `fa*fb < 0`, then `xr = right - fb*(right-left)/(fb-fa)` is finite and lies strictly between `left` and `right` |
| `FalsePosition.SignCarries` | rusitapp/src/app/false-position/page.tsx:110-116 | If `fa*fb < 0`, `fa*fxr` is not negative and `fxr != 0`, then `fxr*fb < 0`. So moving the left end to `xr` keeps a sign change |
| `FalsePosition.EndValues` | rusitapp/src/app/false-position/page.tsx:74-116 | In every row, `fa == f(a)` and `fb == f(b)`, whatever `f` answers, non-finite values included |
| `FalsePosition.BracketInvariant` | rusitapp/src/app/false-position/page.tsx:97-119 | Suppose every earlier `f(xr)` was finite. Then every row of a run that passed the end-point gates has finite ends with `a < b`, `fa == f(a)`, `fb == f(b)` and `fa*fb < 0`, and its `xr` lies strictly inside `(a, b)` |
| `FalsePosition.ReportsDetermined` | rusitapp/src/app/false-position/page.tsx:94-122 | Two outcomes that both satisfy `Reports` for the same inputs are equal |
| `Newton.Run` | rusitapp/src/app/newton/page.tsx:62-110 | Non-finite `x0`, `tol` or `maxIter` fails first, then `tol <= 0` fails; each leaves no rows. Otherwise the run satisfies `Reports`: rows numbered `1..k` with `k <= maxIter`; row 1 has `xi = x0`; each later `xi` is the previous row's `xi1`; every row has finite `f(xi)` and `f'(xi)`, `f'(xi) != 0`, `xi1 = xi - f(xi)/f'(xi)` and `err = |xi1 - xi|` (because `prev` always equals `xi`). The run converges at the first row with `f(xi) == 0` or `err < tol`, with root `xi1`. It fails when the next point has a non-finite `f` or `f'`, or `f' == 0`; the rows made before are kept, no row is added, and the root stays null. Otherwise it is exhausted after `max(maxIter, 0)` rows with root the last `xi1`, or null |
| `Newton.StepIsTangentZero` | rusitapp/src/app/newton/page.tsx:93 | Each row's `xi1` is the zero of the tangent at `xi`: `f(xi) + f'(xi)*(xi1 - xi) == 0` |
| `Newton.BlockedAtStart` | rusitapp/src/app/newton/page.tsx:80-92 | If the first iteration is blocked (non-finite values or `f'(x0) == 0`) and `maxIter >= 1`, the run fails with that reason and no rows |
| `Newton.ReportsDetermined` | rusitapp/src/app/newton/page.tsx:76-109 | Two outcomes that both satisfy `Reports` for the same inputs are equal |
| `Secant.Run` | rusitapp/src/app/secant/page.tsx:53-102 | Non-finite `x0`, `x1`, `tol` or `maxIter` fails first, then `tol <= 0` fails; each leaves no rows. Otherwise the run satisfies `Reports`: rows numbered `1..k` with `k <= maxIter`. Row 1 uses the pair `(x0, x1)`. Row `k+1` has `x0`, `fx0` equal to row `k`'s `x1`, `fx1`, and `x1` equal to row `k`'s `x2`, with `fx1 = f(x2)`. Every row has `fx1 - fx0 != 0`, `x2 = x1 - fx1*(x1-x0)/(fx1-fx0)` and `err = |x2 - x1|`, the first row included. The run converges at the first row with `f(x2) == 0` or `err < tol`, with root `x2`. It fails, keeping the earlier rows and adding none, when the next pair has a non-finite value or equal values. Otherwise it is exhausted after `max(maxIter, 0)` rows with root the last `x2`, or null; in that case the finiteness check is never reached |
| `Secant.StepIsSecantZero` | rusitapp/src/app/secant/page.tsx:84 | Each row's two points differ, and `x2` is the zero of the line through `(x0, fx0)` and `(x1, fx1)` |
| `Secant.BlockedAtStart` | rusitapp/src/app/secant/page.tsx:73-83 | If the first pair is blocked (for example a constant `f`) and `maxIter >= 1`, the run fails with that reason and no rows |
| `Secant.ReportsDetermined` | rusitapp/src/app/secant/page.tsx:67-101 | Two outcomes that both satisfy `Reports` for the same inputs are equal |
| `FixedPoint.Run` | rusitapp/src/app/fixed-point/page.tsx:49-90 | Non-finite `x0`, `tol` or `maxIter` fails first, then `tol <= 0` fails; each leaves no rows. Otherwise the run satisfies `Reports`: rows numbered `1..k` with `k <= maxIter`; row 1 has `xi = x0`; each later `xi` is the previous row's (finite) `gxi`; every row has `gxi = g(xi)` and `err = |gxi - xi|` (because `prev` always equals `xi`). A non-finite `g(xi)` is recorded as the last row and fails the run, with a null root. The only convergence test is `err < tol`, with root that row's `gxi`. Otherwise the run is exhausted after `max(maxIter, 0)` rows with root the last `gxi`, or null |
| `FixedPoint.StartOnFixedPoint` | rusitapp/src/app/fixed-point/page.tsx:67-83 | Starting on a fixed point of `g` converges at the single row `(1, x0, x0, 0)` with root `x0` |
| `FixedPoint.ReportsDetermined` | rusitapp/src/app/fixed-point/page.tsx:63-89 | Two outcomes that both satisfy `Reports` for the same inputs are equal |
| `Display.RoundTo` | rusitapp/src/app/false-position/page.tsx:33-37 | A non-finite value is returned unchanged and a finite value stays finite. The same helper appears at `newton/page.tsx:31-35`, `secant/page.tsx:32-36` and `fixed-point/page.tsx:28-32` |
| `Display.NegativePlacesAsZero` | rusitapp/src/app/false-position/page.tsx:35 | A negative digit count in the 32-bit range, or a non-finite one, rounds like 0 digits |
| `Display.OnGrid` | rusitapp/src/app/false-position/page.tsx:35-36 | In either mode the shown value has at most `d` decimal places: `r * 10^d` is a whole number |
| `Display.TruncBounds` | rusitapp/src/app/false-position/page.tsx:36 | `trunc` gives a value with at most `d` decimal places that never moves away from zero (`|r| <= |x|`) and loses less than one unit of the last digit kept (`|x - r| < 10^-d`); these together single out the multiple of `10^-d` nearest `x` toward zero |
| `Display.ApproxBound` | rusitapp/src/app/false-position/page.tsx:36 | `approx` gives a value with at most `d` decimal places within half a unit of the last digit kept (`|x - r| <= 10^-d / 2`), so a nearest multiple of `10^-d` |
| `Display.RoundToIdempotent` | rusitapp/src/app/false-position/page.tsx:33-37 | Rounding a value already rounded with the same digits and mode changes nothing |
| `Display.TruncIntBounds` | rusitapp/src/app/false-position/page.tsx:36 | `Math.trunc(y)` is within 1 of `y` and no larger in magnitude |
| `Display.RoundHalfUpBound` | rusitapp/src/app/false-position/page.tsx:36 | `Math.round(y)` is within 1/2 of `y` |
| `Examples.RootAtRightEnd` | rusitapp/src/app/false-position/page.tsx:85-88 | Regula falsi on `x - 3` over `[0, 3]` converges to 3 with no rows |
| `Examples.FlatStart` | rusitapp/src/app/newton/page.tsx:88-92 | Newton on `x^2 + 1` with derivative `2x` from 0 fails with the zero-derivative reason and no rows |
| `Examples.ConstantFunction` | rusitapp/src/app/secant/page.tsx:79-83 | The secant method on the constant 5 fails with the zero-denominator reason and no rows |
| `Examples.StartAtFixedPoint` | rusitapp/src/app/fixed-point/page.tsx:79-83 | Fixed-point iteration of `x / 2` from 0 converges at the first row to 0 |
| `Examples.NoIterations` | rusitapp/src/app/newton/page.tsx:108-109 | With `maxIter = 0` the run is exhausted with no rows and a null root |

No `Run` takes a digit count or a rounding mode. So formatting cannot change
which outcome a run reaches or the unrounded root it reports.

## Left out

- Compiling the typed expression (`parseFunction`: `new Function` under
  `with (Math)`) is left out, with the `useMemo`/`try` wrappers around it.
  User functions are parameters of type `Num -> Num`. An expression that
  fails to compile is the function that always answers `NonFinite`: the page
  shows its error message, but `run` clears that message and runs with a NaN
  function.
- User functions are assumed total and deterministic. An expression that
  compiles can still throw when called, for example on an unknown name such
  as `sen(x)`. Such a call (`f(left)` at `false-position/page.tsx:74`, `f(xr)`
  at line 99, `g(xi)` at `fixed-point/page.tsx:68`, and the matching calls on
  the other pages) aborts `run`, leaving only what its first three lines
  cleared; that abort is not modelled. A function using `random()` can answer
  differently for the same input. The secant page calls `f(x2)` twice
  (`secant/page.tsx:89` and `98`), and the model reuses one value. So
  `ReportsDetermined` makes a run a function of its inputs only for a
  deterministic `f`.
- IEEE-754 doubles are left out: rounding of every operation, overflow,
  underflow, and `Math.pow`/`Math.round` on binary values. Values are exact
  reals.
- NaN and the infinities are one `NonFinite` value. Everywhere but the
  regula-falsi loop only `isFinite` looks at them, so nothing changes there.
  In that loop, an infinite `f(xr)` would take part in the sign test
  `fa * fxr < 0` with its sign, and a finite value divided by an infinity
  gives 0. The model treats both as NaN, and the later rows of such a run
  differ.
- `FalsePosition.BracketInvariant`: the bracket invariant is stated only
  while `f` has answered with finite values. The loop has no finiteness check,
  so after a non-finite `f(xr)` the bracket itself may become non-finite.
  `FalsePosition.EndValues` still holds then.
- A non-integer `maxIter` is left out: `maxIter` is a whole number, or
  non-finite.
- `Display.RoundTo`: `Math.pow(10, d)` overflowing to infinity for very
  large digit counts is not modelled.
- React plumbing is left out: the `useState` setters, the tables, the input
  handlers and the `fmt` calls made while rendering. `setRows`, `setRoot`
  and `setError` become the returned `Outcome`.
- The bisection and modified-Newton pages are not part of this model.
