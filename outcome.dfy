/** What one press of a page's "run" button leaves behind: the rows of the
    table (`setRows`), the root (`setRoot`) and the error message
    (`setError`), gathered into one value. */
module Runs {

  /** A value or JavaScript's `null`. */
  datatype Option<T> = None | Some(value: T)

  /** Why a run stopped without a root; one constructor per message the
      pages show (see `Message`). */
  datatype Failure =
    | InvalidInput          // a numeric input is NaN or infinite
    | UnorderedBracket      // regula falsi: a >= b
    | InvalidTolerance      // tol <= 0
    | NonFiniteEndpoint     // regula falsi: f(a) or f(b) is not finite
    | SameSignEndpoints     // regula falsi: f(a) * f(b) > 0
    | NonFiniteFOrDerivative // Newton: f(xi) or f'(xi) is not finite
    | ZeroDerivative        // Newton: f'(xi) == 0
    | NonFiniteF            // secant: f at one of the two points is not finite
    | ZeroDenominator       // secant: f(x1) - f(x0) == 0
    | NonFiniteG            // fixed point: g(xi) is not finite

  /** The user-facing message each page sets for a failure; display text
      only, no contract depends on it. */
  function Message(reason: Failure): string {
    match reason
    case InvalidInput => "Entradas numéricas inválidas."
    case UnorderedBracket => "Requiere a < b."
    case InvalidTolerance => "La tolerancia debe ser positiva."
    case NonFiniteEndpoint => "f(a) o f(b) no son finitos."
    case SameSignEndpoints => "f(a) y f(b) deben tener signos opuestos."
    case NonFiniteFOrDerivative => "f(xi) o f'(xi) no son finitos."
    case ZeroDerivative => "Derivada cero: no se puede continuar."
    case NonFiniteF => "f(x) no es finito."
    case ZeroDenominator => "División por cero en la fórmula de secante."
    case NonFiniteG => "g(xi) no es finito. Revisa g(x)."
  }

  /** The terminal state of a run over estimates of type `X` and rows of type `R`:
      converged (root set), exhausted (root is the last row's estimate, or
      null without rows) or failed (error set, root null); in each case the
      rows produced so far are shown. */
  datatype Outcome<X, R> =
    | Converged(root: X, trace: seq<R>)
    | Exhausted(best: Option<X>, trace: seq<R>)
    | Failed(reason: Failure, trace: seq<R>)
}
