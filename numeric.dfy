/** Numbers as the pages see them: a JavaScript `number` is either a finite
    value, modelled exactly as a Dafny `real`, or one of NaN, +Infinity and
    -Infinity, which this model does not tell apart (`NonFinite`). The
    arithmetic below propagates `NonFinite` the way NaN propagates, and every
    comparison involving it is false. */
module Numeric {

  /** A number that is finite (`Fin`) or not (`NonFinite`); `Ext<int>` models
      a count read from a numeric input, `Ext<real>` a double. */
  datatype Ext<T> = Fin(v: T) | NonFinite

  type Num = Ext<real>

  /** A user-supplied function of one variable, as compiled by the page:
      it may be called with any number and may answer with a non-finite one. */
  type RealFn = Num -> Num

  function Abs(x: real): (r: real)
    ensures r >= 0.0 && (r == x || r == -x)
  {
    if x < 0.0 then -x else x
  }

  /** The iteration cap as a loop `for (i = 1; i <= n; i++)` sees it. */
  function Max0(n: int): (r: nat)
    ensures n >= 0 ==> r == n
    ensures n < 0 ==> r == 0
  {
    if n < 0 then 0 else n
  }

  /** `Math.abs(x)` */
  function AbsN(x: Num): (r: Num)
    ensures r.Fin? == x.Fin?
    ensures x.Fin? ==> r.v == Abs(x.v)
  {
    if x.Fin? then Fin(Abs(x.v)) else NonFinite
  }

  /** `x - y` */
  function Sub(x: Num, y: Num): (r: Num)
    ensures r.Fin? <==> x.Fin? && y.Fin?
    ensures r.Fin? ==> r.v == x.v - y.v
  {
    if x.Fin? && y.Fin? then Fin(x.v - y.v) else NonFinite
  }

  /** `x * y` */
  function Mul(x: Num, y: Num): (r: Num)
    ensures r.Fin? <==> x.Fin? && y.Fin?
    ensures r.Fin? ==> r.v == x.v * y.v
  {
    if x.Fin? && y.Fin? then Fin(x.v * y.v) else NonFinite
  }

  /** `x / y`; a division by zero gives an infinity or NaN, so `NonFinite`. */
  function Div(x: Num, y: Num): (r: Num)
    ensures r.Fin? <==> x.Fin? && y.Fin? && y.v != 0.0
    ensures r.Fin? ==> r.v == x.v / y.v
  {
    if x.Fin? && y.Fin? && y.v != 0.0 then Fin(x.v / y.v) else NonFinite
  }

  /** `x < y`, false whenever either side is NaN. */
  predicate Lt(x: Num, y: Num) {
    x.Fin? && y.Fin? && x.v < y.v
  }

  /** `Math.abs(x) === 0` */
  predicate IsZero(x: Num) {
    x.Fin? && x.v == 0.0
  }
}
