/** Concrete runs, as a user would type them into the pages, whose outcomes
    follow from the contracts of the `Run` methods alone. */
module Examples {
  import opened Numeric
  import opened Runs
  import FalsePosition
  import Newton
  import Secant
  import FixedPoint

  /** `x - 3` on `[0, 3]`: `f(b)` is exactly zero, so the root is `b` and no row is made. */
  method RootAtRightEnd() returns (o: Outcome<Num, FalsePosition.Row>)
    ensures o == Converged(Fin(3.0), [])
  {
    var f: RealFn := (x: Num) => if x.Fin? then Fin(x.v - 3.0) else NonFinite;
    o := FalsePosition.Run(f, Fin(0.0), Fin(3.0), Fin(0.000001), Fin(50));
  }

  /** `x^2 + 1` with derivative `2x` from `x0 = 0`: the derivative vanishes at once. */
  method FlatStart() returns (o: Outcome<real, Newton.Row>)
    ensures o == Failed(ZeroDerivative, [])
  {
    var f: RealFn := (x: Num) => if x.Fin? then Fin(x.v * x.v + 1.0) else NonFinite;
    var df: RealFn := (x: Num) => if x.Fin? then Fin(2.0 * x.v) else NonFinite;
    o := Newton.Run(f, df, Fin(0.0), Fin(0.000001), Fin(50));
    Newton.BlockedAtStart(f, df, 0.0, 0.000001, 50, o);
  }

  /** The constant 5 from `(1, 2)`: the secant through two equal values has no zero. */
  method ConstantFunction() returns (o: Outcome<real, Secant.Row>)
    ensures o == Failed(ZeroDenominator, [])
  {
    var f: RealFn := (x: Num) => if x.Fin? then Fin(5.0) else NonFinite;
    o := Secant.Run(f, Fin(1.0), Fin(2.0), Fin(0.000001), Fin(50));
    Secant.BlockedAtStart(f, 1.0, 2.0, 0.000001, 50, o);
  }

  /** `g(x) = x / 2` from `0`: the start is a fixed point, found at the first row. */
  method StartAtFixedPoint() returns (o: Outcome<real, FixedPoint.Row>)
    ensures o == Converged(0.0, [FixedPoint.Row(1, 0.0, Fin(0.0), Fin(0.0))])
  {
    var g: RealFn := (x: Num) => if x.Fin? then Fin(x.v / 2.0) else NonFinite;
    o := FixedPoint.Run(g, Fin(0.0), Fin(0.000001), Fin(50));
    FixedPoint.StartOnFixedPoint(g, 0.0, 0.000001, 50, o);
  }

  /** A cap of zero iterations: no row, and a null root. */
  method NoIterations() returns (o: Outcome<real, Newton.Row>)
    ensures o == Exhausted(None, [])
  {
    var f: RealFn := (x: Num) => if x.Fin? then Fin(x.v * x.v - 2.0) else NonFinite;
    var df: RealFn := (x: Num) => if x.Fin? then Fin(2.0 * x.v) else NonFinite;
    o := Newton.Run(f, df, Fin(1.0), Fin(0.000001), Fin(0));
  }
}
