/** The secant page: from the pair `(x0, x1)`, draw the secant through
    `(x0, f(x0))` and `(x1, f(x1))`, take its zero `x2` and slide the pair to
    `(x1, x2)`, until `f(x2)` is exactly zero or the step is shorter than `tol`. */
module Secant {
  import opened Numeric
  import opened Runs

  /** One table row; every field is finite, since a row is only made after
      both function values were checked. `f(x2)` is not shown. */
  datatype Row = Row(i: int, x0: real, x1: real, fx0: real, fx1: real, x2: real, err: real)

  /** The pair the next iteration starts from: `(x0, x1)`, then each row's `(x1, x2)`. */
  function NextPair(x0: real, x1: real, rows: seq<Row>): (real, real) {
    if rows == [] then (x0, x1) else (rows[|rows| - 1].x1, rows[|rows| - 1].x2)
  }

  /** Why an iteration on the pair `(a, b)` makes no row, or `None` when it makes one. */
  function Blocked(f: RealFn, a: real, b: real): Option<Failure> {
    if !f(Fin(a)).Fin? || !f(Fin(b)).Fin? then Some(NonFiniteF)
    else if f(Fin(b)).v - f(Fin(a)).v == 0.0 then Some(ZeroDenominator)
    else None
  }

  /** Row `j` is the secant step on the pair that row `j - 1` slid to; its
      error is the distance from the new estimate to the newer end of the
      pair, the first row included. */
  predicate IsStep(f: RealFn, x0: real, x1: real, rows: seq<Row>, j: int)
    requires 0 <= j < |rows|
  {
    var r := rows[j];
    r.i == j + 1
    && (if j == 0 then r.x0 == x0 && r.x1 == x1 else r.x0 == rows[j - 1].x1 && r.x1 == rows[j - 1].x2)
    && f(Fin(r.x0)) == Fin(r.fx0) && f(Fin(r.x1)) == Fin(r.fx1) && r.fx1 - r.fx0 != 0.0
    && r.x2 == r.x1 - r.fx1 * (r.x1 - r.x0) / (r.fx1 - r.fx0)
    && r.err == Abs(r.x2 - r.x1)
  }

  predicate Chain(f: RealFn, x0: real, x1: real, rows: seq<Row>) {
    forall j | 0 <= j < |rows| :: IsStep(f, x0, x1, rows, j)
  }

  lemma ChainSnoc(f: RealFn, x0: real, x1: real, rows: seq<Row>, r: Row)
    requires Chain(f, x0, x1, rows) && IsStep(f, x0, x1, rows + [r], |rows|)
    ensures Chain(f, x0, x1, rows + [r])
  {
    forall j | 0 <= j < |rows| ensures IsStep(f, x0, x1, rows + [r], j) {
      assert IsStep(f, x0, x1, rows, j);
    }
  }

  /** The stopping test: `f` vanishes exactly at the new estimate, or the step is short. */
  predicate Stops(f: RealFn, r: Row, tol: real) {
    IsZero(f(Fin(r.x2))) || r.err < tol
  }

  /** What a run with valid inputs reports: the rows chain from `(x0, x1)`, at
      most `maxIter` of them, none but the last passes the stopping test, and
      the outcome is decided by the last row or by why no further row was made. */
  predicate Reports(f: RealFn, x0: real, x1: real, tol: real, maxIter: int, o: Outcome<real, Row>) {
    var t := o.trace;
    Chain(f, x0, x1, t)
    && |t| <= Max0(maxIter)
    && (forall j | 0 <= j < |t| - 1 :: !Stops(f, t[j], tol))
    && match o
       case Converged(root, _) =>
         |t| > 0 && Stops(f, t[|t| - 1], tol) && root == t[|t| - 1].x2
       case Exhausted(best, _) =>
         (|t| == 0 || !Stops(f, t[|t| - 1], tol)) && |t| == Max0(maxIter)
         && best == (if |t| == 0 then None else Some(t[|t| - 1].x2))
       case Failed(reason, _) =>
         (|t| == 0 || !Stops(f, t[|t| - 1], tol)) && |t| < maxIter
         && Blocked(f, NextPair(x0, x1, t).0, NextPair(x0, x1, t).1) == Some(reason)
  }

  /** The page's `run`. */
  method Run(f: RealFn, x0: Num, x1: Num, tol: Num, maxIter: Ext<int>) returns (o: Outcome<real, Row>)
    ensures !(x0.Fin? && x1.Fin? && tol.Fin? && maxIter.Fin?) ==> o == Failed(InvalidInput, [])
    ensures x0.Fin? && x1.Fin? && tol.Fin? && maxIter.Fin? && tol.v <= 0.0 ==> o == Failed(InvalidTolerance, [])
    ensures x0.Fin? && x1.Fin? && tol.Fin? && maxIter.Fin? && tol.v > 0.0 ==> Reports(f, x0.v, x1.v, tol.v, maxIter.v, o)
  {
    if !(x0.Fin? && x1.Fin? && tol.Fin? && maxIter.Fin?) {
      return Failed(InvalidInput, []);
    }
    if tol.v <= 0.0 {
      return Failed(InvalidTolerance, []);
    }
    var a, b := x0.v, x1.v;
    var fa, fb := f(Fin(a)), f(Fin(b));
    var out: seq<Row> := [];
    var i := 1;
    while i <= maxIter.v
      invariant 1 <= i && |out| == i - 1 <= Max0(maxIter.v)
      invariant Chain(f, x0.v, x1.v, out)
      invariant (a, b) == NextPair(x0.v, x1.v, out)
      invariant fa == f(Fin(a)) && fb == f(Fin(b))
      invariant forall j | 0 <= j < |out| :: !Stops(f, out[j], tol.v)
    {
      if !fa.Fin? || !fb.Fin? {
        return Failed(NonFiniteF, out);
      }
      if fb.v - fa.v == 0.0 {
        return Failed(ZeroDenominator, out);
      }
      var x2 := b - fb.v * (b - a) / (fb.v - fa.v);
      var err := Abs(x2 - b);
      var row := Row(i, a, b, fa.v, fb.v, x2, err);
      ChainSnoc(f, x0.v, x1.v, out, row);
      out := out + [row];
      var fx2 := f(Fin(x2));
      if IsZero(fx2) || err < tol.v {
        return Converged(x2, out);
      }
      a, fa := b, fb;
      b, fb := x2, fx2;
      i := i + 1;
    }
    return Exhausted(if out == [] then None else Some(out[|out| - 1].x2), out);
  }

  /** Two chains from the same start agree row by row. */
  lemma {:induction false} ChainsAgree(f: RealFn, x0: real, x1: real, t1: seq<Row>, t2: seq<Row>, j: int)
    requires Chain(f, x0, x1, t1) && Chain(f, x0, x1, t2)
    requires 0 <= j < |t1| && j < |t2|
    ensures t1[j] == t2[j]
  {
    var r1, r2 := t1[j], t2[j];
    assert IsStep(f, x0, x1, t1, j) && IsStep(f, x0, x1, t2, j);
    if j > 0 {
      ChainsAgree(f, x0, x1, t1, t2, j - 1);
    }
    assert r1.x0 == r2.x0 && r1.x1 == r2.x1;
    assert Fin(r1.fx0) == Fin(r2.fx0) && Fin(r1.fx1) == Fin(r2.fx1);
    assert r1.x2 == r2.x2;
  }

  lemma NotShorter(f: RealFn, x0: real, x1: real, tol: real, maxIter: int, o1: Outcome<real, Row>, o2: Outcome<real, Row>)
    requires Reports(f, x0, x1, tol, maxIter, o1) && Reports(f, x0, x1, tol, maxIter, o2)
    ensures |o1.trace| >= |o2.trace|
  {
    var t1, t2 := o1.trace, o2.trace;
    var k := |t1|;
    if k < |t2| {
      assert IsStep(f, x0, x1, t2, k);
      if k > 0 {
        ChainsAgree(f, x0, x1, t1, t2, k - 1);
      }
      assert false;
    }
  }

  /** The contract of `Run` leaves no freedom: a run is a function of its inputs
      (for a deterministic user function). */
  lemma ReportsDetermined(f: RealFn, x0: real, x1: real, tol: real, maxIter: int, o1: Outcome<real, Row>, o2: Outcome<real, Row>)
    requires Reports(f, x0, x1, tol, maxIter, o1) && Reports(f, x0, x1, tol, maxIter, o2)
    ensures o1 == o2
  {
    NotShorter(f, x0, x1, tol, maxIter, o1, o2);
    NotShorter(f, x0, x1, tol, maxIter, o2, o1);
    var t1, t2 := o1.trace, o2.trace;
    forall j | 0 <= j < |t1| ensures t1[j] == t2[j] {
      ChainsAgree(f, x0, x1, t1, t2, j);
    }
    assert t1 == t2;
  }

  /** When the first iteration is blocked (for example `f` is the constant 5,
      so `f(x1) - f(x0) == 0`), the run fails with no rows at all. */
  lemma BlockedAtStart(f: RealFn, x0: real, x1: real, tol: real, maxIter: int, o: Outcome<real, Row>)
    requires maxIter >= 1 && Blocked(f, x0, x1).Some?
    requires Reports(f, x0, x1, tol, maxIter, o)
    ensures o == Failed(Blocked(f, x0, x1).value, [])
  {
    var expected: Outcome<real, Row> := Failed(Blocked(f, x0, x1).value, []);
    assert Reports(f, x0, x1, tol, maxIter, expected);
    ReportsDetermined(f, x0, x1, tol, maxIter, o, expected);
  }

  /** Every row's two points are distinct, and its new estimate is where the
      line through `(x0, f(x0))` and `(x1, f(x1))` crosses zero. */
  lemma StepIsSecantZero(f: RealFn, x0: real, x1: real, rows: seq<Row>, j: int)
    requires Chain(f, x0, x1, rows) && 0 <= j < |rows|
    ensures rows[j].x0 != rows[j].x1
    ensures rows[j].fx1 + (rows[j].fx1 - rows[j].fx0) / (rows[j].x1 - rows[j].x0) * (rows[j].x2 - rows[j].x1) == 0.0
  {
    var r := rows[j];
    assert IsStep(f, x0, x1, rows, j);
    var dx, df := r.x1 - r.x0, r.fx1 - r.fx0;
    assert dx != 0.0;
    assert r.x2 - r.x1 == -(r.fx1 * dx / df);
    assert df / dx * (r.fx1 * dx / df) == r.fx1;
  }
}
