/** The Newton–Raphson page: from `x0`, step `xi1 = xi - f(xi)/f'(xi)` until
    `f(xi)` is exactly zero or two successive estimates are closer than `tol`. */
module Newton {
  import opened Numeric
  import opened Runs

  /** One table row; every field is finite, since a row is only made after
      both evaluations were checked. */
  datatype Row = Row(i: int, xi: real, fxi: real, dfxi: real, xi1: real, err: real)

  /** The point the next iteration starts from: `x0`, then each row's `xi1`. */
  function NextPoint(x0: real, rows: seq<Row>): real {
    if rows == [] then x0 else rows[|rows| - 1].xi1
  }

  /** Why an iteration at `x` makes no row, or `None` when it makes one. */
  function Blocked(f: RealFn, df: RealFn, x: real): Option<Failure> {
    if !f(Fin(x)).Fin? || !df(Fin(x)).Fin? then Some(NonFiniteFOrDerivative)
    else if df(Fin(x)).v == 0.0 then Some(ZeroDerivative)
    else None
  }

  /** Row `j` is the Newton step from the point row `j - 1` reached, and its
      error is the length of that step. */
  predicate IsStep(f: RealFn, df: RealFn, x0: real, rows: seq<Row>, j: int)
    requires 0 <= j < |rows|
  {
    var r := rows[j];
    r.i == j + 1
    && r.xi == (if j == 0 then x0 else rows[j - 1].xi1)
    && f(Fin(r.xi)) == Fin(r.fxi) && df(Fin(r.xi)) == Fin(r.dfxi) && r.dfxi != 0.0
    && r.xi1 == r.xi - r.fxi / r.dfxi
    && r.err == Abs(r.xi1 - r.xi)
  }

  predicate Chain(f: RealFn, df: RealFn, x0: real, rows: seq<Row>) {
    forall j | 0 <= j < |rows| :: IsStep(f, df, x0, rows, j)
  }

  lemma ChainSnoc(f: RealFn, df: RealFn, x0: real, rows: seq<Row>, r: Row)
    requires Chain(f, df, x0, rows) && IsStep(f, df, x0, rows + [r], |rows|)
    ensures Chain(f, df, x0, rows + [r])
  {
    forall j | 0 <= j < |rows| ensures IsStep(f, df, x0, rows + [r], j) {
      assert IsStep(f, df, x0, rows, j);
    }
  }

  /** The stopping test, made after the row is appended. */
  predicate Stops(r: Row, tol: real) {
    r.fxi == 0.0 || r.err < tol
  }

  /** What a run with valid inputs reports: the rows chain from `x0`, at most
      `maxIter` of them, none but the last passes the stopping test, and the
      outcome is decided by the last row or by why no further row was made. */
  predicate Reports(f: RealFn, df: RealFn, x0: real, tol: real, maxIter: int, o: Outcome<real, Row>) {
    var t := o.trace;
    Chain(f, df, x0, t)
    && |t| <= Max0(maxIter)
    && (forall j | 0 <= j < |t| - 1 :: !Stops(t[j], tol))
    && match o
       case Converged(root, _) =>
         |t| > 0 && Stops(t[|t| - 1], tol) && root == t[|t| - 1].xi1
       case Exhausted(best, _) =>
         (|t| == 0 || !Stops(t[|t| - 1], tol)) && |t| == Max0(maxIter)
         && best == (if |t| == 0 then None else Some(t[|t| - 1].xi1))
       case Failed(reason, _) =>
         (|t| == 0 || !Stops(t[|t| - 1], tol)) && |t| < maxIter
         && Blocked(f, df, NextPoint(x0, t)) == Some(reason)
  }

  /** The page's `run`. */
  method Run(f: RealFn, df: RealFn, x0: Num, tol: Num, maxIter: Ext<int>) returns (o: Outcome<real, Row>)
    ensures !(x0.Fin? && tol.Fin? && maxIter.Fin?) ==> o == Failed(InvalidInput, [])
    ensures x0.Fin? && tol.Fin? && maxIter.Fin? && tol.v <= 0.0 ==> o == Failed(InvalidTolerance, [])
    ensures x0.Fin? && tol.Fin? && maxIter.Fin? && tol.v > 0.0 ==> Reports(f, df, x0.v, tol.v, maxIter.v, o)
  {
    if !(x0.Fin? && tol.Fin? && maxIter.Fin?) {
      return Failed(InvalidInput, []);
    }
    if tol.v <= 0.0 {
      return Failed(InvalidTolerance, []);
    }
    var xi := x0.v;
    var prev: Num := NonFinite;
    var out: seq<Row> := [];
    var i := 1;
    while i <= maxIter.v
      invariant 1 <= i && |out| == i - 1 <= Max0(maxIter.v)
      invariant Chain(f, df, x0.v, out)
      invariant xi == NextPoint(x0.v, out)
      invariant i > 1 ==> prev == Fin(xi)
      invariant forall j | 0 <= j < |out| :: !Stops(out[j], tol.v)
    {
      var fxi := f(Fin(xi));
      var dfxi := df(Fin(xi));
      if !fxi.Fin? || !dfxi.Fin? {
        return Failed(NonFiniteFOrDerivative, out);
      }
      if dfxi.v == 0.0 {
        return Failed(ZeroDerivative, out);
      }
      var xi1 := xi - fxi.v / dfxi.v;
      var err := if i == 1 then Abs(xi1 - xi) else Abs(xi1 - prev.v);
      var row := Row(i, xi, fxi.v, dfxi.v, xi1, err);
      ChainSnoc(f, df, x0.v, out, row);
      out := out + [row];
      if fxi.v == 0.0 || err < tol.v {
        return Converged(xi1, out);
      }
      prev := Fin(xi1);
      xi := xi1;
      i := i + 1;
    }
    return Exhausted(if out == [] then None else Some(out[|out| - 1].xi1), out);
  }

  /** Two chains from the same start agree row by row. */
  lemma {:induction false} ChainsAgree(f: RealFn, df: RealFn, x0: real, t1: seq<Row>, t2: seq<Row>, j: int)
    requires Chain(f, df, x0, t1) && Chain(f, df, x0, t2)
    requires 0 <= j < |t1| && j < |t2|
    ensures t1[j] == t2[j]
  {
    assert IsStep(f, df, x0, t1, j) && IsStep(f, df, x0, t2, j);
    if j > 0 {
      ChainsAgree(f, df, x0, t1, t2, j - 1);
    }
  }

  lemma NotShorter(f: RealFn, df: RealFn, x0: real, tol: real, maxIter: int, o1: Outcome<real, Row>, o2: Outcome<real, Row>)
    requires Reports(f, df, x0, tol, maxIter, o1) && Reports(f, df, x0, tol, maxIter, o2)
    ensures |o1.trace| >= |o2.trace|
  {
    var t1, t2 := o1.trace, o2.trace;
    var k := |t1|;
    if k < |t2| {
      assert IsStep(f, df, x0, t2, k);
      if k > 0 {
        ChainsAgree(f, df, x0, t1, t2, k - 1);
      }
      assert false;
    }
  }

  /** The contract of `Run` leaves no freedom: two outcomes that both satisfy
      it are equal, so a run is a function of its inputs (for a deterministic
      user function). */
  lemma ReportsDetermined(f: RealFn, df: RealFn, x0: real, tol: real, maxIter: int, o1: Outcome<real, Row>, o2: Outcome<real, Row>)
    requires Reports(f, df, x0, tol, maxIter, o1) && Reports(f, df, x0, tol, maxIter, o2)
    ensures o1 == o2
  {
    NotShorter(f, df, x0, tol, maxIter, o1, o2);
    NotShorter(f, df, x0, tol, maxIter, o2, o1);
    var t1, t2 := o1.trace, o2.trace;
    forall j | 0 <= j < |t1| ensures t1[j] == t2[j] {
      ChainsAgree(f, df, x0, t1, t2, j);
    }
    assert t1 == t2;
  }

  /** When the very first iteration is blocked (for example `f(x) = x^2 + 1`,
      `f'(x) = 2x`, `x0 = 0`), the run fails with no rows at all. */
  lemma BlockedAtStart(f: RealFn, df: RealFn, x0: real, tol: real, maxIter: int, o: Outcome<real, Row>)
    requires maxIter >= 1 && Blocked(f, df, x0).Some?
    requires Reports(f, df, x0, tol, maxIter, o)
    ensures o == Failed(Blocked(f, df, x0).value, [])
  {
    var expected: Outcome<real, Row> := Failed(Blocked(f, df, x0).value, []);
    assert Reports(f, df, x0, tol, maxIter, expected);
    ReportsDetermined(f, df, x0, tol, maxIter, o, expected);
  }

  /** Every row's new estimate is where the tangent to `f` at `xi` crosses zero. */
  lemma StepIsTangentZero(f: RealFn, df: RealFn, x0: real, rows: seq<Row>, j: int)
    requires Chain(f, df, x0, rows) && 0 <= j < |rows|
    ensures rows[j].fxi + rows[j].dfxi * (rows[j].xi1 - rows[j].xi) == 0.0
  {
    var r := rows[j];
    assert IsStep(f, df, x0, rows, j);
    assert r.xi1 - r.xi == -(r.fxi / r.dfxi);
    assert r.dfxi * (r.fxi / r.dfxi) == r.fxi;
  }
}
