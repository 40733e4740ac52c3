/** The fixed-point page: from `x0`, iterate `x <- g(x)` until two successive
    iterates are closer than `tol`. */
module FixedPoint {
  import opened Numeric
  import opened Runs

  /** One table row; `gxi` and `err` are non-finite only in the row that
      makes the run fail. */
  datatype Row = Row(i: int, xi: real, gxi: Num, err: Num)

  /** Row `j` applies `g` to the value row `j - 1` produced (which was finite,
      or the run would have stopped there), and its error is the distance
      between the point and its image. */
  predicate IsStep(g: RealFn, x0: real, rows: seq<Row>, j: int)
    requires 0 <= j < |rows|
  {
    var r := rows[j];
    r.i == j + 1
    && (if j == 0 then r.xi == x0 else rows[j - 1].gxi == Fin(r.xi))
    && r.gxi == g(Fin(r.xi))
    && r.err == AbsN(Sub(r.gxi, Fin(r.xi)))
  }

  predicate Chain(g: RealFn, x0: real, rows: seq<Row>) {
    forall j | 0 <= j < |rows| :: IsStep(g, x0, rows, j)
  }

  lemma ChainSnoc(g: RealFn, x0: real, rows: seq<Row>, r: Row)
    requires Chain(g, x0, rows) && IsStep(g, x0, rows + [r], |rows|)
    ensures Chain(g, x0, rows + [r])
  {
    forall j | 0 <= j < |rows| ensures IsStep(g, x0, rows + [r], j) {
      assert IsStep(g, x0, rows, j);
    }
  }

  /** The only convergence test: the error is below `tol`. */
  predicate Stops(r: Row, tol: real) {
    Lt(r.err, Fin(tol))
  }

  /** What a run with valid inputs reports: the rows chain from `x0`, at most
      `maxIter` of them; every row but the last is finite and fails the
      stopping test; a non-finite `g` value is recorded in the last row and
      fails the run, and otherwise the last row decides between converged
      and exhausted. */
  predicate Reports(g: RealFn, x0: real, tol: real, maxIter: int, o: Outcome<real, Row>) {
    var t := o.trace;
    Chain(g, x0, t)
    && |t| <= Max0(maxIter)
    && (forall j | 0 <= j < |t| - 1 :: !Stops(t[j], tol))
    && match o
       case Converged(root, _) =>
         |t| > 0 && t[|t| - 1].gxi == Fin(root) && Stops(t[|t| - 1], tol)
       case Exhausted(best, _) =>
         |t| == Max0(maxIter)
         && (|t| == 0 || (t[|t| - 1].gxi.Fin? && !Stops(t[|t| - 1], tol)))
         && best == (if |t| == 0 then None else Some(t[|t| - 1].gxi.v))
       case Failed(reason, _) =>
         reason == NonFiniteG && |t| > 0 && t[|t| - 1].gxi == NonFinite
  }

  /** The page's `run`. */
  method Run(g: RealFn, x0: Num, tol: Num, maxIter: Ext<int>) returns (o: Outcome<real, Row>)
    ensures !(x0.Fin? && tol.Fin? && maxIter.Fin?) ==> o == Failed(InvalidInput, [])
    ensures x0.Fin? && tol.Fin? && maxIter.Fin? && tol.v <= 0.0 ==> o == Failed(InvalidTolerance, [])
    ensures x0.Fin? && tol.Fin? && maxIter.Fin? && tol.v > 0.0 ==> Reports(g, x0.v, tol.v, maxIter.v, o)
  {
    if !(x0.Fin? && tol.Fin? && maxIter.Fin?) {
      return Failed(InvalidInput, []);
    }
    if tol.v <= 0.0 {
      return Failed(InvalidTolerance, []);
    }
    var xi := x0.v;
    var out: seq<Row> := [];
    var prev: Num := NonFinite;
    var i := 1;
    while i <= maxIter.v
      invariant 1 <= i && |out| == i - 1 <= Max0(maxIter.v)
      invariant Chain(g, x0.v, out)
      invariant if out == [] then xi == x0.v else out[|out| - 1].gxi == Fin(xi)
      invariant i > 1 ==> prev == Fin(xi)
      invariant forall j | 0 <= j < |out| :: !Stops(out[j], tol.v)
    {
      var gxi := g(Fin(xi));
      var err := if i == 1 then AbsN(Sub(gxi, Fin(xi))) else AbsN(Sub(gxi, prev));
      var row := Row(i, xi, gxi, err);
      ChainSnoc(g, x0.v, out, row);
      out := out + [row];
      if !gxi.Fin? {
        return Failed(NonFiniteG, out);
      }
      if Lt(err, tol) {
        return Converged(gxi.v, out);
      }
      prev := gxi;
      xi := gxi.v;
      i := i + 1;
    }
    return Exhausted(if out == [] then None else Some(out[|out| - 1].gxi.v), out);
  }

  /** Two chains from the same start agree row by row. */
  lemma {:induction false} ChainsAgree(g: RealFn, x0: real, t1: seq<Row>, t2: seq<Row>, j: int)
    requires Chain(g, x0, t1) && Chain(g, x0, t2)
    requires 0 <= j < |t1| && j < |t2|
    ensures t1[j] == t2[j]
  {
    assert IsStep(g, x0, t1, j) && IsStep(g, x0, t2, j);
    if j > 0 {
      ChainsAgree(g, x0, t1, t2, j - 1);
    }
  }

  lemma NotShorter(g: RealFn, x0: real, tol: real, maxIter: int, o1: Outcome<real, Row>, o2: Outcome<real, Row>)
    requires Reports(g, x0, tol, maxIter, o1) && Reports(g, x0, tol, maxIter, o2)
    ensures |o1.trace| >= |o2.trace|
  {
    var t1, t2 := o1.trace, o2.trace;
    var k := |t1|;
    if k < |t2| {
      assert IsStep(g, x0, t2, k);
      if k > 0 {
        ChainsAgree(g, x0, t1, t2, k - 1);
      }
      assert false;
    }
  }

  /** The contract of `Run` leaves no freedom: a run is a function of its inputs
      (for a deterministic user function). */
  lemma ReportsDetermined(g: RealFn, x0: real, tol: real, maxIter: int, o1: Outcome<real, Row>, o2: Outcome<real, Row>)
    requires Reports(g, x0, tol, maxIter, o1) && Reports(g, x0, tol, maxIter, o2)
    ensures o1 == o2
  {
    NotShorter(g, x0, tol, maxIter, o1, o2);
    NotShorter(g, x0, tol, maxIter, o2, o1);
    var t1, t2 := o1.trace, o2.trace;
    forall j | 0 <= j < |t1| ensures t1[j] == t2[j] {
      ChainsAgree(g, x0, t1, t2, j);
    }
    assert t1 == t2;
  }

  /** Starting on a fixed point of `g` converges at the first row, to that point. */
  lemma StartOnFixedPoint(g: RealFn, x0: real, tol: real, maxIter: int, o: Outcome<real, Row>)
    requires tol > 0.0 && maxIter >= 1 && g(Fin(x0)) == Fin(x0)
    requires Reports(g, x0, tol, maxIter, o)
    ensures o == Converged(x0, [Row(1, x0, Fin(x0), Fin(0.0))])
  {
    var expected: Outcome<real, Row> := Converged(x0, [Row(1, x0, Fin(x0), Fin(0.0))]);
    assert IsStep(g, x0, expected.trace, 0);
    ReportsDetermined(g, x0, tol, maxIter, o, expected);
  }
}
