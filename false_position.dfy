/** The regula falsi (false position) page: keep a bracket `[left, right]`
    whose ends have function values of opposite signs, take the zero `xr` of
    the chord through them, and replace the end whose value has the sign of
    `f(xr)`, until `f(xr)` is exactly zero or two successive estimates are
    closer than `tol`.

    The loop never checks that `f(xr)` is finite, so once `f` answers NaN the
    bracket itself turns non-finite; the state is therefore kept in `Num`. */
module FalsePosition {
  import opened Numeric
  import opened Runs

  /** One table row: the bracket and its values, the new estimate, its value, the error. */
  datatype Row = Row(i: int, a: Num, b: Num, xr: Num, fa: Num, fb: Num, fxr: Num, err: Num)

  /** `right - fb * (right - left) / (fb - fa)`, the zero of the chord. */
  function Estimate(left: Num, right: Num, fa: Num, fb: Num): Num {
    Sub(right, Div(Mul(fb, Sub(right, left)), Sub(fb, fa)))
  }

  /** The bracket after a row: the right end moves to `xr` when `fa * fxr < 0`,
      the left end otherwise (including when `fxr` is NaN). */
  function Narrow(r: Row): (Num, Num, Num, Num) {
    if Lt(Mul(r.fa, r.fxr), Fin(0.0)) then (r.a, r.xr, r.fa, r.fxr) else (r.xr, r.b, r.fxr, r.fb)
  }

  /** Row `j` works on `[a, b]` first and then on the bracket row `j - 1`
      narrowed to; its error is the width `|b - a|` in the first row and the
      distance between successive estimates afterwards. */
  predicate IsStep(f: RealFn, a: real, b: real, rows: seq<Row>, j: int)
    requires 0 <= j < |rows|
  {
    var r := rows[j];
    r.i == j + 1
    && (r.a, r.b, r.fa, r.fb) == (if j == 0 then (Fin(a), Fin(b), f(Fin(a)), f(Fin(b))) else Narrow(rows[j - 1]))
    && r.xr == Estimate(r.a, r.b, r.fa, r.fb)
    && r.fxr == f(r.xr)
    && r.err == (if j == 0 then Fin(Abs(b - a)) else AbsN(Sub(r.xr, rows[j - 1].xr)))
  }

  predicate Chain(f: RealFn, a: real, b: real, rows: seq<Row>) {
    forall j | 0 <= j < |rows| :: IsStep(f, a, b, rows, j)
  }

  lemma ChainSnoc(f: RealFn, a: real, b: real, rows: seq<Row>, r: Row)
    requires Chain(f, a, b, rows) && IsStep(f, a, b, rows + [r], |rows|)
    ensures Chain(f, a, b, rows + [r])
  {
    forall j | 0 <= j < |rows| ensures IsStep(f, a, b, rows + [r], j) {
      assert IsStep(f, a, b, rows, j);
    }
  }

  /** The stopping test: `f(xr)` is exactly zero or the error is below `tol`. */
  predicate Stops(r: Row, tol: real) {
    IsZero(r.fxr) || Lt(r.err, Fin(tol))
  }

  /** What a run reports once its inputs and end points passed every gate:
      the rows chain from `[a, b]`, at most `maxIter` of them, none but the
      last passes the stopping test, and the last row decides between
      converged and exhausted; the loop itself never fails. */
  predicate Reports(f: RealFn, a: real, b: real, tol: real, maxIter: int, o: Outcome<Num, Row>) {
    var t := o.trace;
    Chain(f, a, b, t)
    && |t| <= Max0(maxIter)
    && (forall j | 0 <= j < |t| - 1 :: !Stops(t[j], tol))
    && match o
       case Converged(root, _) =>
         |t| > 0 && Stops(t[|t| - 1], tol) && root == t[|t| - 1].xr
       case Exhausted(best, _) =>
         (|t| == 0 || !Stops(t[|t| - 1], tol)) && |t| == Max0(maxIter)
         && best == (if |t| == 0 then None else Some(t[|t| - 1].xr))
       case Failed(_, _) => false
  }

  /** The numeric inputs pass the page's three input gates. */
  predicate InputsValid(a: Num, b: Num, tol: Num, maxIter: Ext<int>) {
    a.Fin? && b.Fin? && tol.Fin? && maxIter.Fin? && a.v < b.v && tol.v > 0.0
  }

  /** The page's `run`. */
  method Run(f: RealFn, a: Num, b: Num, tol: Num, maxIter: Ext<int>) returns (o: Outcome<Num, Row>)
    ensures !(a.Fin? && b.Fin? && tol.Fin? && maxIter.Fin?) ==> o == Failed(InvalidInput, [])
    ensures a.Fin? && b.Fin? && tol.Fin? && maxIter.Fin? && a.v >= b.v ==> o == Failed(UnorderedBracket, [])
    ensures a.Fin? && b.Fin? && tol.Fin? && maxIter.Fin? && a.v < b.v && tol.v <= 0.0 ==> o == Failed(InvalidTolerance, [])
    ensures InputsValid(a, b, tol, maxIter) && !(f(a).Fin? && f(b).Fin?) ==> o == Failed(NonFiniteEndpoint, [])
    ensures InputsValid(a, b, tol, maxIter) && f(a).Fin? && f(b).Fin? && f(a).v == 0.0 ==> o == Converged(a, [])
    ensures InputsValid(a, b, tol, maxIter) && f(a).Fin? && f(b).Fin? && f(a).v != 0.0 && f(b).v == 0.0
      ==> o == Converged(b, [])
    ensures InputsValid(a, b, tol, maxIter) && f(a).Fin? && f(b).Fin? && f(a).v * f(b).v > 0.0
      ==> o == Failed(SameSignEndpoints, [])
    ensures InputsValid(a, b, tol, maxIter) && f(a).Fin? && f(b).Fin? && f(a).v * f(b).v < 0.0
      ==> Reports(f, a.v, b.v, tol.v, maxIter.v, o)
  {
    if !(a.Fin? && b.Fin? && tol.Fin? && maxIter.Fin?) {
      return Failed(InvalidInput, []);
    }
    if a.v >= b.v {
      return Failed(UnorderedBracket, []);
    }
    if tol.v <= 0.0 {
      return Failed(InvalidTolerance, []);
    }
    var left, right := a, b;
    var fa, fb := f(left), f(right);
    if !fa.Fin? || !fb.Fin? {
      return Failed(NonFiniteEndpoint, []);
    }
    if fa.v == 0.0 {
      return Converged(left, []);
    }
    if fb.v == 0.0 {
      return Converged(right, []);
    }
    if fa.v * fb.v > 0.0 {
      return Failed(SameSignEndpoints, []);
    }
    var out: seq<Row> := [];
    var prev: Num := NonFinite;
    var i := 1;
    while i <= maxIter.v
      invariant 1 <= i && |out| == i - 1 <= Max0(maxIter.v)
      invariant Chain(f, a.v, b.v, out)
      invariant (left, right, fa, fb) == if out == [] then (a, b, f(a), f(b)) else Narrow(out[|out| - 1])
      invariant out != [] ==> prev == out[|out| - 1].xr
      invariant forall j | 0 <= j < |out| :: !Stops(out[j], tol.v)
    {
      var xr := Estimate(left, right, fa, fb);
      var fxr := f(xr);
      var err := if i == 1 then AbsN(Sub(right, left)) else AbsN(Sub(xr, prev));
      var row := Row(i, left, right, xr, fa, fb, fxr, err);
      ChainSnoc(f, a.v, b.v, out, row);
      out := out + [row];
      if IsZero(fxr) || Lt(err, tol) {
        return Converged(xr, out);
      }
      if Lt(Mul(fa, fxr), Fin(0.0)) {
        right, fb := xr, fxr;
      } else {
        left, fa := xr, fxr;
      }
      prev := xr;
      i := i + 1;
    }
    return Exhausted(if out == [] then None else Some(out[|out| - 1].xr), out);
  }

  /** Over exact reals the chord through the ends of a sign-changing bracket
      crosses zero strictly inside it. */
  lemma EstimateInside(left: real, right: real, fa: real, fb: real)
    requires left < right && fa * fb < 0.0
    ensures Estimate(Fin(left), Fin(right), Fin(fa), Fin(fb)).Fin?
    ensures left < Estimate(Fin(left), Fin(right), Fin(fa), Fin(fb)).v < right
  {
    var d := fb - fa;
    var w := right - left;
    var t := fb / d;
    var u := -fa / d;
    assert t + u == d / d == 1.0;
    if fb > 0.0 {
      assert fa < 0.0 && d > 0.0;
    } else {
      assert fb < 0.0 && fa > 0.0 && d < 0.0;
    }
    assert t > 0.0 && u > 0.0;
    assert fb * w / d == t * w;
    assert 0.0 < t * w < w;
  }

  /** A value with the sign of `fa` has the sign opposite to `fb`. */
  lemma SignCarries(fa: real, fb: real, fx: real)
    requires fa * fb < 0.0 && !(fa * fx < 0.0) && fx != 0.0
    ensures fx * fb < 0.0
  {
    if fa > 0.0 {
      assert fb < 0.0;
      assert fx > 0.0;
    } else {
      assert fa < 0.0 && fb > 0.0;
      assert fx < 0.0;
    }
  }

  /** Whatever `f` answers, each row's `fa` and `fb` are `f` at the row's ends. */
  lemma {:induction false} EndValues(f: RealFn, a: real, b: real, rows: seq<Row>, j: int)
    requires Chain(f, a, b, rows) && 0 <= j < |rows|
    ensures rows[j].fa == f(rows[j].a) && rows[j].fb == f(rows[j].b)
  {
    assert IsStep(f, a, b, rows, j);
    if j > 0 {
      EndValues(f, a, b, rows, j - 1);
      assert IsStep(f, a, b, rows, j - 1);
    }
  }

  /** A row works on a true bracket: finite ends in order, end values of
      opposite signs, and an estimate strictly between the ends. */
  predicate Brackets(f: RealFn, r: Row) {
    r.a.Fin? && r.b.Fin? && r.fa.Fin? && r.fb.Fin? && r.xr.Fin?
    && r.fa == f(r.a) && r.fb == f(r.b)
    && r.fa.v * r.fb.v < 0.0
    && r.a.v < r.xr.v < r.b.v
  }

  /** The classical invariant: as long as `f` has answered with finite
      values, every row of a run that passed the end-point gates brackets a
      sign change, and its estimate lies strictly inside, so `left < right`
      is kept. */
  lemma {:induction false} BracketInvariant(f: RealFn, a: real, b: real, tol: real, maxIter: int, o: Outcome<Num, Row>, j: int)
    requires a < b && f(Fin(a)).Fin? && f(Fin(b)).Fin? && f(Fin(a)).v * f(Fin(b)).v < 0.0
    requires Reports(f, a, b, tol, maxIter, o) && 0 <= j < |o.trace|
    requires forall k | 0 <= k < j :: o.trace[k].fxr.Fin?
    ensures Brackets(f, o.trace[j])
  {
    var t := o.trace;
    var r := t[j];
    assert IsStep(f, a, b, t, j);
    if j == 0 {
      EstimateInside(a, b, f(Fin(a)).v, f(Fin(b)).v);
    } else {
      var p := t[j - 1];
      BracketInvariant(f, a, b, tol, maxIter, o, j - 1);
      assert IsStep(f, a, b, t, j - 1);
      assert !Stops(p, tol);
      if Lt(Mul(p.fa, p.fxr), Fin(0.0)) {
        assert p.fa.v * p.fxr.v < 0.0;
      } else {
        SignCarries(p.fa.v, p.fb.v, p.fxr.v);
      }
      EstimateInside(r.a.v, r.b.v, r.fa.v, r.fb.v);
    }
  }

  /** Two chains from the same bracket agree row by row. */
  lemma {:induction false} ChainsAgree(f: RealFn, a: real, b: real, t1: seq<Row>, t2: seq<Row>, j: int)
    requires Chain(f, a, b, t1) && Chain(f, a, b, t2)
    requires 0 <= j < |t1| && j < |t2|
    ensures t1[j] == t2[j]
  {
    assert IsStep(f, a, b, t1, j) && IsStep(f, a, b, t2, j);
    if j > 0 {
      ChainsAgree(f, a, b, t1, t2, j - 1);
    }
  }

  lemma NotShorter(f: RealFn, a: real, b: real, tol: real, maxIter: int, o1: Outcome<Num, Row>, o2: Outcome<Num, Row>)
    requires Reports(f, a, b, tol, maxIter, o1) && Reports(f, a, b, tol, maxIter, o2)
    ensures |o1.trace| >= |o2.trace|
  {
    var t1, t2 := o1.trace, o2.trace;
    var k := |t1|;
    if k < |t2| {
      ChainsAgree(f, a, b, t1, t2, k - 1);
      assert false;
    }
  }

  /** The contract of `Run` leaves no freedom: a run is a function of its inputs
      (for a deterministic user function). */
  lemma ReportsDetermined(f: RealFn, a: real, b: real, tol: real, maxIter: int, o1: Outcome<Num, Row>, o2: Outcome<Num, Row>)
    requires Reports(f, a, b, tol, maxIter, o1) && Reports(f, a, b, tol, maxIter, o2)
    ensures o1 == o2
  {
    NotShorter(f, a, b, tol, maxIter, o1, o2);
    NotShorter(f, a, b, tol, maxIter, o2, o1);
    var t1, t2 := o1.trace, o2.trace;
    forall j | 0 <= j < |t1| ensures t1[j] == t2[j] {
      ChainsAgree(f, a, b, t1, t2, j);
    }
    assert t1 == t2;
  }
}
