/** `roundTo`, the display helper every method page defines identically: it
    turns a value into what a table cell shows, rounding half up (`approx`)
    or truncating toward zero (`trunc`) at a number of decimal places. It
    is applied when rendering only; no `Run` takes a digit count or a mode. */
module Display {
  import opened Numeric

  datatype RoundMode = Approx | Trunc

  function Pow10(n: nat): (p: real)
    ensures p >= 1.0
  {
    if n == 0 then 1.0 else 10.0 * Pow10(n - 1)
  }

  /** `n | 0` on a whole number: the signed 32-bit integer congruent to `n` modulo 2^32. */
  function ToInt32(n: int): (r: int)
    ensures -0x8000_0000 <= r < 0x8000_0000
    ensures (n - r) % 0x1_0000_0000 == 0
  {
    var m := n % 0x1_0000_0000;
    if m >= 0x8000_0000 then m - 0x1_0000_0000 else m
  }

  /** `Math.trunc`: the whole number nearest `y` in the direction of zero. */
  function TruncInt(y: real): int {
    if y >= 0.0 then y.Floor else -((-y).Floor)
  }

  /** `Math.round`: the nearest whole number, halves going up. */
  function RoundHalfUp(y: real): int {
    (y + 0.5).Floor
  }

  lemma TruncIntBounds(y: real)
    ensures Abs(y - TruncInt(y) as real) < 1.0
    ensures Abs(TruncInt(y) as real) <= Abs(y)
  {
    if y >= 0.0 {
      var n := y.Floor;
      assert n as real <= y < n as real + 1.0;
      assert n >= 0;
    } else {
      var m := (-y).Floor;
      assert m as real <= -y < m as real + 1.0;
      assert m >= 0;
      assert TruncInt(y) == -m;
    }
  }

  lemma RoundHalfUpBound(y: real)
    ensures Abs(y - RoundHalfUp(y) as real) <= 0.5
  {
    var n := (y + 0.5).Floor;
    assert n as real <= y + 0.5 < n as real + 1.0;
  }

  /** Both ways of making a whole number leave a whole number alone. */
  lemma WholeUnchanged(k: int)
    ensures TruncInt(k as real) == k && RoundHalfUp(k as real) == k
  {
    var y := k as real;
    assert y.Floor == k;
    assert (-y).Floor == -k;
    var n := (y + 0.5).Floor;
    assert n as real <= y + 0.5 < n as real + 1.0;
    assert n < k + 1 && k < n + 1;
  }

  /** `Math.max(0, d | 0)`: NaN and the infinities count as 0, a fraction is
      cut toward zero, and what remains wraps to 32 bits. */
  function DecimalPlaces(d: Num): nat {
    match d
    case NonFinite => 0
    case Fin(v) => Max0(ToInt32(TruncInt(v)))
  }

  /** A finite value scaled up by `factor`, made whole, and scaled back. */
  function Shown(x: real, factor: real, mode: RoundMode): real
    requires factor > 0.0
  {
    (if mode == Approx then RoundHalfUp(x * factor) else TruncInt(x * factor)) as real / factor
  }

  /** `roundTo(x, d, mode)` */
  function RoundTo(x: Num, d: Num, mode: RoundMode): (r: Num)
    ensures !x.Fin? ==> r == x
    ensures x.Fin? ==> r.Fin?
  {
    if x.Fin? then Fin(Shown(x.v, Pow10(DecimalPlaces(d)), mode)) else x
  }

  /** Dividing a scaled-up value back: the distance shrinks by the same factor. */
  lemma Unscale(x: real, k: real, factor: real)
    requires factor > 0.0
    ensures Abs(x - k / factor) == Abs(x * factor - k) / factor
  {
    assert x - k / factor == (x * factor - k) / factor;
  }

  lemma DivideBoth(p: real, q: real, factor: real)
    requires factor > 0.0
    ensures p <= q ==> p / factor <= q / factor
    ensures p < q ==> p / factor < q / factor
  {
  }

  lemma ShownTruncBounds(x: real, factor: real)
    requires factor > 0.0
    ensures Abs(Shown(x, factor, Trunc)) <= Abs(x)
    ensures Abs(x - Shown(x, factor, Trunc)) < 1.0 / factor
  {
    var y := x * factor;
    var k := TruncInt(y) as real;
    assert Shown(x, factor, Trunc) == k / factor;
    TruncIntBounds(y);
    Unscale(x, k, factor);
    DivideBoth(Abs(y - k), 1.0, factor);
    Unscale(0.0, k, factor);
    Unscale(x, 0.0, factor);
    DivideBoth(Abs(k), Abs(y), factor);
  }

  lemma ShownApproxBound(x: real, factor: real)
    requires factor > 0.0
    ensures Abs(x - Shown(x, factor, Approx)) <= 0.5 / factor
  {
    var k := RoundHalfUp(x * factor) as real;
    assert Shown(x, factor, Approx) == k / factor;
    RoundHalfUpBound(x * factor);
    Unscale(x, k, factor);
    DivideBoth(Abs(x * factor - k), 0.5, factor);
  }

  /** A value that is already a whole number of units of the last place is shown as it is. */
  lemma ShownOfWhole(n: int, factor: real, mode: RoundMode)
    requires factor > 0.0
    ensures Shown(n as real / factor, factor, mode) == n as real / factor
  {
    var r := n as real / factor;
    ShownUnfold(r, factor, mode);
    assert r * factor == n as real;
    WholeUnchanged(n);
  }

  lemma ShownUnfold(r: real, factor: real, mode: RoundMode)
    requires factor > 0.0
    ensures Shown(r, factor, mode)
         == (if mode == Approx then RoundHalfUp(r * factor) else TruncInt(r * factor)) as real / factor
  {
  }

  lemma ShownIdempotent(x: real, factor: real, mode: RoundMode)
    requires factor > 0.0
    ensures Shown(Shown(x, factor, mode), factor, mode) == Shown(x, factor, mode)
  {
    var n := if mode == Approx then RoundHalfUp(x * factor) else TruncInt(x * factor);
    assert Shown(x, factor, mode) == n as real / factor;
    ShownOfWhole(n, factor, mode);
  }

  /** A negative count of decimal places (within the 32-bit range) or a
      non-finite one counts as none. */
  lemma NegativePlacesAsZero(x: Num, d: Num, mode: RoundMode)
    requires d.Fin? ==> -2147483648.0 <= d.v <= 0.0
    ensures RoundTo(x, d, mode) == RoundTo(x, Fin(0.0), mode)
  {
    if d.Fin? {
      var n := TruncInt(d.v);
      TruncIntBounds(d.v);
      assert -0x8000_0000 <= n <= 0;
      assert ToInt32(n) == n;
    }
    assert TruncInt(0.0) == 0;
  }

  /** `r` has at most `n` decimal places: scaled by `10^n` it is a whole number. */
  predicate HasPlaces(r: real, n: nat) {
    (r * Pow10(n)).Floor as real == r * Pow10(n)
  }

  lemma WholeOverFactor(k: int, factor: real)
    requires factor > 0.0
    ensures (k as real / factor) * factor == k as real
  {
  }

  /** A value whose scaled-up form is a whole number has that many places. */
  lemma WholeHasPlaces(r: real, n: nat, k: int)
    requires r * Pow10(n) == k as real
    ensures HasPlaces(r, n)
  {
  }

  lemma ShownTimesFactor(x: real, factor: real, mode: RoundMode)
    requires factor > 0.0
    ensures Shown(x, factor, mode) * factor
         == (if mode == Approx then RoundHalfUp(x * factor) else TruncInt(x * factor)) as real
  {
    var k := if mode == Approx then RoundHalfUp(x * factor) else TruncInt(x * factor);
    ShownUnfold(x, factor, mode);
    WholeOverFactor(k, factor);
  }

  /** What is shown has at most `d` decimal places: it lies on the grid of
      multiples of `10^-d`. */
  lemma OnGrid(x: real, d: Num, mode: RoundMode)
    ensures HasPlaces(RoundTo(Fin(x), d, mode).v, DecimalPlaces(d))
  {
    var n := DecimalPlaces(d);
    var p := Pow10(n);
    var k := if mode == Approx then RoundHalfUp(x * p) else TruncInt(x * p);
    ShownTimesFactor(x, p, mode);
    WholeHasPlaces(RoundTo(Fin(x), d, mode).v, n, k);
  }

  /** Truncation keeps `d` decimal places, never moves away from zero and
      loses less than one unit of the last place kept. */
  lemma TruncBounds(x: real, d: Num)
    ensures Abs(RoundTo(Fin(x), d, Trunc).v) <= Abs(x)
    ensures Abs(x - RoundTo(Fin(x), d, Trunc).v) < 1.0 / Pow10(DecimalPlaces(d))
    ensures HasPlaces(RoundTo(Fin(x), d, Trunc).v, DecimalPlaces(d))
  {
    OnGrid(x, d, Trunc);
    ShownTruncBounds(x, Pow10(DecimalPlaces(d)));
  }

  /** Rounding to nearest keeps `d` decimal places and is off by at most half
      a unit of the last place kept. */
  lemma ApproxBound(x: real, d: Num)
    ensures Abs(x - RoundTo(Fin(x), d, Approx).v) <= 0.5 / Pow10(DecimalPlaces(d))
    ensures HasPlaces(RoundTo(Fin(x), d, Approx).v, DecimalPlaces(d))
  {
    OnGrid(x, d, Approx);
    ShownApproxBound(x, Pow10(DecimalPlaces(d)));
  }

  /** Rounding an already rounded value changes nothing. */
  lemma RoundToIdempotent(x: Num, d: Num, mode: RoundMode)
    ensures RoundTo(RoundTo(x, d, mode), d, mode) == RoundTo(x, d, mode)
  {
    if x.Fin? {
      ShownIdempotent(x.v, Pow10(DecimalPlaces(d)), mode);
    }
  }
}
