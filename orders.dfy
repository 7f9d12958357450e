/**
 * Order reconstruction: `get_closest_order` and `matrix_row_to_spectrum` of
 * arcesetc/util.py, with the two numpy primitives they use, `np.arange` and
 * `np.polyval`.
 */
module Orders {
  import opened Nearest

  /** One echelle order: `[lam_0, delta_lam, n_lam, c_0, ..., c_m]`. */
  type Row = seq<real>

  /** A template matrix from the archive: one row per order. */
  type Matrix = seq<Row>

  /** A row that `matrix_row_to_spectrum` can read: the three header values, and a non-zero step for `np.arange`. */
  predicate WellFormedRow(row: Row) {
    |row| >= 3 && row[1] != 0.0
  }

  predicate WellFormedMatrix(m: Matrix) {
    |m| > 0 && forall i :: 0 <= i < |m| ==> WellFormedRow(m[i])
  }

  /** `matrix[:, 0]`, the center wavelengths of the orders. */
  function Centers(m: Matrix): (r: seq<real>)
    requires forall i :: 0 <= i < |m| ==> |m[i]| > 0
    ensures |r| == |m| && forall i :: 0 <= i < |m| ==> r[i] == m[i][0]
  {
    seq(|m|, i requires 0 <= i < |m| => m[i][0])
  }

  /**
   * get_closest_order: a row index whose center is nearest to `wavelength`,
   * the first such row on ties.
   */
  function GetClosestOrder(m: Matrix, wavelength: real): (k: nat)
    requires |m| > 0 && forall i :: 0 <= i < |m| ==> |m[i]| > 0
    ensures k < |m|
    ensures forall j :: 0 <= j < |m| ==> Dist(m[k][0], wavelength) <= Dist(m[j][0], wavelength)
    ensures forall j :: 0 <= j < k ==> Dist(m[j][0], wavelength) > Dist(m[k][0], wavelength)
  {
    NearestIndex(Centers(m), wavelength)
  }

  /** `math.ceil` on reals. */
  function Ceil(x: real): (c: int)
    ensures x <= c as real < x + 1.0
  {
    -((-x).Floor)
  }

  /** Number of samples `np.arange(start, stop, step)` yields, in exact arithmetic. */
  function ArangeCount(start: real, stop: real, step: real): (n: nat)
    requires step != 0.0
  {
    var c := Ceil((stop - start) / step);
    if c < 0 then 0 else c
  }

  /** The sample count is the number of steps that fit, rounded up: none when `stop` is not ahead of `start`. */
  lemma ArangeCountBounds(start: real, stop: real, step: real)
    requires step != 0.0
    ensures var n := ArangeCount(start, stop, step);
      (n == 0 <==> (stop - start) / step <= 0.0)
      && (n > 0 ==> (n - 1) as real < (stop - start) / step <= n as real)
  {
  }

  /** `np.arange(start, stop, step)`: `start + i*step` for each sample index `i`. */
  function Arange(start: real, stop: real, step: real): (r: seq<real>)
    requires step != 0.0
    ensures |r| == ArangeCount(start, stop, step)
    ensures forall i :: 0 <= i < |r| ==> r[i] == start + (i as real) * step
  {
    seq(ArangeCount(start, stop, step), i => start + (i as real) * step)
  }

  /** For a positive step, every sample of `np.arange` lies in the half-open range `[start, stop)`. */
  lemma ArangeHalfOpen(start: real, stop: real, step: real, i: nat)
    requires step > 0.0
    requires i < ArangeCount(start, stop, step)
    ensures start <= Arange(start, stop, step)[i] < stop
  {
    var c := Ceil((stop - start) / step);
    assert (i as real) + 1.0 <= c as real;
    assert (i as real) < (stop - start) / step;
    assert (i as real) * step < ((stop - start) / step) * step;
  }

  /** `np.polyval(p, x)` by Horner's rule: coefficients in decreasing-power order. */
  function PolyVal(p: seq<real>, x: real): real
  {
    if |p| == 0 then 0.0 else PolyVal(p[..|p| - 1], x) * x + p[|p| - 1]
  }

  function Pow(x: real, k: nat): real
  {
    if k == 0 then 1.0 else x * Pow(x, k - 1)
  }

  /** The polynomial written out: `p[0]*x^(m-1) + p[1]*x^(m-2) + ... + p[m-1]`. */
  function PowerSum(p: seq<real>, x: real): real
  {
    if |p| == 0 then 0.0 else p[0] * Pow(x, |p| - 1) + PowerSum(p[1..], x)
  }

  /** Horner's rule peeled from the highest-order end. */
  lemma {:induction false} PolyValLeading(p: seq<real>, x: real)
    requires |p| > 0
    ensures PolyVal(p, x) == p[0] * Pow(x, |p| - 1) + PolyVal(p[1..], x)
  {
    if |p| > 1 {
      var q := p[..|p| - 1];
      PolyValLeading(q, x);
      assert p[1..][..|p| - 2] == q[1..];
      calc {
        PolyVal(p, x);
        PolyVal(q, x) * x + p[|p| - 1];
        (q[0] * Pow(x, |q| - 1) + PolyVal(q[1..], x)) * x + p[|p| - 1];
        q[0] * (Pow(x, |q| - 1) * x) + (PolyVal(q[1..], x) * x + p[|p| - 1]);
        { assert Pow(x, |p| - 1) == x * Pow(x, |q| - 1); }
        p[0] * Pow(x, |p| - 1) + PolyVal(p[1..], x);
      }
    } else {
      assert p[..0] == [];
    }
  }

  /** polyval evaluates the polynomial whose coefficients come in decreasing-power order. */
  lemma {:induction false} PolyValIsPowerSum(p: seq<real>, x: real)
    ensures PolyVal(p, x) == PowerSum(p, x)
    decreases |p|
  {
    if |p| > 0 {
      PolyValLeading(p, x);
      PolyValIsPowerSum(p[1..], x);
    }
  }

  /** A reconstructed order: wavelengths and flux in counts per second. */
  datatype Spectrum = Spectrum(wave: seq<real>, flux: seq<real>)

  /** The polynomial `p` evaluated at `wave[i] - center` for every sample. */
  function PolyValAt(p: seq<real>, wave: seq<real>, center: real): (r: seq<real>)
    ensures |r| == |wave|
    ensures forall i :: 0 <= i < |wave| ==> r[i] == PolyVal(p, wave[i] - center)
  {
    seq(|wave|, i requires 0 <= i < |wave| => PolyVal(p, wave[i] - center))
  }

  /**
   * matrix_row_to_spectrum: the evenly spaced grid of the order centred on
   * `lam_0`, and its polynomial flux model evaluated relative to `lam_0`.
   */
  function MatrixRowToSpectrum(m: Matrix, order: nat): (s: Spectrum)
    requires order < |m| && WellFormedRow(m[order])
    ensures |s.flux| == |s.wave|
  {
    var row := m[order];
    var wave := Grid(row[0], row[1], row[2]);
    Spectrum(wave, PolyValAt(row[3..], wave, row[0]))
  }

  /** `np.arange(lam_0 - n_lam*delta_lam/2, lam_0 + n_lam*delta_lam/2, delta_lam)`. */
  function Grid(lam0: real, dlam: real, nlam: real): (r: seq<real>)
    requires dlam != 0.0
  {
    Arange(lam0 - nlam * dlam / 2.0, lam0 + nlam * dlam / 2.0, dlam)
  }

  /**
   * For an integral sample count `n` the grid has exactly `n` points,
   * `lam_0 - n*d/2 + i*d`, and for a positive step `d` they lie in the
   * half-open range `[lam_0 - n*d/2, lam_0 + n*d/2)`.
   */
  lemma GridOfCount(lam0: real, d: real, n: nat)
    requires d != 0.0
    ensures |Grid(lam0, d, n as real)| == n
    ensures var g := Grid(lam0, d, n as real);
      forall i :: 0 <= i < n ==> g[i] == lam0 - (n as real) * d / 2.0 + (i as real) * d
    ensures var g := Grid(lam0, d, n as real);
      d > 0.0 ==> forall i :: 0 <= i < n ==>
        lam0 - (n as real) * d / 2.0 <= g[i] < lam0 + (n as real) * d / 2.0
  {
    var lo, hi := lam0 - (n as real) * d / 2.0, lam0 + (n as real) * d / 2.0;
    assert Grid(lam0, d, n as real) == Arange(lo, hi, d);
    assert (hi - lo) / d == n as real by {
      assert hi - lo == (n as real) * d;
    }
    if d > 0.0 {
      forall i | 0 <= i < n ensures lo <= Arange(lo, hi, d)[i] < hi {
        ArangeHalfOpen(lo, hi, d, i);
      }
    }
  }

  /**
   * With an integral sample count `n`, the reconstructed order has `n`
   * wavelengths given by `GridOfCount`, and `flux[i]` is the row's polynomial
   * in decreasing powers of `wave[i] - lam_0`.
   */
  lemma SpectrumOfRow(m: Matrix, order: nat, n: nat)
    requires order < |m| && WellFormedRow(m[order])
    requires m[order][2] == n as real
    ensures MatrixRowToSpectrum(m, order).wave == Grid(m[order][0], m[order][1], n as real)
    ensures |MatrixRowToSpectrum(m, order).wave| == n
    ensures |MatrixRowToSpectrum(m, order).flux| == n
    ensures forall i :: 0 <= i < n ==>
      MatrixRowToSpectrum(m, order).flux[i]
      == PowerSum(m[order][3..], MatrixRowToSpectrum(m, order).wave[i] - m[order][0])
  {
    var row := m[order];
    GridOfCount(row[0], row[1], n);
    var s := MatrixRowToSpectrum(m, order);
    forall i | 0 <= i < n ensures s.flux[i] == PowerSum(row[3..], s.wave[i] - row[0]) {
      PolyValIsPowerSum(row[3..], s.wave[i] - row[0]);
    }
  }
}
