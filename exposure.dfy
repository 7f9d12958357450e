/**
 * Exposure logic of arcesetc/util.py: `scale_flux`, `sn_to_exp_time`, and the
 * two composed operations `reconstruct_order` and
 * `signal_to_noise_to_exp_time`, which scale a flux array in place.
 */
module Exposure {
  import opened Outcomes
  import opened Nearest
  import opened SpTypes
  import opened Orders

  /** `archive[target]`: the template matrix and its reference magnitude `attrs['V'][0]`. */
  datatype Template = Template(matrix: Matrix, vMag: real)

  /** The read-only archive: target name -> template. */
  type Archive = map<string, Template>

  /** The module globals util.py loads once: `sptypes`, `sptype_to_temp` and `archive`. */
  datatype Data = Data(catalog: Catalog, temps: TempTable, archive: Archive)

  /**
   * The data invariants the code relies on: the temperature table is a
   * dictionary, and every catalogued target is in the archive with a matrix
   * whose rows `matrix_row_to_spectrum` can read.
   */
  predicate Valid(d: Data) {
    WellFormed(d.temps)
    && forall l :: l in d.catalog ==>
         d.catalog[l] in d.archive && WellFormedMatrix(d.archive[d.catalog[l]].matrix)
  }

  datatype EtcError =
    | Unresolved(e: SpTypeError)  // closest_sptype raised
    | ExposureArgs                // not exactly one of exp_time, signal_to_noise
    | EmptyOrder                  // argmin over an order with no samples
    | ZeroFlux                    // zero count rate at the wavelength of interest

  /** scale_flux: `10**(0.4 * (template_vmag - V))`, with `10**` passed in as `pow10`. */
  function ScaleFlux(pow10: real -> real, t: Template, V: real): real {
    pow10(0.4 * (t.vMag - V))
  }

  /** Asking for the template's own magnitude leaves the flux unscaled. */
  lemma ScaleAtTemplateMagnitude(pow10: real -> real, t: Template)
    requires pow10(0.0) == 1.0
    ensures ScaleFlux(pow10, t, t.vMag) == 1.0
  {
  }

  /** `flux * c`, element by element. */
  function Scaled(xs: seq<real>, c: real): (r: seq<real>)
    ensures |r| == |xs|
    ensures forall i :: 0 <= i < |xs| ==> r[i] == xs[i] * c
  {
    seq(|xs|, i requires 0 <= i < |xs| => xs[i] * c)
  }

  /** `flux *= c`: scales the array in place. */
  method ScaleInPlace(a: array<real>, c: real)
    modifies a
    ensures a[..] == Scaled(old(a[..]), c)
  {
    forall i | 0 <= i < a.Length {
      a[i] := a[i] * c;
    }
    assert forall i :: 0 <= i < a.Length ==> a[..][i] == old(a[..])[i] * c;
  }

  /** `flux[np.argmin(np.abs(wave - wavelength))]`: the flux at the sample nearest the wavelength. */
  function FluxAt(wave: seq<real>, flux: seq<real>, wavelength: real): real
    requires |wave| > 0 && |flux| == |wave|
  {
    flux[NearestIndex(wave, wavelength)]
  }

  /**
   * sn_to_exp_time: the exposure time at which the counts at the sample
   * nearest `wavelength` reach `snr**2`, so that the Poisson S/N there is `snr`.
   */
  function SnToExpTime(wave: seq<real>, flux: seq<real>, wavelength: real, snr: real): (r: Result<real, EtcError>)
    requires |flux| == |wave|
    ensures r == Err(EmptyOrder) <==> |wave| == 0
    ensures r == Err(ZeroFlux) <==> |wave| > 0 && FluxAt(wave, flux, wavelength) == 0.0
    ensures |wave| > 0 && FluxAt(wave, flux, wavelength) != 0.0 ==> r.Ok?
    ensures r.Ok? ==> FluxAt(wave, flux, wavelength) * r.value == snr * snr
  {
    if |wave| == 0 then Err(EmptyOrder)
    else
      var flux0 := FluxAt(wave, flux, wavelength);
      if flux0 == 0.0 then Err(ZeroFlux) else Ok(snr * snr / flux0)
  }

  /** Scaling the rates by the exposure time for `snr` makes the counts at the wavelength `snr**2`. */
  lemma SnCountsAtWavelength(wave: seq<real>, rate: seq<real>, wavelength: real, snr: real, counts: seq<real>)
    requires |rate| == |wave| && SnToExpTime(wave, rate, wavelength, snr).Ok?
    requires counts == Scaled(rate, SnToExpTime(wave, rate, wavelength, snr).value)
    ensures counts[NearestIndex(wave, wavelength)] == snr * snr
  {
    var k0 := NearestIndex(wave, wavelength);
    assert counts[k0] == rate[k0] * SnToExpTime(wave, rate, wavelength, snr).value;
  }

  /**
   * Round trip: if an exposure of `t` seconds gives counts whose square root
   * at the wavelength is `snr`, asking for that S/N gives back `t`.
   */
  lemma ExpTimeRoundTrip(wave: seq<real>, rate: seq<real>, wavelength: real, t: real, snr: real)
    requires |wave| > 0 && |rate| == |wave| && FluxAt(wave, rate, wavelength) != 0.0
    requires snr * snr == FluxAt(wave, Scaled(rate, t), wavelength)
    ensures SnToExpTime(wave, rate, wavelength, snr) == Ok(t)
  {
    var f := FluxAt(wave, rate, wavelength);
    assert snr * snr == f * t;
    assert snr * snr / f == t;
  }

  /** A per-second, magnitude-scaled order curve and the spectral type it was built from. */
  datatype Curve = Curve(sptype: Label, wave: seq<real>, rate: seq<real>)

  /** The template of a resolved catalog label. */
  function TemplateOf(d: Data, resolved: Label): Template
    requires Valid(d) && resolved in d.catalog
  {
    d.archive[d.catalog[resolved]]
  }

  /** The unscaled reconstruction of the order nearest `wavelength` in a template. */
  function OrderSpectrum(t: Template, wavelength: real): (s: Spectrum)
    requires WellFormedMatrix(t.matrix)
    ensures |s.flux| == |s.wave|
  {
    MatrixRowToSpectrum(t.matrix, GetClosestOrder(t.matrix, wavelength))
  }

  /**
   * Shared first half of `reconstruct_order` and `signal_to_noise_to_exp_time`:
   * resolve the type, pick the nearest order, reconstruct it and scale it to
   * magnitude `V`.
   */
  function RateCurve(d: Data, pow10: real -> real, sptype: string, wavelength: real, V: real): (r: Result<Curve, EtcError>)
    requires Valid(d)
    ensures r.Err? <==> ClosestSpType(d.catalog, d.temps, sptype).Err?
    ensures r.Err? ==> r.error == Unresolved(ClosestSpType(d.catalog, d.temps, sptype).error)
    ensures r.Ok? ==> r.value.sptype == ClosestSpType(d.catalog, d.temps, sptype).value
    ensures r.Ok? ==> r.value.sptype in d.catalog
    ensures r.Ok? ==>
      var t := TemplateOf(d, r.value.sptype);
      var s := OrderSpectrum(t, wavelength);
      r.value.wave == s.wave && r.value.rate == Scaled(s.flux, ScaleFlux(pow10, t, V))
  {
    match ClosestTarget(d.catalog, d.temps, sptype)
    case Err(e) => Err(Unresolved(e))
    case Ok((target, resolved)) =>
      var t := d.archive[target];
      var s := OrderSpectrum(t, wavelength);
      Ok(Curve(resolved, s.wave, Scaled(s.flux, ScaleFlux(pow10, t, V))))
  }

  /**
   * The S/N branch of `reconstruct_order` on the magnitude-scaled rates in
   * `flux`: find the exposure time, then scale the array in place by it.
   */
  method ExposeForSignalToNoise(wave: seq<real>, flux: array<real>, wavelength: real, snr: real)
    returns (e: Result<real, EtcError>)
    requires flux.Length == |wave|
    modifies flux
    ensures e == SnToExpTime(wave, old(flux[..]), wavelength, snr)
    ensures e.Ok? ==> flux[..] == Scaled(old(flux[..]), e.value)
    ensures e.Ok? ==> flux[..][NearestIndex(wave, wavelength)] == snr * snr
  {
    e := SnToExpTime(wave, flux[..], wavelength, snr);
    if e.Ok? {
      ghost var before := flux[..];
      ScaleInPlace(flux, e.value);
      SnCountsAtWavelength(wave, before, wavelength, snr, flux[..]);
    }
  }

  /**
   * The steps both composed operations begin with: resolve the spectral type,
   * reconstruct the nearest order into a fresh flux array, and scale that array
   * in place to magnitude `V`.
   */
  method ScaledOrder(d: Data, pow10: real -> real, sptype: string, wavelength: real, V: real)
    returns (r: Result<(Label, seq<real>, array<real>), EtcError>)
    requires Valid(d)
    ensures var c := RateCurve(d, pow10, sptype, wavelength, V);
      c.Err? ==> r == Err(c.error)
    ensures var c := RateCurve(d, pow10, sptype, wavelength, V);
      c.Ok? ==>
        r.Ok? && fresh(r.value.2)
        && r.value.0 == c.value.sptype && r.value.1 == c.value.wave && r.value.2[..] == c.value.rate
  {
    var found := ClosestTarget(d.catalog, d.temps, sptype);
    if found.Err? {
      assert RateCurve(d, pow10, sptype, wavelength, V) == Err(Unresolved(found.error));
      return Err(Unresolved(found.error));
    }
    var (target, resolved) := found.value;
    var t := d.archive[target];
    var s := OrderSpectrum(t, wavelength);
    var flux := new real[|s.flux|](i requires 0 <= i < |s.flux| => s.flux[i]);
    assert flux[..] == s.flux;
    ScaleInPlace(flux, ScaleFlux(pow10, t, V));
    assert RateCurve(d, pow10, sptype, wavelength, V) == Ok(Curve(resolved, s.wave, flux[..]));
    r := Ok((resolved, s.wave, flux));
  }

  /** What `reconstruct_order` returns: `(wave, flux, closest_spectral_type, exp_time)`. */
  datatype Reconstruction = Reconstruction(wave: seq<real>, flux: array<real>, sptype: Label, expTime: real)

  /**
   * reconstruct_order: the counts curve of the nearest order, for a given
   * exposure time or for the exposure time that reaches the given S/N at
   * `wavelength`.
   */
  method ReconstructOrder(d: Data, pow10: real -> real, sptype: string, wavelength: real, V: real,
                          expTime: Option<real>, snr: Option<real>)
    returns (r: Result<Reconstruction, EtcError>)
    requires Valid(d)
    ensures var c := RateCurve(d, pow10, sptype, wavelength, V);
      c.Err? ==> r == Err(c.error)
    ensures var c := RateCurve(d, pow10, sptype, wavelength, V);
      c.Ok? && expTime.Some? == snr.Some? ==> r == Err(ExposureArgs)
    ensures var c := RateCurve(d, pow10, sptype, wavelength, V);
      c.Ok? && expTime.Some? && snr.None? ==>
        r.Ok? && fresh(r.value.flux)
        && r.value.wave == c.value.wave && r.value.sptype == c.value.sptype
        && r.value.expTime == expTime.value
        && r.value.flux[..] == Scaled(c.value.rate, expTime.value)
    ensures var c := RateCurve(d, pow10, sptype, wavelength, V);
      c.Ok? && expTime.None? && snr.Some? ==>
        var e := SnToExpTime(c.value.wave, c.value.rate, wavelength, snr.value);
        (e.Err? ==> r == Err(e.error))
        && (e.Ok? ==>
              r.Ok? && fresh(r.value.flux)
              && r.value.wave == c.value.wave && r.value.sptype == c.value.sptype
              && r.value.expTime == e.value
              && r.value.flux[..] == Scaled(c.value.rate, e.value))
  {
    var scaled := ScaledOrder(d, pow10, sptype, wavelength, V);
    if scaled.Err? {
      return Err(scaled.error);
    }
    var (resolved, wave, flux) := scaled.value;
    if expTime.Some? && snr.None? {
      ScaleInPlace(flux, expTime.value);
      r := Ok(Reconstruction(wave, flux, resolved, expTime.value));
    } else if expTime.None? && snr.Some? {
      var e := ExposeForSignalToNoise(wave, flux, wavelength, snr.value);
      if e.Err? {
        return Err(e.error);
      }
      r := Ok(Reconstruction(wave, flux, resolved, e.value));
    } else {
      r := Err(ExposureArgs);
    }
  }

  /**
   * signal_to_noise_to_exp_time: the exposure time of the S/N branch of
   * `reconstruct_order`, without the counts curve.
   */
  method SignalToNoiseToExpTime(d: Data, pow10: real -> real, sptype: string, wavelength: real, V: real, snr: real)
    returns (r: Result<real, EtcError>)
    requires Valid(d)
    ensures var c := RateCurve(d, pow10, sptype, wavelength, V);
      r == if c.Err? then Err(c.error) else SnToExpTime(c.value.wave, c.value.rate, wavelength, snr)
  {
    var scaled := ScaledOrder(d, pow10, sptype, wavelength, V);
    if scaled.Err? {
      return Err(scaled.error);
    }
    var (_, wave, flux) := scaled.value;
    r := SnToExpTime(wave, flux[..], wavelength, snr);
  }
}
