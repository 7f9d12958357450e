# arcesetc in Dafny

arcesetc is an exposure-time calculator for the ARCES echelle spectrograph.
Given a star's spectral type, its V magnitude and a wavelength of interest, it
does three things:

- it resolves the type to a catalogued template star, taking the dwarf nearest
  in temperature when the exact type is missing;
- it reconstructs the echelle order nearest the wavelength from the template's
  polynomial blaze model, scaled to the star's magnitude;
- it turns those count rates into a counts curve for a given exposure time, or
  into the exposure time that reaches a requested signal-to-noise ratio.

This project models that core, arcesetc/util.py, together with the `Indexer`
slicing helper in arcesetc/tests/legacy_specutils/indexer.py.

Modules:

- `Outcomes`: `Option` and `Result`.
- `Nearest`: `np.argmin(np.abs(xs - x))` as the first index of minimal distance.
  `closest_sptype`, `get_closest_order` and `sn_to_exp_time` all rely on it.
- `TextOrder`: Python's ordering of `str` values, which is what `sorted` uses.
- `SpTypes`: `closest_sptype`, `closest_target` and `available_sptypes`.
  They work over the two lookup tables the module loads at import time.
- `Orders`: `get_closest_order` and `matrix_row_to_spectrum`, with exact
  models of `np.arange` and `np.polyval`.
- `Exposure`: `scale_flux`, `sn_to_exp_time`, and the composed operations
  `reconstruct_order` and `signal_to_noise_to_exp_time`. The composed
  operations scale a flux array in place (`flux *= ...`), so they are methods
  over an `array<real>`. Each is proved against the pure specification
  function `RateCurve` and against `SnToExpTime`.
- `Slicing`: `Indexer` as an immutable value, covering `__init__`,
  `_parse_slice`, `__getitem__`, `__call__`, `evaluate` and `length`.
- `SlicingIntended`: a direction-aware `_parse_slice` (see Findings).

The loaded data (`sptypes`, `sptype_to_temp`, `archive`) is the `Data`
parameter. `10**` is the parameter `pow10`.

## Model

| member | source | states |
|---|---|---|
| Nearest.NearestIndex | arcesetc/util.py:45 | `argmin` of the distances: an index into the values whose distance to `x` is minimal, and every earlier index is strictly farther (the first minimum wins ties) |
| SpTypes.SpectralTypes | arcesetc/util.py:18 | `spectral_types` holds exactly the temperature-table keys that are also catalogued, and is no longer than the key list; `SpectralTypesOrdered` states that it keeps table order |
| SpTypes.SpectralTypesDistinct | arcesetc/util.py:18 | filtering a key list with no duplicates leaves none |
| SpTypes.SpectralTypesOrdered | arcesetc/util.py:18 | `spectral_types` keeps the order of `sptype_to_temp`'s keys: two entries stand in the same order, and are the same entry exactly when they come from the same key |
| SpTypes.Temps | arcesetc/util.py:19-20 | `temps[i]` is the temperature of `spectral_types[i]`, position by position |
| SpTypes.IsDwarfLabel | arcesetc/util.py:44 | the dwarf test: exactly 3 characters, the last one "V" (its body; it has no contract) |
| SpTypes.NearestInTableOrder | arcesetc/util.py:45 | the first minimum over `temps` is a catalogued key nearest in temperature, and every catalogued key before it in table order is strictly farther |
| SpTypes.ClosestSpType | arcesetc/util.py:42-49 | a catalogued type is returned unchanged. A non-catalogued label that is not 3 characters ending in "V" is the no-match error. A dwarf label missing from the temperature table is the lookup error, and with no catalogued dwarfs the empty-argmin error. Otherwise the result is catalogued, nearest in temperature among the catalogued keys of the temperature table, and first on ties in that table's key order; it succeeds exactly in those cases |
| SpTypes.ClosestTarget | arcesetc/util.py:68-69 | succeeds exactly when `closest_sptype` does; returns the target the catalog lists for the resolved type, together with that type, and passes on the resolver's error otherwise |
| SpTypes.AvailableSpTypes | arcesetc/util.py:81 | `sorted(sptypes.keys())`: every catalogued type exactly once, nothing else, in strictly ascending string order |
| TextOrder.Less | arcesetc/util.py:81 | Python's `str` ordering, which `sorted` uses: code points compared lexicographically, a proper prefix first (its body; its properties are the four lemmas below) |
| TextOrder.Sorted | arcesetc/util.py:81 | `sorted` of a set of strings: the same elements, one of each, strictly ascending |
| TextOrder.LessIrreflexive | arcesetc/util.py:81 | no string sorts before itself |
| TextOrder.LessTotal | arcesetc/util.py:81 | of two different strings, one sorts before the other |
| TextOrder.LessAsymmetric | arcesetc/util.py:81 | two strings never sort before each other |
| TextOrder.LessTransitive | arcesetc/util.py:81 | the string order is transitive |
| TextOrder.LeastExists | arcesetc/util.py:81 | every non-empty set of strings has a least element |
| TextOrder.LeastUnique | arcesetc/util.py:81 | that least element is unique |
| Orders.Centers | arcesetc/util.py:100 | `matrix[:, 0]`: the first entry of every row, in row order |
| Orders.GetClosestOrder | arcesetc/util.py:100 | a row index whose center wavelength is nearest the wavelength; earlier rows are strictly farther |
| Orders.ArangeCount | arcesetc/util.py:124-125 | `np.arange`'s sample count in exact arithmetic, `max(0, ceil((stop - start)/step))` (its body; `ArangeCountBounds` states what it counts) |
| Orders.ArangeCountBounds | arcesetc/util.py:124-125 | the count is 0 exactly when `stop` is not ahead of `start`, and otherwise the least whole number of steps that reaches `stop` |
| Orders.Arange | arcesetc/util.py:124-125 | `np.arange` has `max(0, ceil((stop - start)/step))` samples, and sample `i` is `start + i*step` |
| Orders.ArangeHalfOpen | arcesetc/util.py:124-125 | for a positive step every sample lies in `[start, stop)` |
| Orders.PolyVal | arcesetc/util.py:126 | `np.polyval` by Horner's rule (its body; `PolyValIsPowerSum` states its value) |
| Orders.PolyValLeading | arcesetc/util.py:126 | Horner's rule in `np.polyval` peels off the leading coefficient times `x^(m-1)` |
| Orders.PolyValIsPowerSum | arcesetc/util.py:126 | `np.polyval(p, x)` equals `p[0]*x^(m-1) + ... + p[m-1]`, with coefficients in decreasing powers |
| Orders.PolyValAt | arcesetc/util.py:126 | the polynomial is evaluated at `wave[i] - lam_0` for every sample |
| Orders.MatrixRowToSpectrum | arcesetc/util.py:122-127 | the flux has one value per wavelength |
| Orders.Grid | arcesetc/util.py:124-125 | the wavelength grid `np.arange(lam_0 - n_lam*d/2, lam_0 + n_lam*d/2, d)` (its body; `GridOfCount` states its points) |
| Orders.GridOfCount | arcesetc/util.py:124-125 | with an integral `n_lam = n`, the grid has exactly `n` points `lam_0 - n*d/2 + i*d`; for `d > 0` they lie in `[lam_0 - n*d/2, lam_0 + n*d/2)` |
| Orders.SpectrumOfRow | arcesetc/util.py:122-126 | with an integral `n_lam = n`, the reconstructed order has `n` wavelengths on that grid, and `flux[i]` is the row's polynomial at `wave[i] - lam_0` |
| Exposure.ScaleAtTemplateMagnitude | arcesetc/util.py:139-141 | at the template's own magnitude the scaling factor is 1 |
| Exposure.ScaleFlux | arcesetc/util.py:130-141 | `scale_flux`: `10**(0.4 * (template_vmag - V))` with the template's `V` (its body; `ScaleAtTemplateMagnitude` states its fixed point) |
| Exposure.Scaled | arcesetc/util.py:221 | `flux * c` multiplies each element by `c` and keeps the length |
| Exposure.ScaleInPlace | arcesetc/util.py:221 | `flux *= c` leaves the array holding the old contents scaled by `c` |
| Exposure.FluxAt | arcesetc/util.py:169 | `flux_0`, the flux at the sample `argmin` picks as nearest the wavelength (its body) |
| Exposure.SnToExpTime | arcesetc/util.py:169-171 | an empty order is an error, and a zero rate at the wavelength is an error; otherwise it succeeds, and the result times the rate at the nearest sample is `snr**2` |
| Exposure.SnCountsAtWavelength | arcesetc/util.py:169-170 | rates scaled by the computed exposure time give exactly `snr**2` counts at the nearest sample |
| Exposure.ExpTimeRoundTrip | arcesetc/util.py:169-170 | if `t` seconds give `snr**2` counts at the wavelength, asking for `snr` gives back `t` |
| Exposure.OrderSpectrum | arcesetc/util.py:219-220 | the nearest order's reconstruction has one flux value per wavelength |
| Exposure.RateCurve | arcesetc/util.py:215-221 | fails exactly when the resolver fails, carrying its error. On success the type is the resolved, catalogued one, the wavelengths are those of the nearest order of its template, and the rates are that order's flux times the magnitude scaling |
| Exposure.ScaledOrder | arcesetc/util.py:215-221 | the steps before the branch: a fresh array holding exactly the scaled rates of `RateCurve`, or its error |
| Exposure.ExposeForSignalToNoise | arcesetc/util.py:226-228 | returns the S/N exposure time of the rates in the array. On success the array now holds those rates times it, with exactly `snr**2` counts at the nearest sample |
| Exposure.ReconstructOrder | arcesetc/util.py:215-232 | a resolver error passes through. Giving both or neither of the exposure time and S/N is an error. With an exposure time the counts are the rates times it. With an S/N the exposure-time error passes through, or the counts are the rates times the computed time, and that time is returned. Wavelengths and resolved type always come from `RateCurve` |
| Exposure.SignalToNoiseToExpTime | arcesetc/util.py:280-289 | the exposure time `sn_to_exp_time` gives on the `RateCurve` rates, or the resolver's error |
| Slicing.CeilDiv | arcesetc/tests/legacy_specutils/indexer.py:117-118 | `q = ceil(a/b)`: `q*b >= a > (q-1)*b` |
| Slicing.Range | arcesetc/tests/legacy_specutils/indexer.py:98 | `np.arange(n)` is `0, 1, ..., n-1` |
| Slicing.Evaluate | arcesetc/tests/legacy_specutils/indexer.py:103-110 | no longer than the input, and every value it keeps lies strictly before `stop` in the step's direction |
| Slicing.EvaluateAppend | arcesetc/tests/legacy_specutils/indexer.py:103-110 | evaluating a concatenation concatenates the results, so the deletion works element by element |
| Slicing.EvaluateOne | arcesetc/tests/legacy_specutils/indexer.py:103-110 | a single index is kept, as `i*step + start`, exactly when that value lies before `stop` |
| Slicing.EvaluateKeepsAll | arcesetc/tests/legacy_specutils/indexer.py:103-110 | when every image lies before `stop`, nothing is deleted |
| Slicing.Make | arcesetc/tests/legacy_specutils/indexer.py:34-41 | `__init__` rejects a zero step and otherwise stores the three values |
| Slicing.ClampStart | arcesetc/tests/legacy_specutils/indexer.py:59-62 | an explicit start is shifted if negative and clamped into `[0, length-1]` (to -1 when length is 0): kept when in `[-length, length)`, 0 below that, `length-1` above |
| Slicing.ClampStop | arcesetc/tests/legacy_specutils/indexer.py:63-66 | an explicit stop is shifted if negative and clamped into `[-1, length]`: kept when in `[-length, length]`, -1 below that, `length` above |
| Slicing.Indexer.ParseSlice | arcesetc/tests/legacy_specutils/indexer.py:43-67 | fails exactly on a zero step. The step defaults to 1. Omitted bounds are `(0, length)` forwards and `(length-1, -1)` backwards. Explicit bounds are clamped as above |
| Slicing.Indexer.GetItem | arcesetc/tests/legacy_specutils/indexer.py:69-84 | fails exactly on a zero slice step; otherwise the new indexer has a non-zero step |
| Slicing.Indexer.Length | arcesetc/tests/legacy_specutils/indexer.py:112-118 | `length`: 0 when `start` points away from `stop`, else `ceil(abs(start - stop) / abs(step))` (its body; `LengthCounts` states what it counts) |
| Slicing.Indexer.Call | arcesetc/tests/legacy_specutils/indexer.py:86-100 | `__call__`: `evaluate` of the given indices, or of `0 .. length-1` (its body; `CallAll` states what it yields) |
| Slicing.LengthCounts | arcesetc/tests/legacy_specutils/indexer.py:112-118 | `k < length` exactly when `start + k*step` lies before `stop`, so `length` counts the represented indices |
| Slicing.CallAll | arcesetc/tests/legacy_specutils/indexer.py:86-100 | `__call__()` yields `start + k*step` for every `k < length`, in order, none deleted, all before `stop` |
| Slicing.BeforeSign | arcesetc/tests/legacy_specutils/indexer.py:105-108 | the direction-dependent deletion test is the sign of `(v - stop) * step` |
| Slicing.Compose | arcesetc/tests/legacy_specutils/indexer.py:81-83 | the new start, stop and step `__getitem__` computes from the parsed slice (its body; `ComposeCall` states what the result yields) |
| Slicing.ComposeGap | arcesetc/tests/legacy_specutils/indexer.py:81-83 | the new indexer's `k`-th value is the old indexer's value at the inner `k`-th position, and its gap to `stop` is the inner gap times the old step |
| Slicing.ComposeAt | arcesetc/tests/legacy_specutils/indexer.py:81-83 | the new indexer keeps position `k` exactly when the inner slice does |
| Slicing.ComposeCall | arcesetc/tests/legacy_specutils/indexer.py:81-84 | the new indexer yields this indexer's values at exactly the positions the parsed slice enumerates, in order |
| Slicing.GetItemComposes | arcesetc/tests/legacy_specutils/indexer.py:69-84 | for a non-zero step, `self[s]()` is `self` taken at the positions `range(a, b, c)` of the parsed slice |
| SlicingIntended.ClampIntended | arcesetc/tests/legacy_specutils/indexer.py:59-66 | the corrected clamp: into `[0, length]` forwards and `[-1, length-1]` backwards, keeping in-range bounds after the shift |
| SlicingIntended.ParseSliceIntended | arcesetc/tests/legacy_specutils/indexer.py:43-67 | the corrected parse: the same step and defaults as `_parse_slice`, error exactly on a zero step |
| SlicingIntended.GetItemIntended | arcesetc/tests/legacy_specutils/indexer.py:69-84 | `__getitem__` over the corrected parse: an error exactly on a zero step, otherwise a valid indexer |
| SlicingIntended.ParsedPositionsInRange | arcesetc/tests/legacy_specutils/indexer.py:10-12 | with the corrected parse, every selected position lies in `[0, length)` |
| SlicingIntended.GetItemIntendedSelects | arcesetc/tests/legacy_specutils/indexer.py:10-12 | with the corrected parse, a sliced indexer yields only values the original yields |
| SlicingIntended.StartPastEndIsEmpty | arcesetc/tests/legacy_specutils/indexer.py:10-12 | with the corrected parse, a forward slice starting at or past the end is empty, as in Python |
| SlicingIntended.ParseSliceClampsPastEnd | arcesetc/tests/legacy_specutils/indexer.py:59-62 | as written, `[0,1,2][10:]` selects `[2]`, `[0:]` on an empty indexer yields one index outside its range, and `[0,1,2][-10::-1]` selects `[0]`; the corrected parse selects nothing in the first and last cases |

## Left out

- Loading `sptype_dict.json`, `sptype_to_temp.json` and `archive.hdf5` (arcesetc/util.py:11-17) is file I/O. The loaded tables are the `Data` parameter, with the dictionary iteration order of `sptype_to_temp` as an explicit key list.
- `10**x` (arcesetc/util.py:140) is the function parameter `pow10`; the only fact assumed about it is `pow10(0) == 1`, in `ScaleAtTemplateMagnitude`.
- astropy units and `quantity_input` (arcesetc/util.py:100, 127, 171, 174, 224, 235) are left out. Wavelengths are reals in Angstrom and times reals in seconds.
- The `get_close_matches` suggestions in the no-match message (arcesetc/util.py:47-49) are text only; the error carries just the requested type.
- Floating point is left out: rounding, NaN, infinities, and the float computation of `np.arange`'s sample count. All arithmetic is exact over reals.
- Exposure.SnToExpTime: a zero rate at the wavelength makes the source return an IEEE infinity (or NaN); the model returns `ZeroFlux` instead. An empty order, where `np.argmin` raises, is `EmptyOrder`.
- Exposure.Valid: archive data that makes numpy raise is excluded as a data invariant rather than modelled as an error. These are an empty matrix, a row shorter than three values, and a zero wavelength step.
- Exposure.ReconstructOrder: its contract does not itself say that the S/N-branch counts at the wavelength equal `snr**2`. `ExposeForSignalToNoise` states that, and `SnCountsAtWavelength` proves it for the same scaled rates.
- The composed operations allocate a fresh flux array for the reconstruction, so no aliasing with the archive is modelled (numpy builds a new array there too).
- arcesetc/plots.py and arcesetc/tests/test_utils.py are not part of this model.
- Slicing.Make: `__init__`'s default `step=1` has no separate entry; callers pass 1 explicitly.
- `Indexer` is a value: its fields are never changed after `__init__`. The astropy `Model` base class and `_n_models` are left out, and so are non-integer slice values.
- Slicing.LengthCounts: `length` uses float division and `math.ceil`; the model uses exact integer ceiling division, which differs only beyond 2**53.
- `evaluate` applied to a numpy array is modelled on a sequence of integers.

## Findings

| source | as written | input that shows it | evidently intended | confidence | as-written member | corrected member |
|---|---|---|---|---|---|---|
| arcesetc/tests/legacy_specutils/indexer.py:59-62 | an explicit slice start is clamped into `[0, length-1]` whatever the step's direction | `Indexer(0, 3)[10:]` is `Indexer(2, 3, 1)`, which yields `[2]`. On the empty `Indexer(5, 5)`, `[0:]` is `Indexer(4, 5, 1)`, which yields `[4]`, an index outside the range. `Indexer(0, 3)[-10::-1]` is `Indexer(0, -1, -1)`, which yields `[0]` | normal Python slicing, as the class docstring promises (lines 10-12): `[0, 1, 2][10:]` and `[0, 1, 2][-10::-1]` are empty, and no slice selects a position outside `[0, length)` | medium, not executed | SlicingIntended.ParseSliceClampsPastEnd | SlicingIntended.ParsedPositionsInRange |
