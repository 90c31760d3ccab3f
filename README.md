# Comfort tool numerics in Dafny

A model of the numeric core of the comfort tool, a Home Assistant integration
that derives thermal-comfort quantities from sensor readings. Two source files
are modelled, one Dafny module each:

- `util.dfy` (module `Util`) models `util.py`:
  - the bisection root finder `bisect`;
  - the secant root finder `secant`;
  - the thermal-sensation classifier `get_sensation_by_class`, whose bands
    follow Annex A of ISO 7730:2005;
  - the conversions `CtoF` and `FtoC`.
- `psychrometrics.dfy` (module `Psychrometrics`) models `psychrometrics.py`:
  - the arithmetic `humratio`, `relhum`, `enthalpy`, `rhodry` and `rhomoist`;
  - `sattemp` and `dewpoint`;
  - the record builders `tdb_rh`, `tdb_twb`, `tdb_w`, `tdb_dewpoint`,
    `tdb_vappress`;
  - the dispatcher `convert`.

Python floats are exact `real`s. A Python NaN is `Float.NaN`. bisect has three
outcomes, `BisectResult`:
- `Midpoint(x)`, the last midpoint;
- `Sentinel`, the value -999 returned when neither half shows a sign change;
- `Unbound`, the `UnboundLocalError` that `return midpoint` raises when the
  loop never runs.

The two loops are methods proved equal to recursive reference functions:
- `Util.Bisect` equals `Util.Bisection`;
- `Util.Secant` equals `Util.SecantRoot`.

The classifier's scan over its threshold list, `Util.GetSensationByClass`, is
proved equal to the if-chain `Util.Classify`. The properties are lemmas about
these reference functions.

In `psychrometrics.py`, the correlations `satpress` and `wetbulb` are taken as
given functions, the two fields of `Psychrometrics.Correlations`. `sattemp`,
`dewpoint` and the bisection in `tdb_dewpoint` are modelled with the source's
brackets and tolerances. A division by zero is a crash in the source, so the
model states it as a precondition. The `KeyError` of `convert` is an explicit
`Outcome.KeyError`.

## Model

| member | source | states |
|---|---|---|
| Util.NegativeProductIff | custom_components/comfort_tool/util.py:18-20 | the sign test by cases used in the model holds exactly when the source's product `(x) * (y) < 0` does |
| Util.Bisect | custom_components/comfort_tool/util.py:9-25 | the imperative loop returns what the recursive definition `Bisection` does; its ghost counter makes exactly `BisectionSteps` iterations, at most floor(abs(b0 - a0) / (2 epsilon)), so it terminates for epsilon > 0; a returned midpoint comes after the first number of iterations n with abs(b0 - a0) / 2^n <= 2 epsilon |
| Util.BisectionHalvings | custom_components/comfort_tool/util.py:13-21 | for a returned midpoint x after n iterations, there is a point p of the original bracket such that [x, p] is the final bracket: fn - target changes sign between x and p (every iteration kept the half that straddles the target), the width is abs(b0 - a0) halved n times (every iteration halved it), and n is the first count of halvings that brings abs(b0 - a0) down to 2 epsilon (the loop stops as soon as the width is at most 2 epsilon) |
| Util.BisectionFinalWidth | custom_components/comfort_tool/util.py:13-21 | the same final bracket with its width as a product: fn - target changes sign between x and p, and abs(x - p) * 2^n == abs(b0 - a0), where n is the number of iterations |
| Util.BisectFromSteps | custom_components/comfort_tool/util.py:13-24 | the number of loop iterations from a state (the halvings, plus the failing one that returns the sentinel) is at most the budget floor(abs(b - a) / (2 epsilon)) |
| Util.HalvedProduct | custom_components/comfort_tool/util.py:14-21 | "w0 halved k times is w" holds exactly when w * 2^k == w0 |
| Util.BisectionUnboundIff | custom_components/comfort_tool/util.py:13-25 | the unbound-midpoint error happens exactly when the initial width is already at most 2 epsilon |
| Util.BisectionNoSignChange | custom_components/comfort_tool/util.py:18-24 | when neither first half shows a sign change against target (both products >= 0), the result is the sentinel |
| Util.BisectionWithinBracket | custom_components/comfort_tool/util.py:14-25 | a returned midpoint lies inside the original bracket |
| Util.BisectionBracketsTarget | custom_components/comfort_tool/util.py:18-21 | a returned midpoint x has a point p of the original bracket within 2 epsilon of it such that fn - target changes sign between x and p: the final bracket straddles the target |
| Util.BisectionSentinelHitsTarget | custom_components/comfort_tool/util.py:18-24 | on a straddling initial bracket the sentinel occurs only when some midpoint x in the bracket had fn(x) == target exactly |
| Util.BisectionExactRootGivesSentinel | custom_components/comfort_tool/util.py:14-24 | a concrete case: bisecting x - 2 on [0, 4] hits the root at the first midpoint and returns the sentinel |
| Util.BisectionLocal | custom_components/comfort_tool/util.py:14-17 | the result depends only on the values of fn inside the original bracket |
| Util.Clamp | custom_components/comfort_tool/util.py:46 | the clamped estimate lies in [0, 100]; it is c when c is in [0, 100], 0 when c < 0 and 100 when c > 100 |
| Util.Secant | custom_components/comfort_tool/util.py:28-54 | the imperative loop, with fn(a) and fn(b) cached, returns what `SecantRoot` does and evaluates fn at most 102 times |
| Util.SecantLoopAccepts | custom_components/comfort_tool/util.py:40-51 | any value the loop returns lies in [0, 100] and has residual below epsilon |
| Util.SecantRootSound | custom_components/comfort_tool/util.py:32-54 | a is returned when abs(fn(a)) <= epsilon; otherwise b when abs(fn(b)) <= epsilon; otherwise any number returned lies in [0, 100] with abs(fn(c)) < epsilon; NaN only after both seeds are rejected |
| Util.SecantZeroSlope | custom_components/comfort_tool/util.py:41-44 | equal seeds or equal values at the seeds give NaN once both seeds are rejected |
| Util.GetSensationByClass | custom_components/comfort_tool/util.py:59-97 | the scan over the threshold list returns the sensation of the reference bands `Classify` at the class's half-range; the class defaults to "B" as in the source |
| Util.UpperIsA | custom_components/comfort_tool/util.py:79 | a name upper-cases to "A" exactly when it is "A" or "a" |
| Util.UpperIsB | custom_components/comfort_tool/util.py:79 | a name upper-cases to "B" exactly when it is "B" or "b" |
| Util.UpperIsC | custom_components/comfort_tool/util.py:79 | a name upper-cases to "C" exactly when it is "C" or "c" |
| Util.UpperIdempotent | custom_components/comfort_tool/util.py:79 | upper-casing twice is upper-casing once |
| Util.Upper | custom_components/comfort_tool/util.py:79 | definition, no contract of its own; see `UpperIsA`, `UpperIsB`, `UpperIsC`, `UpperIdempotent` |
| Util.NeutralRangeByClass | custom_components/comfort_tool/util.py:72-79 | the half-range is 0.2 exactly for "A"/"a", 0.7 exactly for "C"/"c", and 0.5 for every other name, so an unknown class behaves as B |
| Util.NeutralRangeCaseInsensitive | custom_components/comfort_tool/util.py:79 | upper-casing a class name first does not change its half-range |
| Util.ClassifyNeutralIff | custom_components/comfort_tool/util.py:83-95 | "Neutral" is returned exactly when -r <= pmv < r |
| Util.ClassifyExtremes | custom_components/comfort_tool/util.py:83-97 | "Cold" exactly below -3r, "Hot" exactly from 3r on |
| Util.ClassifyMonotone | custom_components/comfort_tool/util.py:83-97 | a larger PMV never yields an earlier label in Cold < Cool < Slightly Cool < Neutral < Slightly Warm < Warm < Hot |
| Util.LabelsDistinct | custom_components/comfort_tool/util.py:84-97 | the seven labels are pairwise distinct, so the label determines the sensation |
| Util.TemperatureRoundTrip | custom_components/comfort_tool/util.py:100-105 | FtoC(CtoF(x)) == x and CtoF(FtoC(x)) == x |
| Util.TemperatureMonotone | custom_components/comfort_tool/util.py:100-105 | both conversions are strictly increasing |
| Psychrometrics.VapPressInvertsHumRatio | custom_components/comfort_tool/psychrometrics.py:31-35 | the vapour pressure of humratio(patm, pw) is pw again |
| Psychrometrics.HumRatioInvertsVapPress | custom_components/comfort_tool/psychrometrics.py:31-35 | humratio of the vapour pressure of w is w again |
| Psychrometrics.RelHumInvertsHumRatio | custom_components/comfort_tool/psychrometrics.py:31-36 | relhum(patm, psat, humratio(patm, pw)) == pw / psat for pw != patm and psat != 0 |
| Psychrometrics.RelativeHumidityRoundTrip | custom_components/comfort_tool/psychrometrics.py:31-36 | 100 * relhum of the humidity ratio of rh/100 * psat is rh again |
| Psychrometrics.HumRatioSign | custom_components/comfort_tool/psychrometrics.py:31-32 | humratio(patm, 0) == 0, it is positive on (0, patm), and increasing on [0, patm) |
| Psychrometrics.EnthalpyAffine | custom_components/comfort_tool/psychrometrics.py:38-39 | enthalpy(tdb, 0) == CpAir * tdb, and enthalpy is affine in w with slope Hfg + CpVap * tdb |
| Psychrometrics.EnthalpyIncreasing | custom_components/comfort_tool/psychrometrics.py:38-39 | for w >= 0, enthalpy increases strictly with tdb |
| Psychrometrics.RhoDryPositiveDecreasing | custom_components/comfort_tool/psychrometrics.py:41-43 | for tdb > -273.15 and 0 <= w1 <= w2, rhodry is positive and rhodry(tdb, w2) <= rhodry(tdb, w1) |
| Psychrometrics.RhoMoistOfDry | custom_components/comfort_tool/psychrometrics.py:45-46 | rhomoist(r, 0) == r |
| Psychrometrics.RhoMoistIncreasing | custom_components/comfort_tool/psychrometrics.py:45-46 | for a positive dry density r, rhomoist(r, w) - r == r * w, rhomoist grows strictly with w, and it exceeds r exactly when w > 0 |
| Psychrometrics.BisectValue | custom_components/comfort_tool/util.py:24-25 | definition, no contract of its own: the Python number of a bisect outcome, -999 for the sentinel and the midpoint otherwise, as `sattemp` and `tdb_dewpoint` receive it; see `SatTemp`, `DewpointHumRatio` |
| Psychrometrics.SatTemp | custom_components/comfort_tool/psychrometrics.py:57-59 | the saturation temperature is the sentinel or lies in [0, 500]; the loop always runs on that bracket, so there is no unbound error |
| Psychrometrics.Dewpoint | custom_components/comfort_tool/psychrometrics.py:53-55 | the dew point of w is the sentinel or lies in [0, 500] |
| Psychrometrics.DewpointHumRatio | custom_components/comfort_tool/psychrometrics.py:113-114 | the humidity ratio found by tdb_dewpoint's bisection is the sentinel or lies in [0.00001, 0.2] |
| Psychrometrics.TdbRhFields | custom_components/comfort_tool/psychrometrics.py:74-84 | tdb_rh keeps its rh, sets vappress == rh/100 * satpress(tdb), gives a record whose fields agree, and its w gives back the same rh |
| Psychrometrics.TdbTwbFields | custom_components/comfort_tool/psychrometrics.py:86-99 | tdb_twb keeps its wet-bulb temperature, uses the source's humidity-ratio formula, and gives a record whose fields agree |
| Psychrometrics.TdbWFields | custom_components/comfort_tool/psychrometrics.py:101-110 | tdb_w reports NaN for rh exactly when 100 * relhum > 100, and that value otherwise; w is kept and vappress, computed from the unclamped rh, stays the vapour pressure of w |
| Psychrometrics.TdbDewpointFields | custom_components/comfort_tool/psychrometrics.py:112-115 | tdb_dewpoint is tdb_w at the bisected humidity ratio, which is the sentinel or in [0.00001, 0.2] |
| Psychrometrics.TdbVappressRoundTrip | custom_components/comfort_tool/psychrometrics.py:117-120 | tdb_vappress reproduces its input vapour pressure and reports rh == 100 * vappress / satpress(tdb) |
| Psychrometrics.RhThroughHumRatio | custom_components/comfort_tool/psychrometrics.py:74-110 | for rh <= 100, tdb_w at the w of tdb_rh reports the same rh and the same vapour pressure |
| Psychrometrics.HumRatioThroughRh | custom_components/comfort_tool/psychrometrics.py:74-103 | tdb_rh at the rh that w stands for gives back w |
| Psychrometrics.ConvertDispatch | custom_components/comfort_tool/psychrometrics.py:122-131 | convert applies exactly the one builder named by origin and then looks up target; an unknown origin is a KeyError for origin |
| Psychrometrics.ConvertUnknownTarget | custom_components/comfort_tool/psychrometrics.py:130-131 | a known origin with an unknown target is a KeyError for target |
| Psychrometrics.ConvertIdentity | custom_components/comfort_tool/psychrometrics.py:122-131 | converting rh, vappress, w or wetbulb to itself returns the input, e.g. convert(x, tdb, "rh", "rh") == x |
| Util.BisectFrom | custom_components/comfort_tool/util.py:13-25 | definition, no contract of its own: the loop from a state (a, b, midpoint so far), one recursive call per iteration; specified by the Bisection lemmas above |
| Util.Bisection | custom_components/comfort_tool/util.py:9-25 | definition, no contract of its own: bisect(a, b, fn, epsilon, target) as a value; the reference that `Bisect` is proved equal to and that the Bisection lemmas describe |
| Util.BisectionSteps | custom_components/comfort_tool/util.py:13-24 | definition, no contract of its own: the number of iterations; bounded by `BisectFromSteps`, tied to the loop by `Bisect` and to the halvings by `BisectionHalvings` |
| Util.Slope | custom_components/comfort_tool/util.py:41 | definition, no contract of its own: the slope through the two last estimates, 0 when b == a; see `SecantZeroSlope` |
| Util.SecantLoop | custom_components/comfort_tool/util.py:40-54 | definition, no contract of its own: the loop with n iterations left, NaN when none are left; specified by `SecantLoopAccepts` |
| Util.SecantRoot | custom_components/comfort_tool/util.py:28-54 | definition, no contract of its own: secant(a, b, fn, epsilon) as a value; the reference that `Secant` is proved equal to, described by `SecantRootSound` and `SecantZeroSlope` |
| Util.Sensation.Label | custom_components/comfort_tool/util.py:84-97 | definition, no contract of its own: the label string of each sensation; see `LabelsDistinct` |
| Util.NeutralRange | custom_components/comfort_tool/util.py:72-79 | definition, no contract of its own: the class table with fallback 0.5; see `NeutralRangeByClass` and `NeutralRangeCaseInsensitive` |
| Util.Thresholds | custom_components/comfort_tool/util.py:83-90 | definition, no contract of its own: the ordered threshold list that `GetSensationByClass` scans |
| Util.Classify | custom_components/comfort_tool/util.py:83-97 | definition, no contract of its own: the seven bands as an if-chain; see `ClassifyNeutralIff`, `ClassifyExtremes`, `ClassifyMonotone` |
| Util.CtoF | custom_components/comfort_tool/util.py:100-101 | definition, no contract of its own; see `TemperatureRoundTrip` and `TemperatureMonotone` |
| Util.FtoC | custom_components/comfort_tool/util.py:104-105 | definition, no contract of its own; see `TemperatureRoundTrip` and `TemperatureMonotone` |
| Psychrometrics.HumRatio | custom_components/comfort_tool/psychrometrics.py:31-32 | definition, no contract of its own; see `HumRatioSign`, `VapPressInvertsHumRatio`, `HumRatioInvertsVapPress` |
| Psychrometrics.VapPress | custom_components/comfort_tool/psychrometrics.py:35 | definition, no contract of its own: the vapour pressure of a humidity ratio, shared by relhum and dewpoint; see the two inversion lemmas |
| Psychrometrics.RelHum | custom_components/comfort_tool/psychrometrics.py:34-36 | definition, no contract of its own; see `RelHumInvertsHumRatio` and `RelativeHumidityRoundTrip` |
| Psychrometrics.Enthalpy | custom_components/comfort_tool/psychrometrics.py:38-39 | definition, no contract of its own; see `EnthalpyAffine` and `EnthalpyIncreasing` |
| Psychrometrics.RhoDry | custom_components/comfort_tool/psychrometrics.py:41-43 | definition, no contract of its own; see `RhoDryPositiveDecreasing` |
| Psychrometrics.RhoMoist | custom_components/comfort_tool/psychrometrics.py:45-46 | definition, no contract of its own; see `RhoMoistOfDry` and `RhoMoistIncreasing` |
| Psychrometrics.TdbRh | custom_components/comfort_tool/psychrometrics.py:74-84 | definition, no contract of its own; see `TdbRhFields`, `RhThroughHumRatio`, `HumRatioThroughRh` |
| Psychrometrics.TwbHumRatio | custom_components/comfort_tool/psychrometrics.py:87-90 | definition, no contract of its own: the humidity ratio of tdb_twb; see `TdbTwbFields` |
| Psychrometrics.TdbTwb | custom_components/comfort_tool/psychrometrics.py:86-99 | definition, no contract of its own; see `TdbTwbFields` |
| Psychrometrics.TdbW | custom_components/comfort_tool/psychrometrics.py:101-110 | definition, no contract of its own; see `TdbWFields` and `RhThroughHumRatio` |
| Psychrometrics.DewpointResidual | custom_components/comfort_tool/psychrometrics.py:113 | definition, no contract of its own: the function tdb_dewpoint bisects |
| Psychrometrics.TdbDewpoint | custom_components/comfort_tool/psychrometrics.py:112-115 | definition, no contract of its own; see `TdbDewpointFields` |
| Psychrometrics.TdbVappress | custom_components/comfort_tool/psychrometrics.py:117-120 | definition, no contract of its own; see `TdbVappressRoundTrip` |
| Psychrometrics.Lookup | custom_components/comfort_tool/psychrometrics.py:131 | definition, no contract of its own: `a[target]`, a KeyError for a missing key; see `ConvertUnknownTarget` |
| Psychrometrics.Convert | custom_components/comfort_tool/psychrometrics.py:122-131 | definition, no contract of its own; see `ConvertDispatch`, `ConvertUnknownTarget`, `ConvertIdentity` |

## Left out

- `satpress` (exp/log correlation) is not modelled: it is the `satpress` field of `Correlations`.
- `wetbulb` (its own bisection over an exp/log residual) is not modelled: it is the `wetbulb` field of `Correlations`.
- `FindSaturatedVaporPressureTorr` and `globetemp` are not modelled: they use exp and fractional powers, and nothing in the core calls them.
- `enthsat` and `tairsat` are not modelled: `enthsat` is the closed form `enthalpy(tdb, humratio(Patm, satpress(tdb)))`, `tairsat` bisects over `enthsat`, and nothing in the core calls either.
- Logging (`_LOGGER.warning`) is left out: it has no effect on results.
- IEEE rounding is left out: floats are exact reals. In particular the model's halvings are exact, and the CtoF/FtoC round trip holds exactly.
- A NaN or infinite value returned by `fn` is not modelled: `fn` is a function on reals.
- Util.Bisect: requires epsilon > 0. For epsilon <= 0 the width test never fails once a != b, so the source ends only through the sentinel and can run forever on a straddling bracket (and for a == b with epsilon == 0 the loop never runs, so `return midpoint` raises); the model does not cover these runs. Every call site passes a positive tolerance, 0.0001 or 0.01 (psychrometrics.py:59, 63, 72, 114).
- Util.NegativeProductIff: the model tests `x * y < 0` by cases on the signs of x and y. This lemma proves the two tests equivalent.
- Division by zero (`ZeroDivisionError`) is not modelled as an outcome: it is a precondition of the function that divides. Examples are `humratio` with pw == patm, `relhum` with psat == 0, and the denominators of `tdb_twb`.
- Psychrometrics.DewpointResidual: at w = -0.62198 the source would divide by zero. There the model gives the value 0, which bisect never evaluates on the bracket [0.00001, 0.2] (see Util.BisectionLocal).
- Util.Upper: only ASCII letters are upper-cased. No other character upper-cases to A, B or C in a one-character name, so the class table is unaffected.
- Util.GetSensationByClass: returns a `Sensation`; the string the source returns is its `Label()`.
- Util.SecantRootSound: says when NaN cannot occur, but not exactly when it occurs (a zero slope or 100 rejected estimates). The latter is the definition `SecantLoop` itself.
- The sentinel quirk is modelled as written: bisect reports failure when a midpoint hits the target exactly (Util.BisectionSentinelHitsTarget, Util.BisectionExactRootGivesSentinel).
- `comfort.py`, `sensor.py`, `__init__.py`, `config_flow.py` and `const.py` are not part of this model. They are Home Assistant glue, constants, and calls into the external pythermalcomfort library.
