/** Closed-form psychrometric conversions of the comfort tool
    (custom_components/comfort_tool/psychrometrics.py): humidity ratio,
    relative humidity, enthalpy, air densities, and the record builders that
    derive a consistent set of humidity quantities from the dry-bulb
    temperature and one of five humidity measures.

    The saturation vapour pressure correlation (exp/log) and the wet-bulb
    solver are not modelled; they are given as the two functions of a
    `Correlations` value. The dew point is modelled through the bisection of
    the Util module with the source's bracket and tolerance. */
module Psychrometrics {
  import opened Util

  // The property table of the source (SI units).
  const PATM: real := 101325.0
  const CP_AIR: real := 1004.0
  const CP_WAT: real := 4186.0
  const CP_VAP: real := 1805.0
  const HFG: real := 2501000.0
  const R_AIR: real := 287.055
  const T_KEL_CONV: real := 273.15

  /** The ratio of the molar masses of water vapour and dry air in the formulas. */
  const MOLAR_RATIO: real := 0.62198

  /** The correlations taken as given: the saturation vapour pressure (Pa) at a
      dry-bulb temperature (°C), and the wet-bulb temperature for a dry-bulb
      temperature and a humidity ratio. */
  datatype Correlations = Correlations(satpress: real -> real, wetbulb: (real, real) -> real)

  // ---------------------------------------------------------------------------
  // Arithmetic functions
  // ---------------------------------------------------------------------------

  /** humratio: humidity ratio (kg/kg) of vapour at partial pressure pw. */
  function HumRatio(pAtm: real, pw: real): real
    requires pAtm != pw
  {
    (MOLAR_RATIO * pw) / (pAtm - pw)
  }

  /** The vapour partial pressure that humidity ratio w stands for, as relhum
      and dewpoint compute it. */
  function VapPress(pAtm: real, w: real): real
    requires MOLAR_RATIO + w != 0.0
  {
    (pAtm * w) / (MOLAR_RATIO + w)
  }

  /** relhum: relative humidity as a fraction of the saturation pressure. */
  function RelHum(pAtm: real, pSat: real, humRatio: real): real
    requires MOLAR_RATIO + humRatio != 0.0 && pSat != 0.0
  {
    VapPress(pAtm, humRatio) / pSat
  }

  /** enthalpy: specific enthalpy (J/kg) of moist air. */
  function Enthalpy(tdb: real, w: real): real
  {
    CP_AIR * tdb + w * (HFG + CP_VAP * tdb)
  }

  /** rhodry: density (kg/m3) of the dry air at standard pressure. */
  function RhoDry(tdb: real, w: real): real
    requires MOLAR_RATIO + w != 0.0 && tdb + T_KEL_CONV != 0.0
  {
    var pAir := (MOLAR_RATIO * PATM) / (MOLAR_RATIO + w);
    pAir / R_AIR / (tdb + T_KEL_CONV)
  }

  /** rhomoist: density of the moist air from that of the dry air. */
  function RhoMoist(rhoDry: real, w: real): real
  {
    rhoDry * (1.0 + w)
  }

  /** The humidity ratio and the vapour pressure determine each other. */
  lemma VapPressInvertsHumRatio(pAtm: real, pw: real)
    requires pAtm != pw && pAtm != 0.0
    ensures MOLAR_RATIO + HumRatio(pAtm, pw) != 0.0
    ensures VapPress(pAtm, HumRatio(pAtm, pw)) == pw
  {
    var d := pAtm - pw;
    var w := HumRatio(pAtm, pw);
    assert w * d == MOLAR_RATIO * pw;
    assert (MOLAR_RATIO + w) * d == MOLAR_RATIO * pAtm;
    assert MOLAR_RATIO + w != 0.0;
    assert (pAtm * w) * d == pw * (MOLAR_RATIO * pAtm);
    assert pAtm * w == pw * (MOLAR_RATIO + w);
  }

  lemma HumRatioInvertsVapPress(pAtm: real, w: real)
    requires MOLAR_RATIO + w != 0.0 && pAtm != 0.0
    ensures VapPress(pAtm, w) != pAtm
    ensures HumRatio(pAtm, VapPress(pAtm, w)) == w
  {
    var s := MOLAR_RATIO + w;
    var pw := VapPress(pAtm, w);
    assert pw * s == pAtm * w;
    assert (pAtm - pw) * s == pAtm * MOLAR_RATIO;
    assert pAtm - pw != 0.0;
    assert (MOLAR_RATIO * pw) * s == w * (pAtm * MOLAR_RATIO);
    assert MOLAR_RATIO * pw == w * (pAtm - pw);
  }

  /** relhum inverts the vapour-pressure relation behind humratio. */
  lemma RelHumInvertsHumRatio(pAtm: real, pSat: real, pw: real)
    requires pAtm != pw && pAtm != 0.0 && pSat != 0.0
    ensures MOLAR_RATIO + HumRatio(pAtm, pw) != 0.0
    ensures RelHum(pAtm, pSat, HumRatio(pAtm, pw)) == pw / pSat
  {
    VapPressInvertsHumRatio(pAtm, pw);
  }

  /** A relative humidity survives the trip to a humidity ratio and back. */
  lemma RelativeHumidityRoundTrip(pSat: real, rh: real)
    requires pSat != 0.0 && rh / 100.0 * pSat != PATM
    ensures MOLAR_RATIO + HumRatio(PATM, rh / 100.0 * pSat) != 0.0
    ensures 100.0 * RelHum(PATM, pSat, HumRatio(PATM, rh / 100.0 * pSat)) == rh
  {
    RelHumInvertsHumRatio(PATM, pSat, rh / 100.0 * pSat);
  }

  /** Dry vapour has humidity ratio zero; any vapour below atmospheric pressure a
      positive one, larger for a larger pressure. */
  lemma HumRatioSign(pAtm: real, pw1: real, pw2: real)
    requires pAtm != 0.0
    ensures HumRatio(pAtm, 0.0) == 0.0
    ensures 0.0 < pw1 < pAtm ==> HumRatio(pAtm, pw1) > 0.0
    ensures 0.0 <= pw1 < pw2 < pAtm ==> HumRatio(pAtm, pw1) < HumRatio(pAtm, pw2)
  {
    if 0.0 <= pw1 < pw2 < pAtm {
      var d1, d2 := pAtm - pw1, pAtm - pw2;
      assert d1 > d2 > 0.0;
      assert HumRatio(pAtm, pw1) * d1 == MOLAR_RATIO * pw1;
      assert HumRatio(pAtm, pw2) * d2 == MOLAR_RATIO * pw2;
      // pw1 * d2 < pw2 * d1, since pw1 * pAtm < pw2 * pAtm
      assert pw1 * pAtm < pw2 * pAtm;
      assert pw1 * d2 < pw2 * d1;
    }
  }

  /** Enthalpy is CpAir * tdb for dry air and affine in w with slope Hfg + CpVap * tdb. */
  lemma EnthalpyAffine(tdb: real, w1: real, w2: real)
    ensures Enthalpy(tdb, 0.0) == CP_AIR * tdb
    ensures Enthalpy(tdb, w2) - Enthalpy(tdb, w1) == (w2 - w1) * (HFG + CP_VAP * tdb)
  {
  }

  /** For non-negative w, enthalpy increases with the dry-bulb temperature. */
  lemma EnthalpyIncreasing(t1: real, t2: real, w: real)
    requires t1 < t2 && w >= 0.0
    ensures Enthalpy(t1, w) < Enthalpy(t2, w)
  {
    assert w * (HFG + CP_VAP * t2) - w * (HFG + CP_VAP * t1) == w * CP_VAP * (t2 - t1);
    assert w * CP_VAP * (t2 - t1) >= 0.0;
  }

  /** Above absolute zero and for non-negative humidity ratios the dry-air density
      is positive and does not increase with w. */
  lemma RhoDryPositiveDecreasing(tdb: real, w1: real, w2: real)
    requires tdb > -T_KEL_CONV && 0.0 <= w1 <= w2
    ensures 0.0 < RhoDry(tdb, w2) <= RhoDry(tdb, w1)
  {
    var t := tdb + T_KEL_CONV;
    var p1 := (MOLAR_RATIO * PATM) / (MOLAR_RATIO + w1);
    var p2 := (MOLAR_RATIO * PATM) / (MOLAR_RATIO + w2);
    assert p1 * (MOLAR_RATIO + w1) == MOLAR_RATIO * PATM;
    assert p2 * (MOLAR_RATIO + w2) == MOLAR_RATIO * PATM;
    assert p2 > 0.0;
    assert p2 * (MOLAR_RATIO + w1) <= p2 * (MOLAR_RATIO + w2);
    assert p2 <= p1;
    assert p2 / R_AIR <= p1 / R_AIR;
    DivideMonotone(p2 / R_AIR, p1 / R_AIR, t);
  }

  lemma DivideMonotone(x: real, y: real, t: real)
    requires 0.0 < x <= y && t > 0.0
    ensures 0.0 < x / t <= y / t
  {
  }

  /** Moist air of humidity ratio 0 has the density of dry air. */
  lemma RhoMoistOfDry(rhoDry: real)
    ensures RhoMoist(rhoDry, 0.0) == rhoDry
  {
  }

  /** Moist air is the dry air plus w times as much vapour: for a positive dry
      density, the moist density grows strictly with w and exceeds the dry
      density exactly when w > 0. */
  lemma RhoMoistIncreasing(rhoDry: real, w1: real, w2: real)
    requires rhoDry > 0.0
    ensures RhoMoist(rhoDry, w1) - rhoDry == rhoDry * w1
    ensures w1 < w2 ==> RhoMoist(rhoDry, w1) < RhoMoist(rhoDry, w2)
    ensures RhoMoist(rhoDry, w1) > rhoDry <==> w1 > 0.0
  {
    if w1 < w2 {
      assert rhoDry * (w2 - w1) > 0.0;
    }
    if w1 > 0.0 {
      assert rhoDry * w1 > 0.0;
    } else {
      assert rhoDry * w1 <= 0.0;
    }
  }

  // ---------------------------------------------------------------------------
  // Saturation temperature and dew point
  // ---------------------------------------------------------------------------

  /** The Python value of a bisect result that is not the UnboundLocalError. */
  function BisectValue(r: BisectResult): real
    requires !r.Unbound?
  {
    if r.Midpoint? then r.x else SENTINEL_VALUE
  }

  /** sattemp(p): bisect over [0, 500] °C, tolerance 0.0001, for p - satpress(t) == 0.
      The result is a temperature in the bracket, or the sentinel. */
  function SatTemp(p: real, c: Correlations): (t: real)
    ensures t == SENTINEL_VALUE || 0.0 <= t <= 500.0
  {
    var fn := x => p - c.satpress(x);
    BisectionUnboundIff(0.0, 500.0, fn, 0.0001, 0.0);
    BisectionWithinBracket(0.0, 500.0, fn, 0.0001, 0.0);
    BisectValue(Bisection(0.0, 500.0, fn, 0.0001, 0.0))
  }

  /** dewpoint(w): the saturation temperature of the vapour pressure of w. */
  function Dewpoint(w: real, c: Correlations): (t: real)
    requires MOLAR_RATIO + w != 0.0
    ensures t == SENTINEL_VALUE || 0.0 <= t <= 500.0
  {
    SatTemp(VapPress(PATM, w), c)
  }

  // ---------------------------------------------------------------------------
  // Record builders
  // ---------------------------------------------------------------------------

  /** The dictionary the builders return; rh is NaN when tdb_w finds it above 100. */
  datatype Props = Props(rh: Float, vappress: real, w: real, wetbulb: real, dewpoint: real)

  /** A dictionary lookup: the value, or the KeyError of a missing key. */
  datatype Outcome = Ok(value: Float) | KeyError(key: string)

  /** `props[key]`. */
  function Lookup(p: Props, key: string): Outcome
  {
    if key == "rh" then Ok(p.rh)
    else if key == "vappress" then Ok(Num(p.vappress))
    else if key == "w" then Ok(Num(p.w))
    else if key == "wetbulb" then Ok(Num(p.wetbulb))
    else if key == "dewpoint" then Ok(Num(p.dewpoint))
    else KeyError(key)
  }

  /** The humidity quantities of a record agree with one another at saturation
      pressure pSat: the vapour pressure is that of the humidity ratio, a
      reported rh is 100 * vappress / pSat, and the dew point is that of w. */
  ghost predicate Consistent(p: Props, pSat: real, c: Correlations)
  {
    && MOLAR_RATIO + p.w != 0.0
    && p.vappress == VapPress(PATM, p.w)
    && p.w == HumRatio(PATM, p.vappress)
    && (p.rh.Num? ==> p.rh.value / 100.0 * pSat == p.vappress)
    && p.dewpoint == Dewpoint(p.w, c)
  }

  /** tdb_rh(tdb, rh). */
  function TdbRh(tdb: real, rh: real, c: Correlations): Props
    requires rh / 100.0 * c.satpress(tdb) != PATM
  {
    var psat := c.satpress(tdb);
    var vappress := (rh / 100.0) * psat;
    var w := HumRatio(PATM, vappress);
    VapPressInvertsHumRatio(PATM, vappress);
    Props(Num(rh), vappress, w, c.wetbulb(tdb, w), Dewpoint(w, c))
  }

  /** The humidity ratio tdb_twb derives from a wet-bulb temperature. */
  function TwbHumRatio(tdb: real, twb: real, c: Correlations): real
    requires c.satpress(twb) != PATM && HFG + CP_VAP * tdb - CP_WAT * twb != 0.0
  {
    var wstar := HumRatio(PATM, c.satpress(twb));
    ((HFG + (CP_VAP - CP_WAT) * twb) * wstar - CP_AIR * (tdb - twb)) / (HFG + CP_VAP * tdb - CP_WAT * twb)
  }

  /** The inputs for which tdb_twb divides by no zero. */
  predicate TwbDomain(tdb: real, twb: real, c: Correlations)
  {
    && c.satpress(twb) != PATM
    && HFG + CP_VAP * tdb - CP_WAT * twb != 0.0
    && MOLAR_RATIO + TwbHumRatio(tdb, twb, c) != 0.0
    && c.satpress(tdb) != 0.0
  }

  /** tdb_twb(tdb, twb). */
  function TdbTwb(tdb: real, twb: real, c: Correlations): Props
    requires TwbDomain(tdb, twb, c)
  {
    var w := TwbHumRatio(tdb, twb, c);
    var psat := c.satpress(tdb);
    var rh := 100.0 * RelHum(PATM, psat, w);
    Props(Num(rh), (rh / 100.0) * psat, w, twb, Dewpoint(w, c))
  }

  /** tdb_w(tdb, w): an rh above 100 is reported as NaN. */
  function TdbW(tdb: real, w: real, c: Correlations): Props
    requires c.satpress(tdb) != 0.0 && MOLAR_RATIO + w != 0.0
  {
    var psat := c.satpress(tdb);
    var rh := 100.0 * RelHum(PATM, psat, w);
    Props(if rh <= 100.0 then Num(rh) else NaN, (rh / 100.0) * psat, w, c.wetbulb(tdb, w), Dewpoint(w, c))
  }

  /** dewpoint_temp - dewpoint(w), the function tdb_dewpoint bisects. It is
      given the value 0 at w = -0.62198, where dewpoint divides by zero; bisect
      never evaluates it there (BisectionLocal), as the bracket is [0.00001, 0.2]. */
  function DewpointResidual(dewpointTemp: real, c: Correlations): real -> real
  {
    w => if MOLAR_RATIO + w != 0.0 then dewpointTemp - Dewpoint(w, c) else 0.0
  }

  /** The humidity ratio tdb_dewpoint finds: a value in the bracket, or the sentinel. */
  function DewpointHumRatio(dewpointTemp: real, c: Correlations): (w: real)
    ensures w == SENTINEL_VALUE || 0.00001 <= w <= 0.2
  {
    var fn := DewpointResidual(dewpointTemp, c);
    BisectionUnboundIff(0.00001, 0.2, fn, 0.0001, 0.0);
    BisectionWithinBracket(0.00001, 0.2, fn, 0.0001, 0.0);
    BisectValue(Bisection(0.00001, 0.2, fn, 0.0001, 0.0))
  }

  /** tdb_dewpoint(tdb, dewpoint_temp). */
  function TdbDewpoint(tdb: real, dewpointTemp: real, c: Correlations): Props
    requires c.satpress(tdb) != 0.0
  {
    TdbW(tdb, DewpointHumRatio(dewpointTemp, c), c)
  }

  /** tdb_vappress(tdb, vappress). */
  function TdbVappress(tdb: real, vappress: real, c: Correlations): Props
    requires c.satpress(tdb) != 0.0 && vappress != PATM
  {
    var psat := c.satpress(tdb);
    var rh := (100.0 * vappress) / psat;
    assert rh / 100.0 * psat == vappress;
    TdbRh(tdb, rh, c)
  }

  /** The inputs for which convert's chosen builder divides by no zero; an unknown
      origin raises its KeyError before anything is computed. */
  predicate ConvertDomain(x: real, tdb: real, origin: string, c: Correlations)
  {
    if origin == "rh" then x / 100.0 * c.satpress(tdb) != PATM
    else if origin == "wetbulb" then TwbDomain(tdb, x, c)
    else if origin == "w" then c.satpress(tdb) != 0.0 && MOLAR_RATIO + x != 0.0
    else if origin == "dewpoint" then c.satpress(tdb) != 0.0
    else if origin == "vappress" then c.satpress(tdb) != 0.0 && x != PATM
    else true
  }

  /** convert(x, tdb, origin, target). */
  function Convert(x: real, tdb: real, origin: string, target: string, c: Correlations): Outcome
    requires ConvertDomain(x, tdb, origin, c)
  {
    if origin == "rh" then Lookup(TdbRh(tdb, x, c), target)
    else if origin == "wetbulb" then Lookup(TdbTwb(tdb, x, c), target)
    else if origin == "w" then Lookup(TdbW(tdb, x, c), target)
    else if origin == "dewpoint" then Lookup(TdbDewpoint(tdb, x, c), target)
    else if origin == "vappress" then Lookup(TdbVappress(tdb, x, c), target)
    else KeyError(origin)
  }

  // ---------------------------------------------------------------------------
  // Properties of the record builders
  // ---------------------------------------------------------------------------

  /** tdb_rh keeps its rh, sets vappress to rh/100 of the saturation pressure,
      and its humidity ratio gives back the same rh. */
  lemma TdbRhFields(tdb: real, rh: real, c: Correlations)
    requires rh / 100.0 * c.satpress(tdb) != PATM
    ensures TdbRh(tdb, rh, c).rh == Num(rh)
    ensures TdbRh(tdb, rh, c).vappress == rh / 100.0 * c.satpress(tdb)
    ensures Consistent(TdbRh(tdb, rh, c), c.satpress(tdb), c)
    ensures c.satpress(tdb) != 0.0 ==>
              100.0 * RelHum(PATM, c.satpress(tdb), TdbRh(tdb, rh, c).w) == rh
  {
    var psat := c.satpress(tdb);
    var vappress := rh / 100.0 * psat;
    VapPressInvertsHumRatio(PATM, vappress);
    if psat != 0.0 {
      RelativeHumidityRoundTrip(psat, rh);
    }
  }

  /** tdb_w reports NaN for rh exactly when 100 * relhum exceeds 100, and rh
      itself otherwise; vappress is computed from the unclamped value and so
      stays the vapour pressure of w. */
  lemma TdbWFields(tdb: real, w: real, c: Correlations)
    requires c.satpress(tdb) != 0.0 && MOLAR_RATIO + w != 0.0
    ensures var rh := 100.0 * RelHum(PATM, c.satpress(tdb), w);
            && (TdbW(tdb, w, c).rh == NaN <==> rh > 100.0)
            && (rh <= 100.0 ==> TdbW(tdb, w, c).rh == Num(rh))
    ensures TdbW(tdb, w, c).w == w
    ensures TdbW(tdb, w, c).vappress == VapPress(PATM, w)
    ensures Consistent(TdbW(tdb, w, c), c.satpress(tdb), c)
  {
    var psat := c.satpress(tdb);
    var rh := 100.0 * RelHum(PATM, psat, w);
    assert rh / 100.0 * psat == VapPress(PATM, w);
    HumRatioInvertsVapPress(PATM, w);
  }

  /** tdb_vappress reproduces its input vapour pressure. */
  lemma TdbVappressRoundTrip(tdb: real, vappress: real, c: Correlations)
    requires c.satpress(tdb) != 0.0 && vappress != PATM
    ensures TdbVappress(tdb, vappress, c).vappress == vappress
    ensures TdbVappress(tdb, vappress, c).rh == Num(100.0 * vappress / c.satpress(tdb))
    ensures Consistent(TdbVappress(tdb, vappress, c), c.satpress(tdb), c)
  {
    var psat := c.satpress(tdb);
    var rh := (100.0 * vappress) / psat;
    assert rh / 100.0 * psat == vappress;
    TdbRhFields(tdb, rh, c);
  }

  /** tdb_twb keeps its wet-bulb temperature and reports a consistent record. */
  lemma TdbTwbFields(tdb: real, twb: real, c: Correlations)
    requires TwbDomain(tdb, twb, c)
    ensures TdbTwb(tdb, twb, c).wetbulb == twb
    ensures TdbTwb(tdb, twb, c).w == TwbHumRatio(tdb, twb, c)
    ensures Consistent(TdbTwb(tdb, twb, c), c.satpress(tdb), c)
  {
    var w := TwbHumRatio(tdb, twb, c);
    var psat := c.satpress(tdb);
    var rh := 100.0 * RelHum(PATM, psat, w);
    assert rh / 100.0 * psat == VapPress(PATM, w);
    HumRatioInvertsVapPress(PATM, w);
  }

  /** tdb_dewpoint is tdb_w at the humidity ratio its bisection finds, which lies
      in [0.00001, 0.2] unless the bisection failed. */
  lemma TdbDewpointFields(tdb: real, dewpointTemp: real, c: Correlations)
    requires c.satpress(tdb) != 0.0
    ensures var w := TdbDewpoint(tdb, dewpointTemp, c).w;
            w == SENTINEL_VALUE || 0.00001 <= w <= 0.2
    ensures TdbDewpoint(tdb, dewpointTemp, c) == TdbW(tdb, DewpointHumRatio(dewpointTemp, c), c)
    ensures Consistent(TdbDewpoint(tdb, dewpointTemp, c), c.satpress(tdb), c)
  {
    TdbWFields(tdb, DewpointHumRatio(dewpointTemp, c), c);
  }

  /** Relative humidity to humidity ratio and back: tdb_w at the w of tdb_rh
      reports the same rh (up to saturation) and the same vapour pressure. */
  lemma RhThroughHumRatio(tdb: real, rh: real, c: Correlations)
    requires c.satpress(tdb) != 0.0 && rh / 100.0 * c.satpress(tdb) != PATM && rh <= 100.0
    ensures var w := TdbRh(tdb, rh, c).w;
            MOLAR_RATIO + w != 0.0 &&
            TdbW(tdb, w, c).rh == Num(rh) && TdbW(tdb, w, c).vappress == TdbRh(tdb, rh, c).vappress
  {
    TdbRhFields(tdb, rh, c);
    TdbWFields(tdb, TdbRh(tdb, rh, c).w, c);
  }

  /** Humidity ratio to relative humidity and back. */
  lemma HumRatioThroughRh(tdb: real, w: real, c: Correlations)
    requires c.satpress(tdb) != 0.0 && MOLAR_RATIO + w != 0.0
    ensures var rh := 100.0 * RelHum(PATM, c.satpress(tdb), w);
            rh / 100.0 * c.satpress(tdb) != PATM && TdbRh(tdb, rh, c).w == w
  {
    var psat := c.satpress(tdb);
    var rh := 100.0 * RelHum(PATM, psat, w);
    assert rh / 100.0 * psat == VapPress(PATM, w);
    HumRatioInvertsVapPress(PATM, w);
  }

  /** convert dispatches on origin to exactly one builder and then looks up target;
      an unknown origin is a KeyError for origin. */
  lemma ConvertDispatch(x: real, tdb: real, origin: string, target: string, c: Correlations)
    requires ConvertDomain(x, tdb, origin, c)
    ensures origin == "rh" ==> Convert(x, tdb, origin, target, c) == Lookup(TdbRh(tdb, x, c), target)
    ensures origin == "wetbulb" ==> Convert(x, tdb, origin, target, c) == Lookup(TdbTwb(tdb, x, c), target)
    ensures origin == "w" ==> Convert(x, tdb, origin, target, c) == Lookup(TdbW(tdb, x, c), target)
    ensures origin == "dewpoint" ==> Convert(x, tdb, origin, target, c) == Lookup(TdbDewpoint(tdb, x, c), target)
    ensures origin == "vappress" ==> Convert(x, tdb, origin, target, c) == Lookup(TdbVappress(tdb, x, c), target)
    ensures origin !in {"rh", "wetbulb", "w", "dewpoint", "vappress"} ==>
              Convert(x, tdb, origin, target, c) == KeyError(origin)
  {
  }

  /** A known origin with an unknown target is a KeyError for target. */
  lemma ConvertUnknownTarget(x: real, tdb: real, origin: string, target: string, c: Correlations)
    requires ConvertDomain(x, tdb, origin, c)
    requires origin in {"rh", "wetbulb", "w", "dewpoint", "vappress"}
    requires target !in {"rh", "vappress", "w", "wetbulb", "dewpoint"}
    ensures Convert(x, tdb, origin, target, c) == KeyError(target)
  {
  }

  /** Converting a quantity to itself returns it, for every origin but the dew
      point (which goes through a bisection). */
  lemma ConvertIdentity(x: real, tdb: real, c: Correlations)
    ensures ConvertDomain(x, tdb, "rh", c) ==> Convert(x, tdb, "rh", "rh", c) == Ok(Num(x))
    ensures ConvertDomain(x, tdb, "vappress", c) ==> Convert(x, tdb, "vappress", "vappress", c) == Ok(Num(x))
    ensures ConvertDomain(x, tdb, "w", c) ==> Convert(x, tdb, "w", "w", c) == Ok(Num(x))
    ensures ConvertDomain(x, tdb, "wetbulb", c) ==> Convert(x, tdb, "wetbulb", "wetbulb", c) == Ok(Num(x))
  {
    if ConvertDomain(x, tdb, "vappress", c) {
      TdbVappressRoundTrip(tdb, x, c);
    }
  }
}
