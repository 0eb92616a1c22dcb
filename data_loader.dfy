/**
  The scenario builder: it turns the 2025 half-hourly weather template into
  the 2030 net-demand series that the stress-window selector and the battery
  dispatch consume. CSV reading and caching are not modelled; a record of the
  historic file, the FES peak cell and the CP30 High targets are parameters.
*/
module DataLoader {
  import opened Wrappers
  import opened Settlement

  // ---------------------------------------------------------------------
  // Settlement periods
  // ---------------------------------------------------------------------

  /**
    The timestamp of a settlement period, in minutes: the settlement date's
    midnight (itself in minutes) plus (period - 1) half-hours.
  */
  function PeriodStart(dateMinutes: int, period: int): (t: int)
    ensures 1 <= period <= PeriodsPerDay ==> dateMinutes <= t < dateMinutes + MinutesPerDay
  {
    dateMinutes + (period - 1) * PeriodMinutes
  }

  /** Period 1 starts at the date's midnight. */
  lemma FirstPeriodIsMidnight(dateMinutes: int)
    ensures PeriodStart(dateMinutes, 1) == dateMinutes
  {
  }

  /** Period 48 starts at 23:30 of the same date. */
  lemma LastPeriodIsHalfPastEleven(dateMinutes: int)
    ensures PeriodStart(dateMinutes, PeriodsPerDay) == dateMinutes + 23 * 60 + 30
  {
  }

  /** Within a date, later periods have strictly later timestamps, and only they do. */
  lemma PeriodStartIsStrictlyIncreasing(dateMinutes: int, p: int, q: int)
    ensures p < q <==> PeriodStart(dateMinutes, p) < PeriodStart(dateMinutes, q)
  {
  }

  /** Consecutive periods are half an hour apart. */
  lemma ConsecutivePeriodsAreHalfAnHourApart(dateMinutes: int, p: int)
    ensures PeriodStart(dateMinutes, p + 1) - PeriodStart(dateMinutes, p) == PeriodMinutes
  {
  }

  /**
    Every period of a day, 1 to 48, starts within that day, and the half-hour
    after period 48 is period 1 of the next day: when every date of the file
    carries exactly the periods 1 to 48, the timestamps form one unbroken
    half-hourly grid.
  */
  lemma PeriodsTileTheDay(dateMinutes: int, p: int)
    requires 1 <= p <= PeriodsPerDay
    ensures dateMinutes <= PeriodStart(dateMinutes, p) < dateMinutes + MinutesPerDay
    ensures PeriodStart(dateMinutes, PeriodsPerDay) + PeriodMinutes == PeriodStart(dateMinutes + MinutesPerDay, 1)
  {
  }

  // ---------------------------------------------------------------------
  // Load factors
  // ---------------------------------------------------------------------

  /**
    The value of one cell of the quotient column generation / capacity: a
    finite number, an infinity (a non-zero value divided by zero), or NaN
    (a missing operand, or zero divided by zero).
  */
  datatype Quotient = Finite(value: real) | PosInf | NegInf | NaN

  /** Element-wise division of two cells, missing cells being NaN. */
  function Divide(generation: Option<real>, capacity: Option<real>): (q: Quotient)
    ensures q.NaN? <==> generation.None? || capacity.None? || (capacity.value == 0.0 && generation.value == 0.0)
  {
    match (generation, capacity)
    case (Some(g), Some(c)) =>
      if c != 0.0 then Finite(g / c)
      else if g > 0.0 then PosInf
      else if g < 0.0 then NegInf
      else NaN
    case _ => NaN
  }

  /** Replaces NaN by zero. */
  function FillNaZero(q: Quotient): (r: Quotient)
    ensures !r.NaN?
    ensures !q.NaN? ==> r == q
  {
    if q.NaN? then Finite(0.0) else q
  }

  /** A number clipped into [0, 1]. */
  function Clip01(x: real): (c: real)
    ensures 0.0 <= c <= 1.0
    ensures 0.0 <= x <= 1.0 ==> c == x
    ensures x < 0.0 ==> c == 0.0
    ensures 1.0 < x ==> c == 1.0
  {
    if x < 0.0 then 0.0 else if x > 1.0 then 1.0 else x
  }

  /** A cell clipped into [0, 1]: the infinities go to the bounds; NaN is left as it is. */
  function ClipCell(q: Quotient): (c: Option<real>)
    ensures c.None? <==> q.NaN?
    ensures c.Some? ==> 0.0 <= c.value <= 1.0
    ensures q.PosInf? ==> c == Some(1.0)
    ensures q.NegInf? ==> c == Some(0.0)
    ensures q.Finite? && 0.0 <= q.value <= 1.0 ==> c == Some(q.value)
  {
    match q
    case Finite(v) => Some(Clip01(v))
    case PosInf => Some(1.0)
    case NegInf => Some(0.0)
    case NaN => None
  }

  /**
    A load factor: generation over capacity, NaN filled with zero, then
    clipped into [0, 1]. It is always a number in [0, 1]; it is zero when an
    operand is missing; a zero capacity gives 1 for positive generation and
    0 otherwise; and a present ratio inside [0, 1] is kept exactly.
  */
  function LoadFactor(generation: Option<real>, capacity: Option<real>): (lf: real)
    ensures 0.0 <= lf <= 1.0
    ensures generation.None? || capacity.None? ==> lf == 0.0
    ensures generation.Some? && capacity.Some? && capacity.value == 0.0 ==>
              lf == (if generation.value > 0.0 then 1.0 else 0.0)
    ensures generation.Some? && capacity.Some? && capacity.value != 0.0 ==>
              lf == Clip01(generation.value / capacity.value)
  {
    ClipCell(FillNaZero(Divide(generation, capacity))).value
  }

  /** Within capacity, a load factor is the plain ratio of generation to capacity. */
  lemma LoadFactorWithinCapacity(generation: real, capacity: real)
    requires 0.0 <= generation <= capacity && capacity > 0.0
    ensures LoadFactor(Some(generation), Some(capacity)) == generation / capacity
  {
    RatioAtMostOne(generation, capacity);
  }

  /** A non-negative number over a larger positive one lies in [0, 1]. */
  lemma RatioAtMostOne(x: real, y: real)
    requires 0.0 <= x <= y && y > 0.0
    ensures 0.0 <= x / y <= 1.0
  {
    assert (x / y) * y == x;
  }

  /** One row of the historic demand file (a missing cell is None). */
  datatype RawRecord = RawRecord(
    settlementDateMinutes: int,
    settlementPeriod: int,
    nationalDemandMw: real,
    embeddedWindGeneration: Option<real>,
    embeddedWindCapacity: Option<real>,
    embeddedSolarGeneration: Option<real>,
    embeddedSolarCapacity: Option<real>)

  /** One row of the weather template: its timestamp, demand and the two load factors. */
  datatype WeatherRow = WeatherRow(datetime: int, demandMw: real, windLf: real, solarLf: real)

  /** The weather template row of one historic record. */
  function TemplateRow(r: RawRecord): (w: WeatherRow)
    ensures 0.0 <= w.windLf <= 1.0 && 0.0 <= w.solarLf <= 1.0
    ensures w.demandMw == r.nationalDemandMw
    ensures w.datetime == PeriodStart(r.settlementDateMinutes, r.settlementPeriod)
    ensures w.windLf == LoadFactor(r.embeddedWindGeneration, r.embeddedWindCapacity)
    ensures w.solarLf == LoadFactor(r.embeddedSolarGeneration, r.embeddedSolarCapacity)
  {
    WeatherRow(PeriodStart(r.settlementDateMinutes, r.settlementPeriod), r.nationalDemandMw,
               LoadFactor(r.embeddedWindGeneration, r.embeddedWindCapacity),
               LoadFactor(r.embeddedSolarGeneration, r.embeddedSolarCapacity))
  }

  /**
    The weather template: one row per record, in file order, with both load
    factors in [0, 1].
  */
  function WeatherTemplate(raw: seq<RawRecord>): (w: seq<WeatherRow>)
    ensures |w| == |raw|
    ensures forall i :: 0 <= i < |w| ==> w[i] == TemplateRow(raw[i])
    ensures forall i :: 0 <= i < |w| ==> LoadFactorsInRange(w[i])
  {
    seq(|raw|, i requires 0 <= i < |raw| => TemplateRow(raw[i]))
  }

  /** Both load factors of a row lie in [0, 1]. */
  predicate LoadFactorsInRange(w: WeatherRow)
  {
    0.0 <= w.windLf <= 1.0 && 0.0 <= w.solarLf <= 1.0
  }

  // ---------------------------------------------------------------------
  // FES peak
  // ---------------------------------------------------------------------

  /**
    The FES peak in MW from the selected cell and its unit: a GW value is
    multiplied by 1000, an MW value is taken as it is, and a value in any
    other unit is read as GW.
  */
  function FesPeakMw(value: real, unit: string): (mw: real)
    ensures unit == "MW" ==> mw == value
    ensures unit != "MW" ==> mw == value * 1000.0
  {
    if unit == "GW" then value * 1000.0
    else if unit == "MW" then value
    else value * 1000.0
  }

  // ---------------------------------------------------------------------
  // The 2030 profile
  // ---------------------------------------------------------------------

  /** The High values (GW) of the CP30 targets the builder reads. */
  datatype Cp30High = Cp30High(offshoreWindGw: real, onshoreWindGw: real, solarGw: real, nuclearGw: real)

  /** Installed wind capacity in MW: offshore plus onshore. */
  function WindCapacityMw(t: Cp30High): (mw: real)
    ensures mw / 1000.0 == t.offshoreWindGw + t.onshoreWindGw
    ensures t.offshoreWindGw >= 0.0 && t.onshoreWindGw >= 0.0 ==> mw >= 0.0
  {
    (t.offshoreWindGw + t.onshoreWindGw) * 1000.0
  }

  /** Installed solar capacity in MW. */
  function SolarCapacityMw(t: Cp30High): (mw: real)
    ensures mw / 1000.0 == t.solarGw
    ensures t.solarGw >= 0.0 ==> mw >= 0.0
  {
    t.solarGw * 1000.0
  }

  /** Nuclear baseload in MW. */
  function NuclearMw(t: Cp30High): (mw: real)
    ensures mw / 1000.0 == t.nuclearGw
    ensures t.nuclearGw >= 0.0 ==> mw >= 0.0
  {
    t.nuclearGw * 1000.0
  }

  /** All four targets are non-negative. */
  predicate NonNegativeTargets(t: Cp30High)
  {
    t.offshoreWindGw >= 0.0 && t.onshoreWindGw >= 0.0 && t.solarGw >= 0.0 && t.nuclearGw >= 0.0
  }

  /** One row of the 2030 scenario: the template row and the five columns added to it. */
  datatype ScenarioRow = ScenarioRow(
    weather: WeatherRow,
    demand2030Mw: real,
    windGen2030Mw: real,
    solarGen2030Mw: real,
    nuclearGen2030Mw: real,
    netDemandMw: real)

  /** The largest demand of a non-empty template: attained by some row, and no row exceeds it. */
  function PeakDemand(w: seq<WeatherRow>): (m: real)
    requires w != []
    ensures forall i :: 0 <= i < |w| ==> w[i].demandMw <= m
    ensures exists i :: 0 <= i < |w| && w[i].demandMw == m
    decreases |w|
  {
    if |w| == 1 then w[0].demandMw
    else
      var rest := PeakDemand(w[1..]);
      assert forall i :: 1 <= i < |w| ==> w[i] == w[1..][i - 1];
      if w[0].demandMw >= rest then w[0].demandMw else rest
  }

  /** The scaling factor from the 2025 template's peak to the 2030 target peak. */
  function ScalingFactor(w: seq<WeatherRow>, peakDemand2030Mw: real): (f: real)
    requires w != [] && PeakDemand(w) != 0.0
    ensures PeakDemand(w) > 0.0 && peakDemand2030Mw >= 0.0 ==> f >= 0.0
  {
    peakDemand2030Mw / PeakDemand(w)
  }

  /** The 2030 row built from one template row, given the demand scaling factor. */
  function ScenarioRowOf(w: WeatherRow, t: Cp30High, scaling: real): (s: ScenarioRow)
    ensures s.weather == w
    ensures s.windGen2030Mw == w.windLf * WindCapacityMw(t) && s.solarGen2030Mw == w.solarLf * SolarCapacityMw(t)
    ensures s.demand2030Mw == s.netDemandMw + s.windGen2030Mw + s.solarGen2030Mw + s.nuclearGen2030Mw
  {
    var demand := w.demandMw * scaling;
    var wind := w.windLf * WindCapacityMw(t);
    var solar := w.solarLf * SolarCapacityMw(t);
    var nuclear := NuclearMw(t);
    ScenarioRow(w, demand, wind, solar, nuclear, demand - (wind + solar + nuclear))
  }

  /**
    The 2030 scenario: the template's demand shape stretched to the target
    peak, wind and solar generation from the load factors and the CP30
    capacities, flat nuclear, and net demand as what generation leaves
    uncovered. Each output row carries its template row, in order; net demand
    plus the three generation columns is the 2030 demand on every row.
  */
  function Create2030Profile(weather: seq<WeatherRow>, targets: Cp30High, peakDemand2030Mw: real): (s: seq<ScenarioRow>)
    requires weather != [] ==> PeakDemand(weather) != 0.0
    ensures |s| == |weather|
    ensures forall i :: 0 <= i < |s| ==> s[i].weather == weather[i]
    ensures forall i :: 0 <= i < |s| ==>
              s[i].demand2030Mw == s[i].netDemandMw + s[i].windGen2030Mw + s[i].solarGen2030Mw + s[i].nuclearGen2030Mw
    ensures forall i :: 0 <= i < |s| ==> s[i].windGen2030Mw == weather[i].windLf * WindCapacityMw(targets)
    ensures forall i :: 0 <= i < |s| ==> s[i].solarGen2030Mw == weather[i].solarLf * SolarCapacityMw(targets)
  {
    if weather == [] then []
    else
      var scaling := ScalingFactor(weather, peakDemand2030Mw);
      var rows := seq(|weather|, i requires 0 <= i < |weather| => ScenarioRowOf(weather[i], targets, scaling));
      RowsOfTemplate(weather, targets, scaling, rows);
      rows
  }

  /** The scenario rows built one by one from a template carry its load factors times the capacities. */
  lemma RowsOfTemplate(weather: seq<WeatherRow>, targets: Cp30High, scaling: real, rows: seq<ScenarioRow>)
    requires |rows| == |weather|
    requires forall i :: 0 <= i < |rows| ==> rows[i] == ScenarioRowOf(weather[i], targets, scaling)
    ensures forall i :: 0 <= i < |rows| ==> rows[i].windGen2030Mw == weather[i].windLf * WindCapacityMw(targets)
    ensures forall i :: 0 <= i < |rows| ==> rows[i].solarGen2030Mw == weather[i].solarLf * SolarCapacityMw(targets)
  {
  }

  /** Row i of the profile is the scenario row of template row i. */
  lemma ProfileRow(weather: seq<WeatherRow>, targets: Cp30High, peakDemand2030Mw: real, i: nat)
    requires weather != [] && PeakDemand(weather) != 0.0 && i < |weather|
    ensures Create2030Profile(weather, targets, peakDemand2030Mw)[i]
            == ScenarioRowOf(weather[i], targets, ScalingFactor(weather, peakDemand2030Mw))
  {
  }

  /** Scaling by a non-negative factor keeps the order of two values. */
  lemma ScaleKeepsOrder(x: real, y: real, f: real)
    requires x <= y && f >= 0.0
    ensures x * f <= y * f
  {
  }

  /** The peak times the scaling factor is the target. */
  lemma ScalingHitsTarget(p: real, target: real)
    requires p != 0.0
    ensures p * (target / p) == target
  {
  }

  /** One row's scaled demand: below the target, and equal to it on a peak row. */
  lemma RowScaledBelowTarget(w: WeatherRow, targets: Cp30High, p: real, target: real)
    requires w.demandMw <= p && p > 0.0 && target >= 0.0
    ensures var r := ScenarioRowOf(w, targets, target / p);
      && r.demand2030Mw <= target
      && (w.demandMw == p ==> r.demand2030Mw == target)
  {
    ScalingHitsTarget(p, target);
    ScaleKeepsOrder(w.demandMw, p, target / p);
  }

  /**
    With a positive 2025 peak and a non-negative target, the scaled demand
    never exceeds the target and reaches it on the row(s) of the 2025 peak.
  */
  lemma ScaledPeakIsTarget(weather: seq<WeatherRow>, targets: Cp30High, peakDemand2030Mw: real)
    requires weather != [] && PeakDemand(weather) > 0.0 && peakDemand2030Mw >= 0.0
    ensures var s := Create2030Profile(weather, targets, peakDemand2030Mw);
      && (forall i :: 0 <= i < |s| ==> s[i].demand2030Mw <= peakDemand2030Mw)
      && (forall i :: 0 <= i < |s| && weather[i].demandMw == PeakDemand(weather) ==> s[i].demand2030Mw == peakDemand2030Mw)
  {
    var s := Create2030Profile(weather, targets, peakDemand2030Mw);
    forall i | 0 <= i < |s|
      ensures s[i].demand2030Mw <= peakDemand2030Mw
      ensures weather[i].demandMw == PeakDemand(weather) ==> s[i].demand2030Mw == peakDemand2030Mw
    {
      ProfileRow(weather, targets, peakDemand2030Mw, i);
      RowScaledBelowTarget(weather[i], targets, PeakDemand(weather), peakDemand2030Mw);
    }
  }

  /** The maximum of the scaled demand column is the target peak. */
  lemma ScaledPeakIsAttained(weather: seq<WeatherRow>, targets: Cp30High, peakDemand2030Mw: real)
    requires weather != [] && PeakDemand(weather) > 0.0 && peakDemand2030Mw >= 0.0
    ensures var s := Create2030Profile(weather, targets, peakDemand2030Mw);
      exists i :: 0 <= i < |s| && s[i].demand2030Mw == peakDemand2030Mw
  {
    ScaledPeakIsTarget(weather, targets, peakDemand2030Mw);
    var i :| 0 <= i < |weather| && weather[i].demandMw == PeakDemand(weather);
    var s := Create2030Profile(weather, targets, peakDemand2030Mw);
    assert s[i].demand2030Mw == peakDemand2030Mw;
  }

  /**
    A 2030 demand relates to the 2030 peak as a 2025 demand relates to the
    2025 peak (cross-multiplied, so that a zero target is allowed).
  */
  predicate SameShare(demand2030Mw: real, peak2030Mw: real, demand2025Mw: real, peak2025Mw: real)
  {
    demand2030Mw * peak2025Mw == demand2025Mw * peak2030Mw
  }

  /** One row's scaled demand keeps its share of the peak. */
  lemma RowKeepsShape(w: WeatherRow, targets: Cp30High, p: real, target: real)
    requires p != 0.0
    ensures SameShare(ScenarioRowOf(w, targets, target / p).demand2030Mw, target, w.demandMw, p)
  {
    var d := w.demandMw;
    ScalingHitsTarget(p, target);
    assert d * (target / p) * p == d * (p * (target / p));
  }

  /**
    Scaling keeps the demand shape: each row's 2030 demand relates to the
    target peak as its 2025 demand relates to the 2025 peak.
  */
  lemma ScalingKeepsShape(weather: seq<WeatherRow>, targets: Cp30High, peakDemand2030Mw: real)
    requires weather != [] && PeakDemand(weather) != 0.0
    ensures var s := Create2030Profile(weather, targets, peakDemand2030Mw);
      forall i :: 0 <= i < |s| ==>
        SameShare(s[i].demand2030Mw, peakDemand2030Mw, weather[i].demandMw, PeakDemand(weather))
  {
    var s := Create2030Profile(weather, targets, peakDemand2030Mw);
    forall i | 0 <= i < |s|
      ensures SameShare(s[i].demand2030Mw, peakDemand2030Mw, weather[i].demandMw, PeakDemand(weather))
    {
      ProfileRow(weather, targets, peakDemand2030Mw, i);
      RowKeepsShape(weather[i], targets, PeakDemand(weather), peakDemand2030Mw);
    }
  }

  /** A load factor in [0, 1] times a non-negative capacity lies in [0, capacity]. */
  lemma FactorTimesCapacity(lf: real, capacity: real)
    requires 0.0 <= lf <= 1.0 && capacity >= 0.0
    ensures 0.0 <= lf * capacity <= capacity
  {
    ScaleKeepsOrder(lf, 1.0, capacity);
    ScaleKeepsOrder(0.0, lf, capacity);
  }

  /** Generation at a load factor in [0, 1] of a non-negative capacity lies in [0, capacity]. */
  lemma GenerationWithinItsCapacity(generation: real, lf: real, capacity: real)
    requires generation == lf * capacity && 0.0 <= lf <= 1.0 && capacity >= 0.0
    ensures 0.0 <= generation <= capacity
  {
    FactorTimesCapacity(lf, capacity);
  }

  /** The generation bounds for one scenario row. */
  lemma RowGenerationWithinCapacity(w: WeatherRow, targets: Cp30High, scaling: real)
    requires NonNegativeTargets(targets) && LoadFactorsInRange(w)
    ensures var r := ScenarioRowOf(w, targets, scaling);
      && 0.0 <= r.windGen2030Mw <= WindCapacityMw(targets)
      && 0.0 <= r.solarGen2030Mw <= SolarCapacityMw(targets)
  {
    var r := ScenarioRowOf(w, targets, scaling);
    GenerationWithinItsCapacity(r.windGen2030Mw, w.windLf, WindCapacityMw(targets));
    GenerationWithinItsCapacity(r.solarGen2030Mw, w.solarLf, SolarCapacityMw(targets));
  }

  /**
    With load factors in [0, 1] and non-negative targets, wind generation
    lies between zero and the installed wind capacity, and solar between
    zero and the installed solar capacity.
  */
  lemma GenerationWithinCapacity(weather: seq<WeatherRow>, targets: Cp30High, peakDemand2030Mw: real)
    requires weather != [] ==> PeakDemand(weather) != 0.0
    requires NonNegativeTargets(targets)
    requires forall i :: 0 <= i < |weather| ==> LoadFactorsInRange(weather[i])
    ensures var s := Create2030Profile(weather, targets, peakDemand2030Mw);
      forall i :: 0 <= i < |s| ==>
        && 0.0 <= s[i].windGen2030Mw <= WindCapacityMw(targets)
        && 0.0 <= s[i].solarGen2030Mw <= SolarCapacityMw(targets)
  {
    var s := Create2030Profile(weather, targets, peakDemand2030Mw);
    forall i | 0 <= i < |s|
      ensures 0.0 <= s[i].windGen2030Mw <= WindCapacityMw(targets)
      ensures 0.0 <= s[i].solarGen2030Mw <= SolarCapacityMw(targets)
    {
      ProfileRow(weather, targets, peakDemand2030Mw, i);
      RowGenerationWithinCapacity(weather[i], targets, ScalingFactor(weather, peakDemand2030Mw));
    }
  }

  /** The nuclear column holds the same baseload on every row. */
  lemma NuclearIsFlat(weather: seq<WeatherRow>, targets: Cp30High, peakDemand2030Mw: real)
    requires weather != [] ==> PeakDemand(weather) != 0.0
    ensures var s := Create2030Profile(weather, targets, peakDemand2030Mw);
      forall i :: 0 <= i < |s| ==> s[i].nuclearGen2030Mw == NuclearMw(targets)
  {
  }

  /**
    With load factors in [0, 1] and non-negative targets, net demand lies
    between the 2030 demand less all installed capacity and the 2030 demand
    less nuclear alone.
  */
  lemma NetDemandBounds(weather: seq<WeatherRow>, targets: Cp30High, peakDemand2030Mw: real)
    requires weather != [] ==> PeakDemand(weather) != 0.0
    requires NonNegativeTargets(targets)
    requires forall i :: 0 <= i < |weather| ==> LoadFactorsInRange(weather[i])
    ensures var s := Create2030Profile(weather, targets, peakDemand2030Mw);
      forall i :: 0 <= i < |s| ==>
        s[i].demand2030Mw - (WindCapacityMw(targets) + SolarCapacityMw(targets) + NuclearMw(targets))
          <= s[i].netDemandMw <= s[i].demand2030Mw - NuclearMw(targets)
  {
    GenerationWithinCapacity(weather, targets, peakDemand2030Mw);
  }

  /**
    Built from a weather template, the profile meets the generation bounds
    for any non-negative targets: the template's load factors are in range.
  */
  lemma TemplateProfileWithinCapacity(raw: seq<RawRecord>, targets: Cp30High, peakDemand2030Mw: real)
    requires var w := WeatherTemplate(raw); w != [] ==> PeakDemand(w) != 0.0
    requires NonNegativeTargets(targets)
    ensures var s := Create2030Profile(WeatherTemplate(raw), targets, peakDemand2030Mw);
      forall i :: 0 <= i < |s| ==>
        && 0.0 <= s[i].windGen2030Mw <= WindCapacityMw(targets)
        && 0.0 <= s[i].solarGen2030Mw <= SolarCapacityMw(targets)
  {
    GenerationWithinCapacity(WeatherTemplate(raw), targets, peakDemand2030Mw);
  }
}
