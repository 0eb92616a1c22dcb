/**
  The stress-window selector and the greedy battery dispatch simulator.

  A data frame is a sequence of rows of some type R; the selector and the
  simulator only ever read the net-demand column, given as a projection
  `netDemand: R -> real`. Positions in the sequence are rows of the frame's
  timestamp index; W rows span windowDays days only on a gap-free index,
  which the model never relies on.
*/
module GapAnalysis {
  import opened Wrappers
  import opened Settlement

  /** The values of one column of a frame, in row order. */
  function Column<R>(df: seq<R>, netDemand: R -> real): (c: seq<real>)
    ensures |c| == |df|
    ensures forall i :: 0 <= i < |df| ==> c[i] == netDemand(df[i])
  {
    seq(|df|, i requires 0 <= i < |df| => netDemand(df[i]))
  }

  // ---------------------------------------------------------------------
  // Stress-window selection
  // ---------------------------------------------------------------------

  /** Net demand clipped below at zero: a surplus contributes no deficit. */
  function Deficit(x: real): (d: real)
    ensures d >= 0.0 && d >= x
    ensures d == x || d == 0.0
  {
    if x < 0.0 then 0.0 else x
  }

  /** The clipped net demand summed over rows [lo, hi), term by term. */
  function DeficitSum(nd: seq<real>, lo: nat, hi: nat): (s: real)
    requires lo <= hi <= |nd|
    ensures s >= 0.0
    decreases hi
  {
    if lo == hi then 0.0 else DeficitSum(nd, lo, hi - 1) + Deficit(nd[hi - 1])
  }

  /** The score of the window of w rows that ends at (and includes) row i. */
  function WindowScore(nd: seq<real>, w: nat, i: nat): real
    requires 1 <= w <= i + 1 && i < |nd|
  {
    DeficitSum(nd, i + 1 - w, i + 1)
  }

  /**
    The trailing rolling sum of the clipped series as pandas produces it:
    undefined (None, pandas' NaN) for the first w - 1 rows, and from then on
    the difference of two running totals.
  */
  function RollingDeficit(nd: seq<real>, w: nat): (r: seq<Option<real>>)
    requires w >= 1
    ensures |r| == |nd|
    ensures forall i :: 0 <= i < |nd| ==> (r[i].Some? <==> w - 1 <= i)
  {
    seq(|nd|, i requires 0 <= i < |nd| =>
      if i + 1 < w then None else Some(DeficitSum(nd, 0, i + 1) - DeficitSum(nd, 0, i + 1 - w)))
  }

  /** A sum over [lo, hi) splits at any point in between. */
  lemma {:induction false} DeficitSumSplit(nd: seq<real>, lo: nat, mid: nat, hi: nat)
    requires lo <= mid <= hi <= |nd|
    ensures DeficitSum(nd, lo, hi) == DeficitSum(nd, lo, mid) + DeficitSum(nd, mid, hi)
    decreases hi
  {
    if mid < hi {
      DeficitSumSplit(nd, lo, mid, hi - 1);
    }
  }

  /**
    The running-total computation agrees with the term-by-term sum: the rolling
    value at row i is defined exactly when i >= w - 1, and is then the sum of
    max(nd[k], 0) over k in [i - w + 1, i], which is never negative.
  */
  lemma RollingIsTrailingSum(nd: seq<real>, w: nat, i: nat)
    requires w >= 1 && i < |nd|
    ensures RollingDeficit(nd, w)[i] == if i + 1 < w then None else Some(WindowScore(nd, w, i))
    ensures RollingDeficit(nd, w)[i].Some? ==> RollingDeficit(nd, w)[i].value >= 0.0
  {
    if i + 1 >= w {
      DeficitSumSplit(nd, 0, i + 1 - w, i + 1);
    }
  }

  /**
    The first position of a maximal value among the defined entries
    r[lo..hi), as a series' idxmax reports it.
  */
  function FirstArgMax(r: seq<Option<real>>, lo: nat, hi: nat): (k: nat)
    requires lo < hi <= |r|
    requires forall j :: lo <= j < hi ==> r[j].Some?
    ensures lo <= k < hi
    ensures forall j :: lo <= j < hi ==> r[j].value <= r[k].value
    ensures forall j :: lo <= j < k ==> r[j].value < r[k].value
    decreases hi
  {
    if hi == lo + 1 then lo
    else
      var k := FirstArgMax(r, lo, hi - 1);
      if r[hi - 1].value > r[k].value then hi - 1 else k
  }

  /**
    The rows chosen by the selector: the returned slice is [start, end), and
    reported is the row whose timestamp is reported with it.
  */
  datatype Choice = Choice(start: nat, end: nat, reported: nat)

  /** Why the selector cannot return a window. */
  datatype SelectError =
    | NoCompleteWindow   // fewer than w rows: every rolling value is NaN and idxmax has nothing to return
    | LabelOutOfRange    // fallback on exactly w rows: index[w] does not exist

  /** No window of w rows has any deficit. */
  ghost predicate NoDeficit(nd: seq<real>, w: nat)
    requires w >= 1
  {
    forall i :: w - 1 <= i < |nd| ==> WindowScore(nd, w, i) == 0.0
  }

  /** Row e ends a window with the highest score, and no earlier row does. */
  ghost predicate IsFirstMax(nd: seq<real>, w: nat, e: nat)
    requires w >= 1
  {
    && w - 1 <= e < |nd|
    && (forall i :: w - 1 <= i < |nd| ==> WindowScore(nd, w, i) <= WindowScore(nd, w, e))
    && (forall i :: w - 1 <= i < e ==> WindowScore(nd, w, i) < WindowScore(nd, w, e))
  }

  /**
    The selection over the net-demand column with a window of w rows: the
    first end row with the highest rolling value, the slice before it, and
    the fallback to the first w rows (reported with index[w]) when the
    highest rolling value is zero.
  */
  function SelectWindow(nd: seq<real>, w: nat): (r: Result<Choice, SelectError>)
    requires w >= 1
    ensures r.Success? ==> r.value.start <= r.value.end <= r.value.reported < |nd|
  {
    if |nd| < w then Failure(NoCompleteWindow)
    else
      var rolling := RollingDeficit(nd, w);
      var e := FirstArgMax(rolling, w - 1, |nd|);
      if rolling[e].value == 0.0 then
        if |nd| > w then Success(Choice(0, w, w)) else Failure(LabelOutOfRange)
      else
        Success(Choice(if e < w then 0 else e - w, e, e))
  }

  /** Every rolling value from row w - 1 on is the trailing window sum. */
  lemma RollingAllTrailingSums(nd: seq<real>, w: nat)
    requires w >= 1
    ensures forall i :: w - 1 <= i < |nd| ==>
      RollingDeficit(nd, w)[i] == Some(WindowScore(nd, w, i))
  {
    forall i | w - 1 <= i < |nd|
      ensures RollingDeficit(nd, w)[i] == Some(WindowScore(nd, w, i))
    {
      RollingIsTrailingSum(nd, w, i);
    }
  }

  /**
    What the selector returns, stated against the term-by-term scores:
    an error on too short a series; the fallback (first w rows, reported
    with row w, an error when row w does not exist) exactly when no window
    has a deficit; otherwise the first end row of maximal score, the rows
    [max(0, end - w), end) before it, and that end row as the label.
  */
  lemma SelectWindowSpec(nd: seq<real>, w: nat)
    requires w >= 1
    ensures var r := SelectWindow(nd, w);
      if |nd| < w then r == Failure(NoCompleteWindow)
      else if NoDeficit(nd, w) then
        r == if |nd| == w then Failure(LabelOutOfRange) else Success(Choice(0, w, w))
      else
        && r.Success?
        && IsFirstMax(nd, w, r.value.end)
        && r.value.reported == r.value.end
        && r.value.start == (if r.value.end < w then 0 else r.value.end - w)
  {
    if |nd| >= w {
      RollingAllTrailingSums(nd, w);
      var rolling := RollingDeficit(nd, w);
      var e := FirstArgMax(rolling, w - 1, |nd|);
      if rolling[e].value == 0.0 {
        forall i | w - 1 <= i < |nd| ensures WindowScore(nd, w, i) == 0.0 {
          assert rolling[i].value <= rolling[e].value;
        }
      } else {
        assert WindowScore(nd, w, e) > 0.0;
      }
    }
  }

  /** Two selections ending at first maximal rows end at the same row. */
  lemma FirstMaxIsUnique(nd: seq<real>, w: nat, e1: nat, e2: nat)
    requires w >= 1 && IsFirstMax(nd, w, e1) && IsFirstMax(nd, w, e2)
    ensures e1 == e2
  {
    assert WindowScore(nd, w, e1) <= WindowScore(nd, w, e2) <= WindowScore(nd, w, e1);
  }

  /**
    A window that strictly out-scores every other window, and has a
    deficit, is the one selected.
  */
  lemma DominantWindowIsSelected(nd: seq<real>, w: nat, e: nat)
    requires w >= 1 && w - 1 <= e < |nd|
    requires WindowScore(nd, w, e) > 0.0
    requires forall i :: w - 1 <= i < |nd| && i != e ==> WindowScore(nd, w, i) < WindowScore(nd, w, e)
    ensures SelectWindow(nd, w) == Success(Choice(if e < w then 0 else e - w, e, e))
  {
    SelectWindowSpec(nd, w);
    var c := SelectWindow(nd, w).value;
    assert WindowScore(nd, w, e) <= WindowScore(nd, w, c.end);
  }

  /** A sum of clipped values that are all non-positive is zero. */
  lemma {:induction false} SurplusSumIsZero(nd: seq<real>, lo: nat, hi: nat)
    requires lo <= hi <= |nd|
    requires forall k :: lo <= k < hi ==> nd[k] <= 0.0
    ensures DeficitSum(nd, lo, hi) == 0.0
    decreases hi
  {
    if lo < hi {
      SurplusSumIsZero(nd, lo, hi - 1);
    }
  }

  /**
    A grid that never has a deficit (net demand <= 0 everywhere) takes the
    fallback: the first w rows, reported with the timestamp of row w.
  */
  lemma AlwaysSurplusFallsBack(nd: seq<real>, w: nat)
    requires w >= 1 && |nd| > w
    requires forall k :: 0 <= k < |nd| ==> nd[k] <= 0.0
    ensures NoDeficit(nd, w)
    ensures SelectWindow(nd, w) == Success(Choice(0, w, w))
  {
    forall i | w - 1 <= i < |nd| ensures WindowScore(nd, w, i) == 0.0 {
      SurplusSumIsZero(nd, i + 1 - w, i + 1);
    }
    SelectWindowSpec(nd, w);
  }

  /**
    The returned rows are not the scored rows. When the end row e has at
    least w rows before it, the slice [e - w, e) gains row e - w and loses
    row e relative to the scored window [e - w + 1, e]; when e = w - 1 the
    slice is the scored window without its last row.
  */
  lemma ReturnedWindowIsShifted(nd: seq<real>, w: nat)
    requires w >= 1 && |nd| >= w && !NoDeficit(nd, w)
    ensures SelectWindow(nd, w).Success?
    ensures var c := SelectWindow(nd, w).value;
      DeficitSum(nd, c.start, c.end) ==
         WindowScore(nd, w, c.end) - Deficit(nd[c.end]) + (if c.end < w then 0.0 else Deficit(nd[c.end - w]))
  {
    SelectWindowSpec(nd, w);
    var c := SelectWindow(nd, w).value;
    var e := c.end;
    if e < w {
      assert c.start == 0 && e + 1 - w == 0;
    } else {
      DeficitSumSplit(nd, e - w, e + 1 - w, e);
      assert DeficitSum(nd, e - w, e + 1 - w) == Deficit(nd[e - w]);
    }
  }

  /** The window together with the position of its reported timestamp. */
  datatype Selected<R> = Selected(window: seq<R>, endPos: nat)

  /**
    The selector on a whole frame: it scores the net-demand column with a
    window of windowDays * 48 rows (five days unless told otherwise) and
    returns the chosen rows of the frame.
  */
  function IdentifyDunkelflauteWindow<R>(df: seq<R>, netDemand: R -> real, windowDays: int := 5): (r: Result<Selected<R>, SelectError>)
    requires windowDays >= 1
    ensures r.Success? ==> r.value.endPos < |df|
  {
    match SelectWindow(Column(df, netDemand), windowDays * PeriodsPerDay)
    case Failure(e) => Failure(e)
    case Success(c) => Success(Selected(df[c.start..c.end], c.reported))
  }

  /**
    The shape of the returned window: without a deficit it is the first W
    rows reported with row W; otherwise it is the contiguous run of rows
    [max(0, end - W), end) in frame order, W rows long unless end = W - 1
    (then W - 1 rows), and it never holds the end row itself.
  */
  lemma DunkelflauteWindowShape<R>(df: seq<R>, netDemand: R -> real, windowDays: int)
    requires windowDays >= 1
    ensures var w := windowDays * PeriodsPerDay;
      var nd := Column(df, netDemand);
      var r := IdentifyDunkelflauteWindow(df, netDemand, windowDays);
      (r.Failure? <==> |df| < w || (|df| == w && NoDeficit(nd, w)))
      && (r.Success? && NoDeficit(nd, w) ==> r.value.window == df[..w] && r.value.endPos == w)
      && (r.Success? && !NoDeficit(nd, w) ==>
            var e := r.value.endPos;
            var start := if e < w then 0 else e - w;
            && IsFirstMax(nd, w, e)
            && r.value.window == df[start..e]
            && |r.value.window| == (if e == w - 1 then w - 1 else w)
            && (forall k :: 0 <= k < |r.value.window| ==> r.value.window[k] == df[start + k]))
  {
    SelectWindowSpec(Column(df, netDemand), windowDays * PeriodsPerDay);
  }

  /**
    The selector reads nothing but the net-demand column: frames whose
    net-demand columns agree get the same selection.
  */
  lemma SelectionReadsOnlyNetDemand<R, S>(a: seq<R>, fa: R -> real, b: seq<S>, fb: S -> real, windowDays: int)
    requires windowDays >= 1 && |a| == |b|
    requires forall i :: 0 <= i < |a| ==> fa(a[i]) == fb(b[i])
    ensures SelectWindow(Column(a, fa), windowDays * PeriodsPerDay) == SelectWindow(Column(b, fb), windowDays * PeriodsPerDay)
  {
    assert Column(a, fa) == Column(b, fb);
  }

  // ---------------------------------------------------------------------
  // Battery dispatch
  // ---------------------------------------------------------------------

  /** A battery fleet: power limit (MW), energy capacity (MWh) and charge efficiency. */
  datatype Battery = Battery(powerMw: real, maxEnergyMwh: real, efficiency: real)

  /**
    The fleet of a given power and duration: its capacity is power times
    duration, and for a non-negative power and a positive duration the
    half-full starting charge lies within that capacity.
  */
  function Fleet(batteryCapacityMw: real, batteryDurationHours: real, efficiency: real): (b: Battery)
    ensures b.powerMw == batteryCapacityMw && b.efficiency == efficiency
    ensures b.maxEnergyMwh == batteryCapacityMw * batteryDurationHours
    ensures batteryCapacityMw >= 0.0 && batteryDurationHours > 0.0 ==>
              0.0 <= b.maxEnergyMwh * 0.5 <= b.maxEnergyMwh
  {
    Battery(batteryCapacityMw, batteryCapacityMw * batteryDurationHours, efficiency)
  }

  /** The state of charge after one half-hour, and the grid-side battery flow during it. */
  datatype Step = Step(storageMwh: real, outputMw: real)

  /** The smaller of two numbers; the first one on a tie, as Python's min. */
  function Min(a: real, b: real): (m: real)
    ensures m <= a && m <= b && (m == a || m == b)
  {
    if b < a then b else a
  }

  /**
    One half-hour of the greedy rule at state of charge soc: a surplus
    (nd < 0) charges through the power limit, is reduced by the efficiency
    and is capped at the headroom, and is reported as grid-side draw; a
    deficit discharges through the power limit, capped at the stored
    energy, with no loss on the way out.
  */
  function DispatchStep(b: Battery, soc: real, nd: real): (s: Step)
    requires b.efficiency != 0.0
    // a deficit row never charges the battery
    ensures b.powerMw >= 0.0 && nd >= 0.0 && soc >= 0.0 ==> 0.0 <= s.outputMw && s.storageMwh <= soc
    // a surplus row never discharges it
    ensures b.powerMw >= 0.0 && b.efficiency > 0.0 && nd < 0.0 && soc <= b.maxEnergyMwh ==>
              s.outputMw <= 0.0 && soc <= s.storageMwh
  {
    if nd < 0.0 then
      var chargePower := Min(-nd, b.powerMw);
      var energyToStore := chargePower * PeriodHours * b.efficiency;
      var spaceAvailable := b.maxEnergyMwh - soc;
      var actualStored := Min(energyToStore, spaceAvailable);
      Step(soc + actualStored, -actualStored / PeriodHours / b.efficiency)
    else
      var dischargePower := Min(nd, b.powerMw);
      var energyNeeded := dischargePower * PeriodHours;
      var actualEnergyOut := Min(energyNeeded, soc);
      Step(soc - actualEnergyOut, actualEnergyOut / PeriodHours)
  }

  /** The state of charge left after the given steps, starting from initialMwh. */
  function StorageAfter(initialMwh: real, steps: seq<Step>): real
  {
    if steps == [] then initialMwh else steps[|steps| - 1].storageMwh
  }

  /**
    The whole series replayed in order through one battery: each row's
    step starts from the state of charge the previous row left.
  */
  function Simulate(b: Battery, initialMwh: real, nd: seq<real>): (steps: seq<Step>)
    requires b.efficiency != 0.0
    ensures |steps| == |nd|
    decreases |nd|
  {
    if nd == [] then []
    else
      var prev := Simulate(b, initialMwh, nd[..|nd| - 1]);
      prev + [DispatchStep(b, StorageAfter(initialMwh, prev), nd[|nd| - 1])]
  }

  /** Replaying a prefix of the series gives a prefix of the replay. */
  lemma {:induction false} SimulatePrefix(b: Battery, initialMwh: real, nd: seq<real>, i: nat)
    requires b.efficiency != 0.0 && i <= |nd|
    ensures Simulate(b, initialMwh, nd[..i]) == Simulate(b, initialMwh, nd)[..i]
    decreases |nd|
  {
    if i < |nd| {
      var n := |nd|;
      assert nd[..n - 1][..i] == nd[..i];
      SimulatePrefix(b, initialMwh, nd[..n - 1], i);
    } else {
      assert nd[..i] == nd;
    }
  }

  /**
    Row i of the replay is one step from the state of charge that row i - 1
    left (or the initial state of charge for row 0): the serial dependency.
  */
  lemma SimulateAt(b: Battery, initialMwh: real, nd: seq<real>, i: nat)
    requires b.efficiency != 0.0 && i < |nd|
    ensures var steps := Simulate(b, initialMwh, nd);
      steps[i] == DispatchStep(b, if i == 0 then initialMwh else steps[i - 1].storageMwh, nd[i])
  {
    SimulatePrefix(b, initialMwh, nd, i + 1);
    SimulatePrefix(b, initialMwh, nd, i);
    assert nd[..i + 1][..i] == nd[..i];
  }

  /**
    The body of the dispatch loop for one half-hour: from the state of
    charge before the interval and its net demand, the state of charge
    after it and the grid-side battery flow. It performs, statement by
    statement, the arithmetic that DispatchStep states as a function, and
    its postcondition proves the two equal.
  */
  method DispatchInterval(batteryCapacityMw: real, maxEnergyMwh: real, efficiency: real,
                          currentStorageMwh: real, netDemandMw: real)
    returns (storageMwh: real, batteryFlow: real)
    requires efficiency != 0.0
    ensures Step(storageMwh, batteryFlow) ==
      DispatchStep(Battery(batteryCapacityMw, maxEnergyMwh, efficiency), currentStorageMwh, netDemandMw)
  {
    if netDemandMw < 0.0 {
      var chargePower := Min(-netDemandMw, batteryCapacityMw);
      var energyToStore := chargePower * PeriodHours * efficiency;
      var spaceAvailable := maxEnergyMwh - currentStorageMwh;
      var actualStored := Min(energyToStore, spaceAvailable);
      storageMwh := currentStorageMwh + actualStored;
      batteryFlow := -actualStored / PeriodHours / efficiency;
    } else {
      var dischargePower := Min(netDemandMw, batteryCapacityMw);
      var energyNeeded := dischargePower * PeriodHours;
      var actualEnergyOut := Min(energyNeeded, currentStorageMwh);
      storageMwh := currentStorageMwh - actualEnergyOut;
      batteryFlow := actualEnergyOut / PeriodHours;
    }
  }

  /**
    Each step is the given rule applied to the state of charge the steps
    before it left (the initial one for the first row) and to its row.
  */
  ghost predicate FollowsRule(rule: (real, real) -> Step, initialMwh: real, nd: seq<real>, steps: seq<Step>)
  {
    && |steps| == |nd|
    && forall k :: 0 <= k < |nd| ==> steps[k] == rule(StorageAfter(initialMwh, steps[..k]), nd[k])
  }

  /** Steps that follow the greedy rule of battery b. */
  ghost predicate FollowsDispatch(b: Battery, initialMwh: real, nd: seq<real>, steps: seq<Step>)
    requires b.efficiency != 0.0
  {
    FollowsRule((soc, x) => DispatchStep(b, soc, x), initialMwh, nd, steps)
  }

  /** The replay follows the dispatch rule. */
  lemma SimulateFollowsDispatch(b: Battery, initialMwh: real, nd: seq<real>)
    requires b.efficiency != 0.0
    ensures FollowsDispatch(b, initialMwh, nd, Simulate(b, initialMwh, nd))
  {
    var sim := Simulate(b, initialMwh, nd);
    forall k | 0 <= k < |nd|
      ensures sim[k] == DispatchStep(b, StorageAfter(initialMwh, sim[..k]), nd[k])
    {
      SimulateAt(b, initialMwh, nd, k);
      assert StorageAfter(initialMwh, sim[..k]) == if k == 0 then initialMwh else sim[k - 1].storageMwh;
    }
  }

  /** Two sequences that follow one rule over the same rows agree on every prefix. */
  lemma {:induction false} FollowersAgree(rule: (real, real) -> Step, initialMwh: real, nd: seq<real>,
                                         s1: seq<Step>, s2: seq<Step>, i: nat)
    requires i <= |nd| && FollowsRule(rule, initialMwh, nd, s1) && FollowsRule(rule, initialMwh, nd, s2)
    ensures s1[..i] == s2[..i]
    decreases i
  {
    if i > 0 {
      FollowersAgree(rule, initialMwh, nd, s1, s2, i - 1);
      assert s1[..i] == s1[..i - 1] + [s1[i - 1]];
      assert s2[..i] == s2[..i - 1] + [s2[i - 1]];
    }
  }

  /**
    The replay is the one and only sequence of steps that follows the
    dispatch rule row by row from the initial state of charge.
  */
  lemma FollowsDispatchIsSimulate(b: Battery, initialMwh: real, nd: seq<real>, steps: seq<Step>)
    requires b.efficiency != 0.0
    ensures FollowsDispatch(b, initialMwh, nd, steps) <==> steps == Simulate(b, initialMwh, nd)
  {
    var sim := Simulate(b, initialMwh, nd);
    SimulateFollowsDispatch(b, initialMwh, nd);
    if FollowsDispatch(b, initialMwh, nd, steps) {
      FollowersAgree((soc, x) => DispatchStep(b, soc, x), initialMwh, nd, steps, sim, |nd|);
      assert steps == steps[..|nd|] && sim == sim[..|nd|];
    }
  }

  /** One output row of the dispatch: the input row and the three columns it gains. */
  datatype DispatchRow<R> = DispatchRow(row: R, batteryStorageMwh: real, batteryOutputMw: real, unmetGapMw: real)

  /**
    The greedy dispatch over a whole frame. The battery starts half full;
    each row gets the state of charge after it, the grid-side battery flow
    and the unmet gap (net demand minus flow); the input rows are kept, in
    order. Unless told otherwise the fleet is 25000 MW for 4 hours at an
    efficiency of 0.9.
  */
  method RunSimpleDispatch<R>(df: seq<R>, netDemand: R -> real, batteryCapacityMw: real := 25000.0,
                              batteryDurationHours: real := 4.0, efficiency: real := 0.9)
    returns (simulation: seq<DispatchRow<R>>)
    requires efficiency != 0.0
    ensures |simulation| == |df|
    ensures var steps := Simulate(Fleet(batteryCapacityMw, batteryDurationHours, efficiency),
                                  batteryCapacityMw * batteryDurationHours * 0.5, Column(df, netDemand));
      forall i :: 0 <= i < |df| ==>
        simulation[i] == DispatchRow(df[i], steps[i].storageMwh, steps[i].outputMw,
                                     netDemand(df[i]) - steps[i].outputMw)
  {
    ghost var nd := Column(df, netDemand);
    var maxEnergyMwh := batteryCapacityMw * batteryDurationHours;
    ghost var b := Fleet(batteryCapacityMw, batteryDurationHours, efficiency);
    assert b == Battery(batteryCapacityMw, maxEnergyMwh, efficiency);
    var currentStorageMwh := maxEnergyMwh * 0.5;  // the year starts half full
    ghost var replay := Simulate(b, currentStorageMwh, nd);
    var storageProfile: seq<real> := [];
    var batteryOutput: seq<real> := [];
    for i := 0 to |df|
      invariant |storageProfile| == i && |batteryOutput| == i
      invariant forall k :: 0 <= k < i ==> storageProfile[k] == replay[k].storageMwh
      invariant forall k :: 0 <= k < i ==> batteryOutput[k] == replay[k].outputMw
      invariant currentStorageMwh == if i == 0 then maxEnergyMwh * 0.5 else replay[i - 1].storageMwh
    {
      var netDemandMw := netDemand(df[i]);
      var batteryFlow;
      currentStorageMwh, batteryFlow :=
        DispatchInterval(batteryCapacityMw, maxEnergyMwh, efficiency, currentStorageMwh, netDemandMw);
      SimulateAt(b, maxEnergyMwh * 0.5, nd, i);
      storageProfile := storageProfile + [currentStorageMwh];
      batteryOutput := batteryOutput + [batteryFlow];
    }
    simulation := seq(|df|, i requires 0 <= i < |df| =>
      DispatchRow(df[i], storageProfile[i], batteryOutput[i], netDemand(df[i]) - batteryOutput[i]));
  }

  /**
    The charge branch (nd < 0), given a non-negative power limit, a positive
    efficiency and a state of charge within capacity: the energy stored is
    non-negative, at most min(|nd|, power) * 0.5 * efficiency and at most the
    headroom, and equal to one of the two (the greedy rule stores all it
    can); the flow is the stored energy drawn back to grid side, between
    -min(|nd|, power) and 0; and the unmet gap lies in [nd, 0].
  */
  lemma ChargeStepBounds(b: Battery, soc: real, nd: real)
    requires nd < 0.0 && b.powerMw >= 0.0 && b.efficiency > 0.0 && soc <= b.maxEnergyMwh
    ensures var s := DispatchStep(b, soc, nd);
      var stored := s.storageMwh - soc;
      && 0.0 <= stored <= Min(-nd, b.powerMw) * PeriodHours * b.efficiency
      && stored <= b.maxEnergyMwh - soc
      && (stored == Min(-nd, b.powerMw) * PeriodHours * b.efficiency || stored == b.maxEnergyMwh - soc)
      && s.outputMw == -stored / PeriodHours / b.efficiency
      && -Min(-nd, b.powerMw) <= s.outputMw <= 0.0
      && nd <= nd - s.outputMw <= 0.0
  {
    var chargePower := Min(-nd, b.powerMw);
    var stored := DispatchStep(b, soc, nd).storageMwh - soc;
    var e := b.efficiency;
    assert 0.0 <= stored <= chargePower * PeriodHours * e;
    var flow := -stored / PeriodHours / e;
    assert flow == -(stored / (PeriodHours * e));
    assert stored / (PeriodHours * e) <= chargePower by {
      assert stored <= chargePower * (PeriodHours * e);
    }
    assert stored / (PeriodHours * e) >= 0.0;
  }

  /**
    The discharge branch (nd >= 0), given a non-negative power limit and a
    non-negative state of charge: the energy delivered is non-negative, at
    most min(nd, power) * 0.5 and at most the state of charge, and equal to
    one of the two (the greedy rule delivers all it can); the flow is
    that energy over the half-hour with no efficiency loss, between 0 and
    min(nd, power); the unmet gap lies in [0, nd]; and a fleet with no power
    delivers nothing.
  */
  lemma DischargeStepBounds(b: Battery, soc: real, nd: real)
    requires nd >= 0.0 && b.powerMw >= 0.0 && b.efficiency != 0.0 && soc >= 0.0
    ensures var s := DispatchStep(b, soc, nd);
      var delivered := soc - s.storageMwh;
      && 0.0 <= delivered <= Min(nd, b.powerMw) * PeriodHours
      && delivered <= soc
      && (delivered == Min(nd, b.powerMw) * PeriodHours || delivered == soc)
      && s.outputMw == delivered / PeriodHours
      && 0.0 <= s.outputMw <= Min(nd, b.powerMw)
      && 0.0 <= nd - s.outputMw <= nd
      && (b.powerMw == 0.0 ==> s.outputMw == 0.0 && nd - s.outputMw == nd)
  {
  }

  /** The state of charge after a step stays within [0, capacity] when it started there. */
  lemma StepKeepsStorageInRange(b: Battery, soc: real, nd: real)
    requires b.powerMw >= 0.0 && b.efficiency > 0.0 && 0.0 <= soc <= b.maxEnergyMwh
    ensures 0.0 <= DispatchStep(b, soc, nd).storageMwh <= b.maxEnergyMwh
  {
    if nd < 0.0 {
      ChargeStepBounds(b, soc, nd);
    } else {
      DischargeStepBounds(b, soc, nd);
    }
  }

  /**
    The state-of-charge invariant: from a start within [0, capacity] the
    state of charge after every row is within [0, capacity], and so is the
    state of charge left at the end.
  */
  lemma {:induction false} StorageStaysInRange(b: Battery, initialMwh: real, nd: seq<real>)
    requires b.powerMw >= 0.0 && b.efficiency > 0.0 && 0.0 <= initialMwh <= b.maxEnergyMwh
    ensures forall i :: 0 <= i < |nd| ==> 0.0 <= Simulate(b, initialMwh, nd)[i].storageMwh <= b.maxEnergyMwh
    ensures 0.0 <= StorageAfter(initialMwh, Simulate(b, initialMwh, nd)) <= b.maxEnergyMwh
    decreases |nd|
  {
    if nd != [] {
      var n := |nd|;
      var prev := Simulate(b, initialMwh, nd[..n - 1]);
      StorageStaysInRange(b, initialMwh, nd[..n - 1]);
      StepKeepsStorageInRange(b, StorageAfter(initialMwh, prev), nd[n - 1]);
    }
  }

  /**
    For the fleet the dispatch builds (power >= 0, duration > 0, efficiency
    in (0, 1]): the battery starts at half of power * duration, and after
    every row 0 <= state of charge <= power * duration.
  */
  lemma FleetStorageInvariant(nd: seq<real>, batteryCapacityMw: real, batteryDurationHours: real, efficiency: real)
    requires batteryCapacityMw >= 0.0 && batteryDurationHours > 0.0 && 0.0 < efficiency <= 1.0
    ensures var b := Fleet(batteryCapacityMw, batteryDurationHours, efficiency);
      var steps := Simulate(b, b.maxEnergyMwh * 0.5, nd);
      && 0.0 <= b.maxEnergyMwh * 0.5 <= b.maxEnergyMwh
      && forall i :: 0 <= i < |nd| ==> 0.0 <= steps[i].storageMwh <= batteryCapacityMw * batteryDurationHours
  {
    var b := Fleet(batteryCapacityMw, batteryDurationHours, efficiency);
    assert b.maxEnergyMwh >= 0.0 by {
      assert batteryCapacityMw * batteryDurationHours >= 0.0 * batteryDurationHours;
    }
    StorageStaysInRange(b, b.maxEnergyMwh * 0.5, nd);
  }

  /**
    Row by row over a whole replay from a state of charge within capacity:
    a surplus row draws between 0 and min(|nd|, power) from the grid and
    leaves an unmet gap in [nd, 0]; a deficit row supplies between 0 and
    min(nd, power) and leaves an unmet gap in [0, nd].
  */
  lemma UnmetGapBounds(b: Battery, initialMwh: real, nd: seq<real>)
    requires b.powerMw >= 0.0 && b.efficiency > 0.0 && 0.0 <= initialMwh <= b.maxEnergyMwh
    ensures var steps := Simulate(b, initialMwh, nd);
      forall i :: 0 <= i < |nd| ==>
        if nd[i] < 0.0 then
          -Min(-nd[i], b.powerMw) <= steps[i].outputMw <= 0.0 && nd[i] <= nd[i] - steps[i].outputMw <= 0.0
        else
          0.0 <= steps[i].outputMw <= Min(nd[i], b.powerMw) && 0.0 <= nd[i] - steps[i].outputMw <= nd[i]
  {
    var steps := Simulate(b, initialMwh, nd);
    StorageStaysInRange(b, initialMwh, nd);
    forall i | 0 <= i < |nd|
      ensures if nd[i] < 0.0 then
          -Min(-nd[i], b.powerMw) <= steps[i].outputMw <= 0.0 && nd[i] <= nd[i] - steps[i].outputMw <= 0.0
        else
          0.0 <= steps[i].outputMw <= Min(nd[i], b.powerMw) && 0.0 <= nd[i] - steps[i].outputMw <= nd[i]
    {
      SimulateAt(b, initialMwh, nd, i);
      var soc := if i == 0 then initialMwh else steps[i - 1].storageMwh;
      if nd[i] < 0.0 {
        ChargeStepBounds(b, soc, nd[i]);
      } else {
        DischargeStepBounds(b, soc, nd[i]);
      }
    }
  }

  /**
    A fleet with no power does nothing: the state of charge stays where it
    started, every flow is 0 and every unmet gap is the net demand itself.
  */
  lemma {:induction false} ZeroPowerFleetIsInert(b: Battery, initialMwh: real, nd: seq<real>)
    requires b.powerMw == 0.0 && b.efficiency > 0.0 && 0.0 <= initialMwh <= b.maxEnergyMwh
    ensures forall i :: 0 <= i < |nd| ==>
      Simulate(b, initialMwh, nd)[i] == Step(initialMwh, 0.0)
    decreases |nd|
  {
    if nd != [] {
      var n := |nd|;
      ZeroPowerFleetIsInert(b, initialMwh, nd[..n - 1]);
      var prev := Simulate(b, initialMwh, nd[..n - 1]);
      assert StorageAfter(initialMwh, prev) == initialMwh;
    }
  }

  /**
    The energy that reaches storage in one row, read back from the reported
    flow: a charge row stores its grid draw times 0.5 times the efficiency,
    a discharge row removes its flow times 0.5 with no loss.
  */
  function StoredEnergy(nd: real, outputMw: real, efficiency: real): real
  {
    if nd < 0.0 then -outputMw * PeriodHours * efficiency else -outputMw * PeriodHours
  }

  /** The sum of StoredEnergy over the first |steps| rows. */
  function TotalStoredEnergy(nd: seq<real>, steps: seq<Step>, efficiency: real): real
    requires |steps| <= |nd|
  {
    if steps == [] then 0.0
    else
      var n := |steps|;
      TotalStoredEnergy(nd, steps[..n - 1], efficiency) + StoredEnergy(nd[n - 1], steps[n - 1].outputMw, efficiency)
  }

  /** The energy read back from a step's flow is the change in the state of charge it made. */
  lemma FlowReadsBackStoredEnergy(b: Battery, soc: real, nd: real)
    requires b.efficiency != 0.0
    ensures var s := DispatchStep(b, soc, nd);
      StoredEnergy(nd, s.outputMw, b.efficiency) == s.storageMwh - soc
  {
    var s := DispatchStep(b, soc, nd);
    var stored := s.storageMwh - soc;
    var e := b.efficiency;
    if nd < 0.0 {
      assert s.outputMw == -(stored / (PeriodHours * e));
      assert (stored / (PeriodHours * e)) * (PeriodHours * e) == stored;
    }
  }

  /**
    Energy bookkeeping: the state of charge at the end of a replay is the
    initial state of charge plus the energy read back from every row's flow,
    with the efficiency loss on charge rows only.
  */
  lemma {:induction false} StorageLedger(b: Battery, initialMwh: real, nd: seq<real>)
    requires b.efficiency != 0.0
    ensures StorageAfter(initialMwh, Simulate(b, initialMwh, nd)) ==
      initialMwh + TotalStoredEnergy(nd, Simulate(b, initialMwh, nd), b.efficiency)
    decreases |nd|
  {
    if nd != [] {
      var n := |nd|;
      var prev := Simulate(b, initialMwh, nd[..n - 1]);
      var steps := Simulate(b, initialMwh, nd);
      StorageLedger(b, initialMwh, nd[..n - 1]);
      assert steps[..n - 1] == prev;
      TotalStoredEnergyPrefix(nd[..n - 1], nd, prev, b.efficiency);
      FlowReadsBackStoredEnergy(b, StorageAfter(initialMwh, prev), nd[n - 1]);
    }
  }

  /** TotalStoredEnergy only reads the rows its steps cover. */
  lemma {:induction false} TotalStoredEnergyPrefix(nd1: seq<real>, nd2: seq<real>, steps: seq<Step>, efficiency: real)
    requires |steps| <= |nd1| <= |nd2| && nd1 == nd2[..|nd1|]
    ensures TotalStoredEnergy(nd1, steps, efficiency) == TotalStoredEnergy(nd2, steps, efficiency)
    decreases |steps|
  {
    if steps != [] {
      TotalStoredEnergyPrefix(nd1, nd2, steps[..|steps| - 1], efficiency);
    }
  }

  /**
    The four-row scenario: power 10 MW, duration 1 h, efficiency 0.9,
    net demand [-20, -20, 30, 30]. The battery charges 4.5 MWh to 9.5,
    then only the 0.5 MWh of headroom to 10, then discharges 5 MWh twice
    to 5 and 0; flows are -10, -0.5/0.45, 10 and 10 MW.
  */
  lemma FourRowScenario()
    ensures var b := Fleet(10.0, 1.0, 0.9);
      Simulate(b, b.maxEnergyMwh * 0.5, [-20.0, -20.0, 30.0, 30.0]) ==
        [Step(9.5, -10.0), Step(10.0, -0.5 / 0.45), Step(5.0, 10.0), Step(0.0, 10.0)]
  {
    var b := Fleet(10.0, 1.0, 0.9);
    var nd := [-20.0, -20.0, 30.0, 30.0];
    assert nd[..3][..2] == [-20.0, -20.0] && nd[..3][..2][..1] == [-20.0] && nd[..3][..2][..1][..0] == [];
    assert Simulate(b, 5.0, [-20.0]) == [Step(9.5, -10.0)];
    assert Simulate(b, 5.0, [-20.0, -20.0]) == [Step(9.5, -10.0), Step(10.0, -0.5 / 0.45)];
    assert Simulate(b, 5.0, [-20.0, -20.0, 30.0]) == [Step(9.5, -10.0), Step(10.0, -0.5 / 0.45), Step(5.0, 10.0)];
  }

  /**
    The dashboard selects on the dispatched frame, but since dispatch keeps
    every input row and the selector reads only net demand, the selection is
    the one on the pre-dispatch frame.
  */
  lemma SelectionOnDispatchedFrame<R>(df: seq<R>, netDemand: R -> real, simulation: seq<DispatchRow<R>>, windowDays: int)
    requires windowDays >= 1 && |simulation| == |df|
    requires forall i :: 0 <= i < |df| ==> simulation[i].row == df[i]
    ensures SelectWindow(Column(simulation, (r: DispatchRow<R>) => netDemand(r.row)), windowDays * PeriodsPerDay)
         == SelectWindow(Column(df, netDemand), windowDays * PeriodsPerDay)
  {
    SelectionReadsOnlyNetDemand(simulation, (r: DispatchRow<R>) => netDemand(r.row), df, netDemand, windowDays);
  }
}
