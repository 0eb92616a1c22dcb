# Dunkelflaute stress test: window selector, battery dispatch and scenario builder

This project models, in Dafny, the core of a tool that stress-tests a 2030
British generation mix against the 2025 weather. The tool does three things:

- **Scenario builder** (`data_loader.dfy`, module `DataLoader`). It turns
  half-hourly historic records into a weather template. Each settlement
  period becomes a timestamp, and the embedded wind and solar generation
  become load factors clipped into [0, 1]. It then stretches the template's
  demand shape to the FES 2030 peak, after converting that peak's GW/MW
  unit. It builds wind, solar and nuclear generation from the CP30 High
  capacity targets. Net demand is demand minus that generation.
- **Window selector** (`gap_analysis.dfy`, module `GapAnalysis`). It clips
  net demand at zero and takes the trailing sum over windows of
  `windowDays * 48` half-hours; the first `W - 1` sums are undefined, as
  pandas leaves them NaN. It picks the first end row with the largest sum
  and returns the rows `[max(0, end - W), end)` of the frame together with
  that end row. When no window has any deficit, it falls back to the first
  `W` rows and reports row `W`.
- **Battery dispatch** (`gap_analysis.dfy`). It replays the series through
  one battery, starting half full. A surplus half-hour charges through the
  power limit, loses energy to the efficiency, and is capped at the
  headroom. A deficit half-hour discharges through the power limit, capped
  at the stored energy. Each row gets its state of charge, its grid-side
  battery flow and `unmet gap = net demand - flow`.

A data frame is a sequence of rows of any type `R` together with the
projection that reads its net-demand column. The selector and the dispatch
never read anything else. Positions in the sequence stand for the frame's
timestamp index. The dispatch is a method whose loop carries the state of
charge and appends to two lists, as the source's loop does. It is proved
equal to the specification function `Simulate`, and the battery's
properties are proved about `Simulate`. The selector and the builder are
functions. The module `Wrappers` holds the `Option` and `Result` types, and
`Settlement` (`settlement.dfy`) the constants of the half-hourly grid. The
selector's window defaults to five days, and the dispatch defaults to a
25000 MW, 4-hour fleet at efficiency 0.9, as in the source.

Behaviour of the code that the model keeps:

- The returned slice `[end - W, end)` is not the scored window
  `[end - W + 1, end]`. It leaves out the row whose trailing sum was
  maximal. Its length is `W - 1`, not `W`, when `end = W - 1`.
- The fallback reports `index[W]`, the row after the returned head. On a
  series of exactly `W` rows that label does not exist (an error).
- The dashboard hands the dispatched frame to the selector
  (`app.py:124`). The selection is still the one on the pre-dispatch net
  demand, because dispatch only adds columns.
- The code validates none of the battery parameters. The only demand made
  of callers is a non-zero efficiency, which is divided by. The physical
  conditions (non-negative power, positive duration, efficiency in (0, 1])
  appear only as hypotheses of the lemmas that need them.

## Model

| member | source | states |
|---|---|---|
| GapAnalysis.Deficit | src/gap_analysis.py:20 | clipping at zero gives a non-negative value, at least the input, equal to the input or to zero |
| GapAnalysis.DeficitSum | src/gap_analysis.py:20-21 | a sum of clipped net demand is never negative |
| GapAnalysis.DeficitSumSplit | src/gap_analysis.py:21 | a window sum splits at any point between its ends |
| GapAnalysis.RollingDeficit | src/gap_analysis.py:21 | the rolling column has one cell per row, defined exactly from row W - 1 on |
| GapAnalysis.RollingIsTrailingSum | src/gap_analysis.py:20-21 | the rolling value at row i (computed as a prefix-sum difference) is undefined for i < W - 1, and otherwise is the sum of the clipped values over rows [i - W + 1, i], which is never negative |
| GapAnalysis.RollingAllTrailingSums | src/gap_analysis.py:21 | every defined rolling value is the trailing window sum |
| GapAnalysis.FirstArgMax | src/gap_analysis.py:28 | idxmax returns an index in range whose value is at least every other value and strictly greater than every earlier one |
| GapAnalysis.SelectWindow | src/gap_analysis.py:15-33 | a successful selection has start <= end <= reported row < series length |
| GapAnalysis.SelectWindowSpec | src/gap_analysis.py:24-33 | the whole selection rule: an error on fewer than W rows; when no window has a deficit, the first W rows reported with row W, or an error when row W does not exist; otherwise the first end row of maximal score, the rows [max(0, end - W), end) and that end row as the label |
| GapAnalysis.FirstMaxIsUnique | src/gap_analysis.py:28 | there is only one earliest maximal end row, so the selection is deterministic |
| GapAnalysis.DominantWindowIsSelected | src/gap_analysis.py:28-33 | a window whose positive score beats every other is the one selected |
| GapAnalysis.SurplusSumIsZero | src/gap_analysis.py:20-21 | a window of surplus rows scores zero |
| GapAnalysis.AlwaysSurplusFallsBack | src/gap_analysis.py:24-26 | on an all-surplus series longer than W, the selector falls back to rows [0, W) with label W |
| GapAnalysis.ReturnedWindowIsShifted | src/gap_analysis.py:21-33 | the deficit inside the returned slice is the maximal score minus the end row's deficit, plus the deficit of row end - W when that row exists |
| GapAnalysis.IdentifyDunkelflauteWindow | src/gap_analysis.py:5-35 | with W = windowDays * 48, a returned end position is a row of the frame |
| GapAnalysis.DunkelflauteWindowShape | src/gap_analysis.py:15-35 | the status and shape of the result: it fails exactly on fewer than W rows, or exactly W rows with no deficit; the fallback is df[..W] with row W; otherwise the slice is df[max(0, e - W)..e] for the first maximal e. That slice is contiguous and in order, W rows long (W - 1 when e = W - 1), and never holds row e |
| GapAnalysis.SelectionReadsOnlyNetDemand | src/gap_analysis.py:20 | two frames whose net-demand columns agree get the same selection |
| GapAnalysis.SelectionOnDispatchedFrame | app.py:124 | selecting on the dispatched frame gives the selection on the original frame |
| GapAnalysis.Fleet | src/gap_analysis.py:51-52 | for a non-negative power and a positive duration, the half-full start lies within [0, power * duration] |
| GapAnalysis.Min | src/gap_analysis.py:66 | min is at most both arguments and is one of them |
| GapAnalysis.DispatchStep | src/gap_analysis.py:61-95 | one half-hour of the greedy rule: with non-negative power, a deficit row never charges and a surplus row (efficiency > 0, charge within capacity) never discharges; ChargeStepBounds and DischargeStepBounds state that it stores or delivers the smaller of the power-limited energy and the headroom or state of charge, and FlowReadsBackStoredEnergy how the flow reads back |
| GapAnalysis.DispatchInterval | src/gap_analysis.py:61-95 | one pass of the loop body gives exactly the state of charge and flow of the greedy rule DispatchStep |
| GapAnalysis.Simulate | src/gap_analysis.py:54-98 | the replay has one step per row |
| GapAnalysis.SimulatePrefix | src/gap_analysis.py:57-98 | replaying a prefix of the series gives the same prefix of the replay (the dispatch serves rows in order and never looks ahead) |
| GapAnalysis.SimulateAt | src/gap_analysis.py:52-98 | row i of the replay is the greedy step from the state of charge row i - 1 left, or from the initial state of charge for row 0 |
| GapAnalysis.SimulateFollowsDispatch | src/gap_analysis.py:57-98 | the replay applies the greedy rule to each row from the state of charge the earlier rows left |
| GapAnalysis.FollowersAgree | src/gap_analysis.py:57-98 | two step sequences that both follow one rule over the same rows agree on every prefix |
| GapAnalysis.FollowsDispatchIsSimulate | src/gap_analysis.py:57-98 | a step sequence follows the greedy rule row by row exactly when it is the replay |
| GapAnalysis.RunSimpleDispatch | src/gap_analysis.py:37-107 | the dispatched frame has one row per input row, in order; each carries its input row, the replay's state of charge and flow for a battery of capacity * duration MWh starting half full, and unmet gap = net demand - flow |
| GapAnalysis.ChargeStepBounds | src/gap_analysis.py:61-79 | on a surplus row: the energy stored is in [0, min(abs(nd), power) * 0.5 * efficiency] and within the headroom, and equals one of the two caps (the greedy rule stores all it can); the flow is -stored / 0.5 / efficiency and lies in [-min(abs(nd), power), 0]; the unmet gap lies in [nd, 0] |
| GapAnalysis.DischargeStepBounds | src/gap_analysis.py:81-95 | on a deficit row: the energy delivered is in [0, min(nd, power) * 0.5] and within the state of charge, and equals one of the two caps (the greedy rule delivers all it can); the flow is delivered / 0.5, with no efficiency loss, and lies in [0, min(nd, power)]; the unmet gap lies in [0, nd]; zero power gives zero flow |
| GapAnalysis.StepKeepsStorageInRange | src/gap_analysis.py:61-95 | one step keeps the state of charge within [0, capacity] |
| GapAnalysis.StorageStaysInRange | src/gap_analysis.py:57-98 | from a start within [0, capacity], every row's state of charge and the final one stay within [0, capacity] |
| GapAnalysis.FleetStorageInvariant | src/gap_analysis.py:51-52 | for power >= 0, duration > 0 and efficiency in (0, 1], the half-full start is within capacity, and every row's state of charge is within [0, power * duration] |
| GapAnalysis.UnmetGapBounds | src/gap_analysis.py:66-105 | over the whole replay, the flow and the unmet gap of each surplus row and each deficit row lie in those rows' bounds |
| GapAnalysis.ZeroPowerFleetIsInert | src/gap_analysis.py:86-95 | a fleet with no power keeps its initial state of charge and supplies zero flow on every row |
| GapAnalysis.FlowReadsBackStoredEnergy | src/gap_analysis.py:69-95 | the reported flow reads back exactly the energy change of its row: flow * 0.5 * efficiency on charge, flow * 0.5 on discharge |
| GapAnalysis.StorageLedger | src/gap_analysis.py:57-98 | the final state of charge is the initial one plus the energy read back from every row's flow |
| GapAnalysis.FourRowScenario | src/gap_analysis.py:48-105 | with power 10 MW, duration 1 h, efficiency 0.9 and net demand [-20, -20, 30, 30], the states of charge are [9.5, 10, 5, 0] and the flows are [-10, -0.5/0.45, 10, 10] |
| DataLoader.PeriodStart | src/data_loader.py:20-21 | date + (period - 1) * 30 minutes; periods 1 to 48 start within their date; its other properties are the five period lemmas below |
| DataLoader.FirstPeriodIsMidnight | src/data_loader.py:20-21 | settlement period 1 is the date's midnight |
| DataLoader.LastPeriodIsHalfPastEleven | src/data_loader.py:20-21 | settlement period 48 is 23:30 of that date |
| DataLoader.PeriodStartIsStrictlyIncreasing | src/data_loader.py:20-21 | within a date, a period's timestamp is earlier than another's exactly when its number is smaller |
| DataLoader.ConsecutivePeriodsAreHalfAnHourApart | src/data_loader.py:20-21 | consecutive periods are 30 minutes apart |
| DataLoader.PeriodsTileTheDay | src/data_loader.py:20-21 | periods 1 to 48 fall within their day, and period 48 plus 30 minutes is period 1 of the next day |
| DataLoader.Divide | src/data_loader.py:28 | the quotient column is NaN exactly when an operand is missing or both are zero |
| DataLoader.FillNaZero | src/data_loader.py:29 | filling leaves no NaN and changes no other cell |
| DataLoader.Clip01 | src/data_loader.py:29 | clipping lands in [0, 1], keeps values already there, and sends values below to 0 and values above to 1 |
| DataLoader.ClipCell | src/data_loader.py:29 | clip(0, 1) of one quotient cell: NaN stays missing and only NaN does; every other cell lands in [0, 1], +inf at 1, -inf at 0, and a finite value already in [0, 1] is kept |
| DataLoader.LoadFactor | src/data_loader.py:28-29 | a load factor is in [0, 1]; it is 0 when an operand is missing; with zero capacity it is 1 for positive generation and 0 otherwise; otherwise it is the ratio clipped into [0, 1] |
| DataLoader.LoadFactorWithinCapacity | src/data_loader.py:28-29 | generation within a positive capacity gives exactly generation / capacity |
| DataLoader.TemplateRow | src/data_loader.py:20-38 | a template row carries the national demand, the timestamp PeriodStart of its date and period, the wind load factor of the embedded wind columns and the solar load factor of the embedded solar columns, both in [0, 1] |
| DataLoader.WeatherTemplate | src/data_loader.py:14-41 | the template has one row per record, in file order, each built from its own record, with both load factors in [0, 1] |
| DataLoader.FesPeakMw | src/data_loader.py:67-73 | an MW value is kept, and any other unit, GW included, is multiplied by 1000 |
| DataLoader.WindCapacityMw | src/data_loader.py:92 | installed wind in MW is offshore plus onshore GW times 1000, non-negative for non-negative targets |
| DataLoader.SolarCapacityMw | src/data_loader.py:96 | installed solar in MW is the solar GW target times 1000, non-negative for a non-negative target |
| DataLoader.NuclearMw | src/data_loader.py:101 | nuclear in MW is the nuclear GW target times 1000, non-negative for a non-negative target |
| DataLoader.PeakDemand | src/data_loader.py:85 | the 2025 peak is at least every row's demand and is attained by some row |
| DataLoader.ScalingFactor | src/data_loader.py:85-86 | the factor target / peak2025, non-negative for a positive peak and a non-negative target; RowScaledBelowTarget and ScaledPeakIsAttained prove that it carries the peak row onto the target |
| DataLoader.ScenarioRowOf | src/data_loader.py:87-111 | a scenario row carries its template row; its wind generation is the wind load factor times the installed wind capacity, its solar generation the solar load factor times the installed solar capacity; and its net demand plus wind, solar and nuclear generation is its 2030 demand |
| DataLoader.Create2030Profile | src/data_loader.py:75-113 | the profile has one row per template row, in order and carrying that row; on every row wind generation is Wind_LF times the installed wind capacity and solar generation is Solar_LF times the installed solar capacity, and net demand plus the three generation columns is the 2030 demand |
| DataLoader.RowScaledBelowTarget | src/data_loader.py:85-87 | with a positive 2025 peak and a non-negative target, a row's scaled demand is at most the target, and equals it on a peak row |
| DataLoader.ScaledPeakIsTarget | src/data_loader.py:85-87 | the scaled demand never exceeds the target peak and equals it on every row of the 2025 peak |
| DataLoader.ScaledPeakIsAttained | src/data_loader.py:85-87 | some row of the scaled demand equals the target peak, so the maximum of the column is the target |
| DataLoader.RowKeepsShape | src/data_loader.py:85-87 | a row's scaled demand relates to the target as its 2025 demand relates to the 2025 peak |
| DataLoader.ScalingKeepsShape | src/data_loader.py:85-87 | every row keeps its share of the peak: demand2030 * peak2025 = demand2025 * target |
| DataLoader.RowGenerationWithinCapacity | src/data_loader.py:92-97 | with load factors in [0, 1] and non-negative targets, a row's wind lies in [0, wind capacity] and its solar in [0, solar capacity] |
| DataLoader.GenerationWithinCapacity | src/data_loader.py:92-97 | the same bounds hold on every row of the profile |
| DataLoader.NuclearIsFlat | src/data_loader.py:101-102 | the nuclear column is NuclearHigh * 1000 on every row |
| DataLoader.NetDemandBounds | src/data_loader.py:107-111 | net demand lies between the 2030 demand less all installed capacity and the 2030 demand less nuclear |
| DataLoader.TemplateProfileWithinCapacity | src/data_loader.py:28-33 | a profile built from a weather template meets the generation bounds for any non-negative targets |

## Left out

- `app.py` is not modelled beyond the selector call at line 124. Not modelled: the Streamlit controls, the cards and charts, the caching, the in-place patch of the global target table, and the presentation-only subtraction and clip of the mitigation.
- `src/plotting.py` is not modelled: it only builds figures.
- `optimize_data.py` and `convert_data.py` are not modelled. They are file conversion and float32 casting, and they repeat the load-factor arithmetic of `src/data_loader.py`.
- `src/cp30_targets.py` is a constant table. Its four High values used by the builder are the parameter `Cp30High`.
- File reading, `@st.cache_data` and the FES row lookup are not modelled. The lookup is the `str.contains` filter, the `ValueError` on no match, and the year-column read. `FesPeakMw` takes the selected value and unit.
- A data frame is modelled only as a sequence of rows. `.copy()` and non-mutation of the input hold by value semantics.
- Floating-point behaviour is not modelled: IEEE rounding, float32, and NaN or infinity propagating through arithmetic. All quantities are exact reals. The one place where the source relies on IEEE results is the load factor, whose `x / 0` and missing-cell cases are modelled explicitly.
- Timestamps are minute counts. The date parsing and `Timedelta` arithmetic of pandas are not modelled.
- The template's demand column is a plain number per record. A missing `ND` cell is not modelled.
- IdentifyDunkelflauteWindow: requires `windowDays >= 1`. pandas' behaviour for a non-positive window is not modelled.
- RunSimpleDispatch: requires a non-zero efficiency, because the charge branch divides by it (src/gap_analysis.py:79). At efficiency 0 the source has no single outcome, and none of the three below is modelled. A surplus row above the power limit makes `min` return the integer `battery_capacity_mw`, so the division is between Python floats and raises `ZeroDivisionError`. With numpy operands the same division gives NaN. A series with no surplus row never reaches the division and runs without error, yet the requires excludes it as well.
- Create2030Profile: requires a non-zero 2025 peak for a non-empty template. The source would divide by zero and fill the demand column with infinities or NaN. On an empty template the profile is empty, so the NaN peak of an empty column is never used.
- ScaledPeakIsTarget, ScaledPeakIsAttained, GenerationWithinCapacity, NetDemandBounds, FleetStorageInvariant, StorageStaysInRange and UnmetGapBounds: proved under physical hypotheses that the source never checks. The hypotheses are a positive 2025 peak, non-negative targets and load factors in [0, 1], or non-negative power, positive duration and efficiency in (0, 1].
- The selector works on exact reals: test `max == 0` and the ties in idxmax are exact comparisons. The rolling sum's floating-point drift is not modelled.
- The code validates none of the battery parameters: negative power, a non-positive duration or an efficiency outside (0, 1] run without error. The model follows the code.
- The slice is W - 1 rows long when the worst window ends at row W - 1 (`max(0, end - W)`, src/gap_analysis.py:30), and W rows otherwise.
- Positions in the row sequence stand for a unique timestamp index, on which `df.index.get_loc` (src/gap_analysis.py:29) returns one position. A file whose dates carry a period past 48, or repeat a period, would give duplicate timestamps; that case is not modelled.
