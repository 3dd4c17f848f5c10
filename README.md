# Irrigation telemetry KPIs and rule-based recommendations

A Dafny model of the analytic core of an irrigation-monitoring dashboard.
The input is a time-ordered series of hourly observations: water-sheet
depth, pumped flow, energy, rainfall and a pump on/off flag. From it the
dashboard computes two things:

- a KPI snapshot for the selected period: total energy, total volume,
  mean depth, energy efficiency (kWh per m³), pump-on hours, and the rain
  of the trailing 24 hours;
- a recommendation: four threshold rules, evaluated in a fixed order over
  trailing 6-hour and 24-hour windows and a historical pump-on baseline.
  They produce a severity and a list of messages.

Modules, one per component of `app.py`:

- `Telemetry` (telemetry.dfy): the observation record and the column
  operations. These are sums, the mean, the latest timestamp, the
  "rows at or after a cut-off" filter behind every trailing window, and
  the pump-on selection. It also holds the lemmas about those operations:
  windows of a sorted series are suffixes, nested windows compose, and
  filtered sums are bounded.
- `Kpis` (kpis.dfy): the KPI snapshot (`kpis_basicos`).
- `Recommender` (recommender.dfy): the rule inputs, the rule cascade as
  the imperative method `ApplyRules`, and the specification it is proved
  against. The specification is `MessagesFrom`/`LevelFrom`: running rules
  k..3, each fired rule appends its message and overwrites the severity.
  The lemmas about the specification cover the message count, order and
  membership, and the final severity.
- `Dashboard` (dashboard.dfy): the period selector and one dashboard
  refresh. Both the KPIs and the recommender are fed the period view.

Representation choices:

- Timestamps are whole hours (`int`). Three days is 72 hours and seven
  days is 168.
- Measurements are `real`. The source's thresholds are written exactly:
  10 mm, 9.5 cm, 6.0 cm and a factor of 1.15.
- A message is a tag carrying the values it cites, not formatted text.
- Series are immutable sequences, so no operation can change its input.
  Every computation is a function of its argument, so it is
  deterministic.

The model follows the code in three places where the behaviour may be
unexpected:

- **Severity is overwritten, not raised.** Each firing rule reassigns the
  level (app.py:148, 153, 158, 168). Low depth together with an
  efficiency breach therefore ends in `warning`, not `error`
  (`LowDepthThenEfficiencyIsWarning`). `error` results exactly when the
  low-depth rule fires and the efficiency rule does not
  (`LevelIsLastFired`).
- **The baseline division is unguarded.** app.py:138-139 checks only
  that there are more than 10 pump-on rows. A zero pump-on volume is kept
  as its own case, `ZeroPumpVolume`, and the efficiency rule never fires
  on it. The source here divides floats and gets inf (or NaN for 0/0).
  With non-negative energy, the strict `>` comparison at app.py:162 is
  then false, so in the source the rule does not fire either.
- **The recommender is fed the UI-filtered series** (app.py:232), not
  the full history. `ViewKeepsRecentFeatures` shows that the filter does
  not change the 24 h rain, the last row's depth or the 6 h efficiency,
  because every period is at least a day long. The baseline, however, is
  taken over the view's pump-on rows only.

## Model

| member | source | states |
|---|---|---|
| `Telemetry.Total` | app.py:92-93 | the column sum: 0 for no rows, else the first row's value plus the sum of the rest (definition; also the `.sum()` calls at 102, 127, 131-132 and 139) |
| `Telemetry.Mean` | app.py:94 | the mean of a non-empty column times the row count gives the column sum |
| `Telemetry.Ratio` | app.py:96-98 | the efficiency is present exactly when the volume is positive, and then efficiency × volume = energy |
| `Telemetry.MaxTime` | app.py:121 | the latest timestamp is at least every row's timestamp and is the timestamp of some row |
| `Telemetry.Window` | app.py:124-125 | the trailing-window filter keeps at most the rows it is given |
| `Telemetry.Trailing` | app.py:121-125 | the rows at or after the latest timestamp minus the given hours; at most the rows it is given |
| `Telemetry.PumpHours` | app.py:100 | the number of pump-on rows, at most the row count |
| `Telemetry.PumpRows` | app.py:136 | a row is selected exactly when it is in the series and has the pump on |
| `Telemetry.WindowMembers` | app.py:124-125 | a row is in the window exactly when it is in the series and its timestamp is at or after the cut-off |
| `Telemetry.WindowIsSuffix` | app.py:124-125 | on a sorted series the window is the suffix `s[k..]`; every row before k is earlier than the cut-off and every row from k on is not |
| `Telemetry.WindowOfWindow` | app.py:124-125 | filtering with an earlier cut-off and then a later one equals filtering with the later one |
| `Telemetry.WindowKeepsMaxTime` | app.py:121-125 | a window whose cut-off is at or before the latest timestamp is non-empty and has the same latest timestamp |
| `Telemetry.TrailingKeepsLatest` | app.py:124-128 | on a sorted series a trailing window of non-negative length is a non-empty suffix ending in the last row |
| `Telemetry.SixHoursWithinDay` | app.py:124-125 | on a sorted series the 6 h window is a suffix of the 24 h window, and both are non-empty and end in the last row |
| `Telemetry.SortedMaxIsLast` | app.py:121-128 | on a sorted series the latest timestamp (`max`) is the last row's (`iloc[-1]`) |
| `Telemetry.TotalAppend` | app.py:92-93 | a column sum over a concatenation is the sum of the two sums |
| `Telemetry.TotalBounds` | app.py:94 | values within [lo, hi] give a sum within [lo·n, hi·n] |
| `Telemetry.MeanBounds` | app.py:94 | the mean of a column lies within any bounds its values respect |
| `Telemetry.WindowTotalBounds` | app.py:102 | for a non-negative column, a window's sum is between 0 and the full sum |
| `Telemetry.TotalAtLeastLast` | app.py:102 | a non-negative column sums to at least its last value |
| `Telemetry.SortedSuffix` | app.py:124-125 | a suffix of a sorted series is sorted |
| `Telemetry.PumpRowsCount` | app.py:100-136 | the number of pump-on rows selected equals the pump-hours count, which is at most the row count |
| `Kpis.Summarize` | app.py:90-111 | efficiency is present exactly when total volume > 0 and then times volume gives energy; pump hours equal the number of pump-on rows and are at most the row count |
| `Kpis.RainWithinTotal` | app.py:102 | with non-negative rain, the trailing-day rain is between 0 and the period's total rain |
| `Kpis.RainOfLastDay` | app.py:102 | on a sorted series the trailing-day rain is the rain of a non-empty suffix holding exactly the rows within 24 h of the last one |
| `Kpis.RainSplitsAtDay` | app.py:102 | on a sorted series the period's rain is the rain of the rows older than the trailing day plus the trailing-day rain |
| `Kpis.RainIncludesLastHour` | app.py:102 | on a sorted series with non-negative rain the trailing-day rain is at least the last row's rain |
| `Kpis.MeanDepthWithin` | app.py:94 | the mean depth lies within any bounds the depth readings respect |
| `Recommender.BaselineOf` | app.py:136-139 | a baseline exists exactly when more than 10 rows have the pump on; it is the zero-volume case exactly when, in addition, their volume sum is 0; otherwise baseline × volume = energy over the pump-on rows |
| `Recommender.FeaturesOf` | app.py:121-139 | the 6 h efficiency is present exactly when the 6 h volume is positive, and then times that volume gives the 6 h energy |
| `Recommender.Fires` | app.py:146-162 | the four rule conditions: 24 h rain ≥ 10, current depth ≥ 9.5, current depth ≤ 6.0, and recent efficiency > baseline × 1.15 with both present (definition) |
| `Recommender.LevelOf` | app.py:148-168 | the severity a firing rule assigns: error for low depth, warning for the other three (definition) |
| `Recommender.MessagesFrom` | app.py:141-168 | the messages the rules from position k on append: each firing rule's message, in evaluation order (definition) |
| `Recommender.LevelFrom` | app.py:142-168 | the severity after the rules from position k on: each firing rule overwrites it with its own level (definition) |
| `Recommender.Messages` | app.py:141-172 | the messages of the fired rules, or the single fallback when none fired (definition) |
| `Recommender.Level` | app.py:142-172 | the level left by the last fired rule starting from info, or success when none fired (definition) |
| `Recommender.MessageOf` | app.py:146-168 | each rule's message is tagged with that rule's position in the evaluation order |
| `Recommender.RuleAt` | app.py:146-168 | the rule at position k of the evaluation order has order k |
| `Recommender.ApplyRules` | app.py:141-174 | the cascade of appends and severity overwrites returns exactly `Level(f)` and `Messages(f)` |
| `Recommender.Recommend` | app.py:114-174 | the recommender returns the severity and messages of the cascade over the series' rule inputs |
| `Recommender.LevelSteps` | app.py:142-168 | the severity after the four rules is info overwritten by each firing rule in turn |
| `Recommender.MessagesSteps` | app.py:141-168 | the message list is the four rules' contributions appended in evaluation order |
| `Recommender.FiredFromExactly` | app.py:146-168 | from position k on, a rule is among the fired ones exactly when its condition holds and its order is at least k; fired rules come in strictly increasing order |
| `Recommender.FiredExactly` | app.py:146-168 | a rule is among the fired ones exactly when its threshold condition holds; fired rules come in evaluation order |
| `Recommender.FiredEmptyIff` | app.py:146-170 | no rule fired exactly when none of the four conditions holds |
| `Recommender.MessagesFromCount` | app.py:146-168 | the rules from position k on append one message per fired rule |
| `Recommender.MessagesFromOrdered` | app.py:146-168 | messages from position k on cite rules at or after k, in strictly increasing rule order |
| `Recommender.MessagesFromExactly` | app.py:146-168 | from position k on, each fired rule's message is present and each present message's rule fired |
| `Recommender.MessagesCount` | app.py:141-172 | the message list is never empty: one message per fired rule, or exactly one when none fired |
| `Recommender.FallbackExactlyWhenNoneFired` | app.py:170-172 | the "within norms" message appears exactly when no rule fired, and is then the only message |
| `Recommender.FiredRuleHasMessage` | app.py:146-168 | every fired rule's message, with the values it cites, is in the list |
| `Recommender.MessageOnlyWhenFired` | app.py:146-168 | every rule message in the list comes from a rule that fired |
| `Recommender.MessagesInRuleOrder` | app.py:146-168 | messages appear in rule order: rain, high depth, low depth, efficiency |
| `Recommender.MessagesUnfolded` | app.py:146-168 | the rule messages are the four conditional appends in source order |
| `Recommender.LevelUnfolded` | app.py:142-168 | starting from info, the efficiency rule decides if it fires, else the low-depth rule, else rain or high depth, else info stays |
| `Recommender.LevelIsLastFired` | app.py:142-172 | the severity is never info; it is success exactly when no rule fired; error exactly when the low-depth rule fired and the efficiency rule did not; warning exactly when rule 1, 2 or 4 fired and that error case does not hold |
| `Recommender.DepthRulesExclusive` | app.py:151-158 | the high-depth (≥ 9.5) and low-depth (≤ 6.0) rules never fire together, and their messages never appear together |
| `Recommender.LowDepthThenEfficiencyIsWarning` | app.py:156-168 | low depth with an efficiency breach ends with the low-depth then the efficiency message, and the severity is warning |
| `Recommender.RainAndHighDepth` | app.py:146-153 | rain and high depth without an efficiency breach give exactly those two messages and a warning |
| `Recommender.RainOnly` | app.py:146-153 | heavy rain with depth strictly between 6.0 and 9.5 and no efficiency breach gives only the rain message and a warning |
| `Recommender.NoBaselineNoEfficiencyRule` | app.py:137-169 | ten or fewer pump-on rows give no baseline, so the efficiency rule cannot fire |
| `Dashboard.PeriodHours` | app.py:208-213 | every bounded period is at least 24 hours long |
| `Dashboard.PeriodView` | app.py:208-215 | the period view is non-empty and has the same latest timestamp as the series |
| `Dashboard.PeriodViewIsSuffix` | app.py:208-215 | on a sorted series the view is a suffix; "everything" is the whole series, and otherwise exactly the rows before the cut-off are dropped |
| `Dashboard.ViewKeepsTrailing` | app.py:124-125 | trailing windows of up to 24 h are the same on the period view as on the full series |
| `Dashboard.ViewKeepsLastRow` | app.py:208-215 | on a sorted series the period view ends with the series' last row |
| `Dashboard.ViewKeepsRecentFeatures` | app.py:232 | on a sorted series the recommender's 24 h rain, current depth and 6 h efficiency are the same on the view as on the full series |
| `Dashboard.Refresh` | app.py:222-232 | one refresh computes the KPI snapshot and the recommendation, both on the period view; on a sorted series the recommendation's 24 h rain, current depth and 6 h efficiency are the full series' and only the baseline comes from the view |

## Left out

- The Streamlit page, sidebar, charts, tables and severity-to-widget
  dispatch (app.py:11-20, 177-310, except the period filter and the two
  calls at 223 and 232): presentation only.
- `carregar_dados` (app.py:72-87): file I/O and CSV/date parsing. The
  model takes the series it produces as given. Where a property needs the
  series sorted or non-empty, it says so in its `requires`.
- `gerar_dados_exemplo` (app.py:28-69): random numbers, the wall clock
  and float clipping.
- Message text and its decimal formatting (app.py:147, 152, 157,
  163-166, 171): each message is a tag plus the values it cites.
- IEEE floating point: sums and quotients are exact reals. The inf/NaN
  produced by the unguarded baseline division is the explicit
  `ZeroPumpVolume` case, on which the efficiency rule never fires. Pump-on
  energy is assumed non-negative, which is the data's domain. With a
  negative pump-on energy sum over zero volume, the source's baseline
  would be -inf and the rule would fire; the model does not capture that.
- `PumpHours`: the pump flag is a boolean and pump hours are the number
  of rows with it set. The source sums a 0/1 integer column, which gives
  the same count for 0/1 values only.
- `Summarize`: requires a non-empty series. Every view the dashboard
  passes contains the latest row, and the mean of an empty frame (NaN in
  the source) is not modelled.
