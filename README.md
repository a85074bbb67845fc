# Thermal-risk engine of the HPC hall MVP

This project models the server side of a data-centre hall dashboard. It covers:

- the telemetry generator, which lays out 24 racks in a 4 × 6 grid;
- the risk injection, which pushes the four lowest-margin racks into the 1.6–2.7 °C band below their thresholds;
- the hall-level indicators: overall headroom, the Fragile-or-Critical count, the Critical count and the stress rack;
- the setpoint simulator, which projects each rack's inlet temperature under a proposed setpoint increase, reclassifies the racks and raises three breach flags;
- the one mutable slot holding the current snapshot.

Modules, in dependency order:

- `Numeric`: the clamp, and rounding to one decimal.
- `Categories`: the four risk categories and the classifier.
- `Ordering`: a stable sort that yields positions. It models JavaScript's stable `Array.prototype.sort` on a shallow copy, whose elements still alias the original racks.
- `Hall`: the rack and snapshot entities.
- `Aggregator`: the hall indicators.
- `Generator`: snapshot generation. The in-place overwrite works on an `array<Rack>`.
- `Simulator`: `simulateChange`.
- `StateStore`: a class holding `currentState`, with the three request operations that read or replace it.

Temperatures are exact reals. `toFixed(1)` and `formatSetpoint` are both modelled as rounding half up to the nearest tenth (`Numeric.RoundTenth`). Every `Math.random` draw is a parameter (`Generator.Draws`), and `ValidDraws` states the range of each draw.

In three places the code behaves differently from what one might expect of it; the model follows the code:

- **Base-rack category.** A base rack's category and load band are computed from the unrounded draws, while the rack stores the rounded values. Its category therefore need not match a reclassification of its stored fields. `Generator.BaseRackCategoryFromUnrounded` exhibits such a rack. Category consistency is proved only for rewritten and projected racks.
- **Injected margin.** A rack rewritten by the risk injection ends with a margin in [1.6, 2.7]. The upper end is inclusive, because an offset just below 2.7 rounds to 2.7.
- **Worked example.** A rack at threshold 33.0 and inlet 29.0 (zone A, Nominal) might be expected to turn Fragile at delta 1.0. By the code it reaches inlet 29.8 and margin 3.2, which is still Tight and not changed. It first becomes Fragile at delta 2.0 (margin 2.5). `Simulator.WorkedExample` proves both.

## Model

| member | source | states |
|---|---|---|
| Numeric.Clamp | server.js:16-18 | result lies in [min, max] when min ≤ max; an in-range value is returned unchanged; a value at or below min gives min; a value at or above max gives max |
| Numeric.ClampMonotone | server.js:16-18 | clamping preserves order |
| Numeric.RoundTenth | server.js:24-26 | result is a whole number of tenths within 0.05 of the input (below by less than 0.05, above by at most 0.05) |
| Categories.Rank | server.js:8 | the rank is the first position of the category in the order Stable, Tight, Fragile, Critical |
| Categories.DetermineCategory | server.js:28-40 | Critical iff over threshold or margin < 1.8; Fragile-or-Critical iff over threshold or margin < 3.0; Stable iff not over threshold and margin ≥ 4.5 |
| Categories.MarginMonotone | server.js:28-40 | a smaller margin, with the inlet over its threshold whenever the other reading is, never yields a lower-ranked category |
| Ordering.StableSort | server.js:89 | the sorted copy lists every position exactly once, ordered by key with ties kept in original order |
| Ordering.PrefixComesFirst | server.js:89 | every position in the first m of the sorted copy sorts before every position left out of them |
| Aggregator.WorstRank | server.js:43-46 | the fold's result is the maximum rank: an upper bound attained by some rack, or 0 for no racks |
| Aggregator.OverallHeadroom | server.js:42-48 | no rack is worse than the headroom; an empty hall is Stable; otherwise the headroom is some rack's category; any Critical rack makes it Critical |
| Aggregator.CountFragileOrCritical | server.js:50-52 | count ≤ number of racks; zero iff no rack is Fragile or Critical; its exact value is stated by Aggregator.CountFragileOrCriticalExact |
| Aggregator.CountFragileOrCriticalExact | server.js:50-52 | the count equals the number of positions holding a Fragile or Critical rack |
| Aggregator.CountCritical | server.js:54-56 | count ≤ number of racks; zero iff no rack is Critical; its exact value is stated by Aggregator.CountCriticalExact |
| Aggregator.CountCriticalExact | server.js:54-56 | the count equals the number of positions holding a Critical rack |
| Aggregator.CriticalCountBounded | server.js:50-56 | Critical count ≤ Fragile-or-Critical count ≤ number of racks |
| Aggregator.CountFragileOrCriticalAtLeast | server.js:50-52 | any set of positions holding Fragile or Critical racks bounds the count from below |
| Aggregator.MarginOrder | server.js:89 | the margin-sorted copy lists every position exactly once, margins non-decreasing, equal margins in original order |
| Aggregator.FirstIsEarliestLeast | server.js:107 | the first position of the margin order holds the least margin, and every earlier position strictly more |
| Aggregator.StressIndex | server.js:107 | the stress position holds the least margin, and every rack before it has strictly more |
| Aggregator.StressRack | server.js:107 | the stress rack is one of the racks and no rack has less margin |
| Generator.DecimalString | server.js:72 | `String(col)`: one digit below 10, two digits from 10 to 99 |
| Generator.PadStart | server.js:72 | `padStart`: length is max(width, length), the input is a suffix, the prefix is fill characters |
| Generator.RackId | server.js:72 | no contract of its own: the template string; its form is stated by Generator.RackIdDigits |
| Generator.RackIdDigits | server.js:72 | below column 100 an id is 'R', the row letter and the two column digits |
| Generator.ZoneName | server.js:73 | the zone name ends in the row letter (what the zone weight reads) and has six characters |
| Generator.RackIdsDistinct | server.js:72 | distinct (row, column) slots give distinct ids |
| Generator.GridIdsUnique | server.js:59-83 | no two racks of a generated population share an id |
| Generator.LoadBandOf | server.js:69 | Peak iff the inlet exceeds 31.5; Nominal iff it is at most 29.0; Elevated otherwise |
| Generator.BaseRack | server.js:63-81 | no contract of its own: the pushed record; its stored values are stated by Generator.BaseRackFromDraws and its slot by Generator.BaseRackInSlot |
| Generator.BaseRackFromDraws | server.js:65-80 | threshold, drifted inlet and unrounded margin are each stored rounded to the nearest tenth (within 0.05); category and load band come from the unrounded values |
| Generator.BaseRackInSlot | server.js:63-81 | a base rack stores whole tenths and carries its slot's row, column, id and zone |
| Generator.BaseRackCategoryFromUnrounded | server.js:66-79 | a concrete base rack whose category, taken from the unrounded draws, differs from the classifier's verdict on its stored values |
| Generator.BaseRacks | server.js:58-86 | the first n racks of the row-major population number n |
| Generator.BaseRacksAt | server.js:63-83 | position i of the population is built from row i / 6, column i % 6 and the i-th pair of draws |
| Generator.BuildBaseRacks | server.js:58-86 | the nested loops produce exactly the row-major population, the i-th rack from the i-th draws |
| Generator.BaseRacksLaidOut | server.js:58-86 | the base population is the full grid in row-major order, stored in tenths |
| Generator.RiskRack | server.js:91-94 | the overwrite changes only inlet, margin and category; the new inlet is threshold − offset rounded to tenths; the new margin is threshold − new inlet rounded to tenths; the new category is the classifier's verdict on the stored values |
| Generator.RiskRackAtRisk | server.js:92-94 | with an offset in [1.6, 2.7) the rewritten rack is below its threshold with margin in [1.6, 2.7], hence Fragile or Critical |
| Generator.RiskRackMarginExact | server.js:92-93 | for a whole-tenths threshold the stored margin is exactly threshold − inlet |
| Generator.Injected | server.js:90-95 | the population keeps its length across the overwrites |
| Generator.InjectedRewritesPrefix | server.js:89-95 | each of the first n sorted racks is rewritten once, from its original value; every other rack is unchanged |
| Generator.RiskMomentOutcome | server.js:88-97 | the four racks first in margin order have no more margin than any other rack; they end in the risk band, Fragile or Critical; the rest are untouched; at least four racks are Fragile or Critical |
| Generator.EnforceRiskMoment | server.js:88-97 | the array afterwards is the population with the first four racks of its margin order rewritten, one offset each |
| Generator.InjectedRacksConsistent | server.js:88-97 | the injection keeps the grid layout and whole-tenths storage |
| Generator.BuildInitialState | server.js:99-125 | the snapshot holds the rounded setpoint in [21.0, 22.7] and the injected population; its headroom, counts and stress rack are those of that population; its delta range is 0–2 step 0.2; at least four racks are Fragile or Critical |
| Simulator.ZoneWeight | server.js:132 | weight in [0.06, 0.14]; 0.14 iff the zone ends in D; 0.10 iff it ends in C; 0.06 iff it ends in neither |
| Simulator.LoadWeight | server.js:133 | weight in [0.04, 0.20]; 0.20 iff Peak; 0.12 iff Elevated; 0.04 iff Nominal |
| Simulator.Coefficient | server.js:132-134 | the response coefficient k lies in [0.75, 0.99] |
| Simulator.ProjectedInlet | server.js:135-137 | the new inlet is whole tenths within 0.05 of inlet + k·delta |
| Simulator.ProjectedMargin | server.js:138 | the new margin is whole tenths within 0.05 of threshold − new inlet |
| Simulator.Project | server.js:130-149 | the projected rack keeps every field but inlet, margin and category; those are the projected values and the classifier's verdict on them; prevCategory is the base category; changed iff the category moved |
| Simulator.AnyOverThreshold | server.js:165 | true iff some rack's inlet exceeds its threshold |
| Simulator.AnyMarginBelow | server.js:166 | true iff some rack's margin is below the limit |
| Simulator.AffectedKeys | server.js:156-159 | one key is less than another exactly when its rack outranks the other (worse category, or same category and less margin); keys are equal exactly when the racks tie |
| Simulator.AffectedOrder | server.js:155-160 | the ranked copy lists every position once; each rack outranks or ties the next, ties in original order |
| Simulator.Summary | server.js:162 | no contract of its own: the `{id, category, prevCategory}` projection; Simulator.TopAffectedRanking states each entry is the summary of the rack at its sorted position |
| Simulator.TopAffected | server.js:155-162 | the ranking lists min(3, n) racks |
| Simulator.SimulateDelta | server.js:130-180 | for a clamped delta: each projected rack is the projection of the base rack at its position; headroom, both counts and topAffected are those of the projected racks; setpointDelta is the delta rounded to tenths, in [0, 2]; proposedSetpoint is current setpoint + delta rounded to tenths |
| Simulator.SimulateChange | server.js:127-181 | the request is clamped to [0, 2]; each projected rack is the projection of its base rack under the clamped delta; headroom, both counts and topAffected are those of the projected racks; setpointDelta and proposedSetpoint are the clamped delta and current setpoint + clamped delta rounded to tenths |
| Simulator.DeltaBelowRangeIsZero | server.js:128 | a requested delta ≤ 0 simulates exactly as 0 |
| Simulator.DeltaAboveRangeIsMax | server.js:128 | a requested delta ≥ 2 simulates exactly as 2 |
| Simulator.ProjectionPreservesRacks | server.js:130-149 | each projected rack is the base rack at the same position with only inlet, margin and category replaced; its category is the classifier's verdict on its stored values; prevCategory is the base category; changed iff they differ |
| Simulator.ProjectedInletNotBelowBase | server.js:135-137 | a non-negative delta never lowers a whole-tenths inlet |
| Simulator.ProjectionMonotone | server.js:134-138 | a larger delta gives an inlet no cooler and a margin no wider |
| Simulator.SimulationMonotone | server.js:128-138 | raising the requested delta never lowers a rack's projected inlet or raises its projected margin |
| Simulator.SimulationCategoryMonotone | server.js:128-139 | raising the requested delta never improves a rack's projected category |
| Simulator.SimulationCountsBounded | server.js:152-153 | projected Critical count ≤ projected Fragile-or-Critical count ≤ number of racks |
| Simulator.ProjectedMarginExact | server.js:137-138 | for a whole-tenths threshold the projected margin is exactly threshold − projected inlet |
| Simulator.TopAffectedRanking | server.js:155-162 | the ranking has min(3, n) entries; each summarises the projected rack at its sorted position; entries are in ranking order; no rack left out ranks above a listed one |
| Simulator.FlagsMeaning | server.js:164-168 | inlet flag iff some projected inlet exceeds its threshold; margin flag iff some projected margin < 1.8; cooling flag iff clamped delta > 1.6 and the Fragile-or-Critical count rose |
| Simulator.ClassifiedCriticalIff | server.js:164-166 | over classified racks, headroom is Critical iff some rack is over its threshold or below 1.8 margin |
| Simulator.CriticalIffBreached | server.js:151-166 | projected headroom is Critical iff the inlet flag or the margin flag is raised |
| Simulator.WorkedExample | server.js:132-147 | threshold 33.0, inlet 29.0, zone A, Nominal: k = 0.75; delta 1.0 gives 29.8 / 3.2 Tight, unchanged; delta 2.0 gives 30.5 / 2.5 Fragile, changed |
| StateStore.RequestedDelta | server.js:258 | the request's delta when present, 0 when absent |
| StateStore.StateStore.constructor | server.js:183 | the store starts with the consistent snapshot generated from the start-up draws: rounded setpoint and the injected population |
| StateStore.StateStore.State | server.js:240-243 | `GET /api/state` returns the current snapshot, which is consistent |
| StateStore.StateStore.Refresh | server.js:245-249 | `POST /api/refresh` replaces the snapshot with a freshly generated, consistent one and returns it |
| StateStore.StateStore.Simulate | server.js:251-261 | `POST /api/simulate` returns the simulation of the current snapshot for the request's delta (0 when absent) and changes nothing |

## Left out

- HTTP: routing, `sendJSON`, `parseRequestBody` (including the 1 MB cut-off and the 400 reply for bad JSON) and `serveStatic` are I/O. The store's operations stand in for the three API routes.
- Randomness: `Math.random` is replaced by caller-supplied draws. `simulatedInMs` is a random figure with no bearing on the result and is not modelled.
- `timestamp`, `site` and `source`: the clock and constant descriptive strings are not part of the snapshot model. Neither is `CATEGORY_COLORS`.
- Number conversion: `Number(setpointDelta)` on non-numeric input is not modelled; a request's delta is a real number or absent. In the JavaScript a delta such as "abc" becomes NaN, which `clamp` passes through: every comparison in `determineCategory` is then false, so every projected rack reads Stable, all three flags are false, and `setpointDelta` serialises as null, outside [0, 2].
- Floating point: arithmetic is exact, not IEEE-754. For example, `toFixed(1)` on a binary value just below a half may round differently. For a negative exact half, `toFixed` rounds away from zero where the model rounds up.
- Generator.EnforceRiskMoment: requires at least four racks. The JavaScript throws on fewer, and generation always supplies 24.
- public/app.js (the browser client) is not part of this model.
