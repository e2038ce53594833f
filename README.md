# Token-vesting schedule generator

A model of the schedule calculator of the `cosmos-tools` vesting generator.
Given a total amount, a vesting duration, an interval and a cliff, the
generator cuts the vesting curve into an ordered list of periods, each giving
the time elapsed since the start (`length`) and the tokens released at that
time (`amount`, with a denomination).

The vesting curve is the same in both commands (each source file defines it,
and so does the model; `Variants.CurvesAgree` shows the two are equal):
nothing before the cliff, the whole total from the end of the duration on,
and in between the linear share of the total rounded down. Two commands cut
it into periods:

- `vesting generate-cliff` (`GenerateCliff`, `generate_cliff.dfy`) emits one
  record per interval boundary strictly after the cliff, up to the last whole
  interval. The first record releases everything vested so far. The
  denomination comes from the configuration, which `--denom` overrides.
- the older `generate` (`Generate`, `generate.dfy`) visits every boundary from
  the first one. It leaves out the boundaries whose release is zero, and
  labels every record "uknow".

Layout:

- `records.dfy` (`Records`): the `Token` and `Period` records, `Option`, the
  sum of a schedule's amounts, and the chronological-order predicate.
- `linear_share.dfy` (`LinearShare`): the truncated linear share and the
  division facts the proofs need.
- `generate_cliff.dfy`, `generate.dfy`: one module per command.
  `BuildPeriods` is the source's loop, carrying the amount vested at the
  previous boundary. Its `ensures` equates the result with a closed-form
  reference schedule. The listed properties are proved about that schedule.
- `variants.dfy` (`Variants`): how the two commands relate.

Inputs are unbounded naturals. `interval > 0` is required wherever the source
divides by it (the source would panic on zero). No other precondition is
imposed: a cliff later than the duration, a zero duration and a zero total are
all modelled.

Where the intended behaviour and the code differ, the model follows the code:

- The intended invariant is that the amounts add up to the total whenever the
  duration is a whole number of intervals. In the code this also needs the
  cliff to end strictly before the duration (`generate-cliff`), or no later
  than it with a positive duration (`generate`). The lemmas carry those
  conditions.
- The older command is meant to skip zero releases only before the cliff. On
  the exact curve of this model that is guaranteed when one interval is worth
  at least one token (`duration <= total * interval`;
  `Generate.ScheduleSkipsOnlyBeforeCliff` carries the condition). With a
  smaller total, zero-release boundaries after the cliff can be skipped too:
  total 3, interval 1, duration 4 and no cliff give the schedule
  (2, 1), (3, 1), (4, 1), leaving out boundary 1
  (`Generate.SmallTotalSkipsAfterCliff`). With the source's floating-point
  share even that condition is not enough (see "## Left out").
- The configuration schema names its section `vesting`, but `generate-cliff`
  reads `config.generator.denom`. The model follows the command (`generator`).

## Model

| member | source | states |
|---|---|---|
| GenerateCliff.VestedCoin | src/commands/vesting/generate_cliff.rs:34-44 | the vested amount never exceeds the total; it is 0 at any time before the cliff; it is the whole total at any time at or after both the cliff and the end of the duration |
| GenerateCliff.VestedCoinIsFloor | src/commands/vesting/generate_cliff.rs:38-42 | between the cliff and the end of the duration the vested amount is the linear share rounded down: `r * duration <= total * time < (r + 1) * duration` |
| GenerateCliff.VestedCoinMonotone | src/commands/vesting/generate_cliff.rs:34-44 | the curve is non-decreasing in time, so `vested - last_vested` cannot underflow on the exact curve (see "## Left out" for the `f64` case) |
| GenerateCliff.VestedCoinUnitTests | src/commands/vesting/generate_cliff.rs:125-165 | 54 after one day without a cliff; 0 after one day under a 15768000 s cliff; 10027 at 15811200 s |
| GenerateCliff.PeriodAtValue | src/commands/vesting/generate_cliff.rs:51-64 | record k sits at `interval * (start + k)` and releases the vested amount there minus the amount vested at the previous record (minus 0 for the first record) |
| GenerateCliff.BuildPeriods | src/commands/vesting/generate_cliff.rs:46-67 | the loop over `start..=periods` with its carried `last_vested` returns exactly the reference schedule, labelled with the configured denomination |
| GenerateCliff.BoundariesShape | src/commands/vesting/generate_cliff.rs:47-61 | records from a start boundary lie on interval boundaries, from that boundary up to the end of the duration, strictly increasing, all in the given denomination |
| GenerateCliff.ScheduleShape | src/commands/vesting/generate_cliff.rs:47-61 | exactly `duration/interval - cliff/interval` records (0 if negative); each on an interval boundary, strictly after the cliff, no later than the end of the duration; chronological; carrying the configured denomination unchanged |
| GenerateCliff.BoundariesTotal | src/commands/vesting/generate_cliff.rs:48-56 | the releases telescope to the vested amount at the last record's time (0 for an empty schedule), so they never add up to more than the total |
| GenerateCliff.ScheduleConserves | src/commands/vesting/generate_cliff.rs:46-67 | when the duration is a whole number of intervals and the cliff ends before it, the releases add up to exactly the total |
| GenerateCliff.BuildPeriodsUnitTests | src/commands/vesting/generate_cliff.rs:167-229 | two years of daily periods: 730 records without a cliff and 548 under the 15768000 s cliff, each adding up to 40000 |
| GenerateCliff.OverrideConfig | src/commands/vesting/generate_cliff.rs:108-117 | with `--denom` the configured denomination becomes the flag's value; without it the configuration is returned unchanged |
| GenerateCliff.OverriddenDenomLabelsEveryPeriod | src/commands/vesting/generate_cliff.rs:58-64 | after the override every record carries the flag's denomination when given and the configured one otherwise |
| GenerateCliff.SinglePeriodAcceptance | tests/acceptance.rs:42-133 | 40000 over one 1000 s interval is the single record (1000, 40000), labelled "uknow" by default, "stake" or "tata" by the flag, and "toto" when the configuration sets it |
| GenerateCliff.CliffOnLastBoundaryReleasesNothing | src/commands/vesting/generate_cliff.rs:47-51 | with total 40000, interval 1000, duration 1000 and cliff 1000, the curve has 40000 vested at 1000 yet the schedule is empty |
| GenerateCliff.CorrectedScheduleConserves | src/commands/vesting/generate_cliff.rs:49 | starting at the first boundary at or after the cliff, every record is at or after the cliff, the boundary before the start is before the cliff, and the releases add up to the total whenever the duration is a positive whole number of intervals and the cliff is no later than its end |
| GenerateCliff.ScheduleIsCorrectedOffTheBoundary | src/commands/vesting/generate_cliff.rs:49 | with no cliff, or a cliff that is not a whole number of intervals, the command's schedule equals the corrected one |
| GenerateCliff.ScheduleDefersTheCliffRelease | src/commands/vesting/generate_cliff.rs:49-56 | on a cliff that is a whole number of intervals before the last boundary, the command skips the record at the cliff and adds its release to the next record; all later records agree |
| Generate.VestedCoin | src/commands/generate.rs:34-43 | the vested amount never exceeds the total; it is 0 before the cliff; it is the whole total at any time at or after both the cliff and the end of the duration |
| Generate.VestedCoinIsFloor | src/commands/generate.rs:40-42 | between the cliff and the end of the duration the vested amount is the linear share rounded down |
| Generate.VestedCoinMonotone | src/commands/generate.rs:34-43 | the curve is non-decreasing in time, so `vested - last_vested` cannot underflow on the exact curve (see "## Left out" for the `f64` case) |
| Generate.VestedAtStart | src/commands/generate.rs:34-43 | nothing has vested at time 0 when the duration is positive, so the initial `last_vested = 0` is the vested amount at the start |
| Generate.VestedCoinUnitTests | src/commands/generate.rs:112-150 | 54 after one day without a cliff; 0 after one day under a 15768000 s cliff; 10027 at 15811200 s |
| Generate.BoundaryStep | src/commands/generate.rs:50-54 | at boundary i the release is the vested amount there minus the vested amount at boundary i-1 (0 for the first boundary), and never negative |
| Generate.DropZero | src/commands/generate.rs:58-60 | filtering keeps no more records than it is given, every kept record releases a positive amount, and the sum of the amounts is unchanged |
| Generate.DropZeroMembers | src/commands/generate.rs:58-70 | a record is kept exactly when it was visited and releases a positive amount |
| Generate.DropZeroChronological | src/commands/generate.rs:58-70 | skipping records keeps the remaining ones in chronological order |
| Generate.BuildPeriods | src/commands/generate.rs:45-75 | the loop over `1..periods+1`, which skips zero releases and updates `last_vested` only when it emits, returns exactly the non-zero boundary releases in order; its invariant says the carried amount is always the vested amount at the last boundary visited |
| Generate.IncrementsShape | src/commands/generate.rs:50-51 | the visited boundaries are multiples of the interval, positive, no later than the end of the duration, strictly increasing and labelled "uknow" |
| Generate.ScheduleShape | src/commands/generate.rs:46-72 | at most `duration/interval` records, each releasing a positive amount of "uknow" at an interval boundary no later than the end of the duration, in chronological order |
| Generate.IncrementsPrefixTotal | src/commands/generate.rs:49-71 | the releases of the first m boundaries telescope to the vested amount at boundary m |
| Generate.ScheduleTotal | src/commands/generate.rs:49-71 | the emitted releases add up to the vested amount at the last whole interval (0 when there is none), so never more than the total |
| Generate.ScheduleConserves | src/commands/generate.rs:45-75 | when the duration is a positive whole number of intervals and the cliff is no later than its end, the releases add up to exactly the total |
| Generate.IncrementZeroIff | src/commands/generate.rs:54-60 | when one interval is worth at least one token, a boundary releases nothing exactly when it falls before the cliff |
| Generate.ScheduleSkipsOnlyBeforeCliff | src/commands/generate.rs:50-60 | under the same condition the schedule is every boundary from the first at or after the cliff, so it has `duration/interval` minus the number of pre-cliff boundaries records |
| Generate.SmallTotalSkipsAfterCliff | src/commands/generate.rs:50-60 | below one token per interval the condition above is needed: total 3, interval 1, duration 4, no cliff gives (2, 1), (3, 1), (4, 1), leaving out boundary 1, which is after the cliff |
| Generate.BuildPeriodsUnitTests | src/commands/generate.rs:152-204 | two years of daily periods: 730 records without a cliff and 548 under the 15768000 s cliff, each adding up to 40000 |
| Variants.CurvesAgree | src/commands/generate.rs:34-43 | the older command's curve is the cliff command's curve |
| Variants.ZeroSkippingIsCorrectedCliffSchedule | src/commands/generate.rs:45-75 | when one interval is worth at least one token, the older command's schedule equals the cliff command's corrected schedule in "uknow" |

## Findings

| source | as written | input that shows it | evidently intended | confidence | as-written member | corrected member |
|---|---|---|---|---|---|---|
| src/commands/vesting/generate_cliff.rs:49 | `start = cliff / interval + 1` skips the boundary that falls exactly on the cliff; when that is the last whole interval, nothing is ever released | total 40000, interval 1000, duration 1000, cliff 1000: the schedule is empty although the curve has all 40000 vested at 1000 | start at the first boundary at or after the cliff, so the whole total is released (as the older `generate` does) | medium, not executed | GenerateCliff.CliffOnLastBoundaryReleasesNothing | GenerateCliff.CorrectedScheduleConserves |

`GenerateCliff.BuildPeriods` still models the code as written; `GenerateCliff.CorrectedSchedule` is the corrected definition.
`GenerateCliff.ScheduleIsCorrectedOffTheBoundary` shows that the two agree except when the cliff is a positive whole number of intervals.
`GenerateCliff.ScheduleDefersTheCliffRelease` shows what the written code does in that case.

## Left out

- GenerateCliff.VestedCoin: the source computes the linear share in `f64` (`time as f64 / duration as f64`, times the total, truncated to `u128`). The model uses exact floor division. The two agree on every value the tests pin, but the floating-point share can fall one unit below the exact floor at any size: total 55, duration 11, time 3 gives `55.0 * (3.0 / 11.0) = 14.999999999999998`, truncated to 14, where the floor is 15. Individual releases can therefore differ from the model's (for total 55, interval 1, duration 11, no cliff, the source releases 5, 5, 4, 6, 5, 4, 6, … where the model releases 5 each time). While the duration and the total are below 2^53 (so every operand converts to `f64` exactly), conservation and monotonicity are not affected: the floating-point share then stays below the total, at the end of the duration the source returns exactly the total, and IEEE division, multiplication by a non-negative number and truncation are each monotone. Beyond 2^53 that no longer holds (see the underflow below).
- Generate.VestedCoin: the same `f64` abstraction as above. In `generate` it also changes which boundaries are skipped: for total 22, interval 1, duration 22, no cliff, `22.0 * (15.0 / 22.0)` truncates to 14, so boundary 15 releases zero and is left out, although one interval is worth a whole token.
- Generate.IncrementZeroIff: holds for the exact curve only; with the source's floating-point share a boundary after the cliff can release zero even when `duration <= total * interval`.
- Generate.ScheduleSkipsOnlyBeforeCliff: holds for the exact curve only, for the same reason; on the floating-point curve the source's schedule can be shorter.
- Variants.ZeroSkippingIsCorrectedCliffSchedule: holds for the exact curve only, for the same reason; the records of the two commands still agree boundary by boundary on the floating-point curve, but the older command can drop a zero record after the cliff that the cliff command keeps.
- Integer widths: amounts are `u128` and times are `u64` in the source. The model uses unbounded naturals. `interval * period` never exceeds the duration, so it cannot overflow. The `periods + 1` of `generate.rs:50` and the `cliff / interval + 1` of `generate_cliff.rs:49` overflow only at the `u64` maximum. That case is not modelled. The `u128` subtraction `vested - last_vested` cannot underflow on the exact curve; the `f64` case is the next entry.
- GenerateCliff.VestedCoinMonotone: holds for the exact curve only. In the source the `f64` share can exceed the total once times reach 2^53 s: `time as f64` can round up to `duration as f64` while `time < duration`, making the coefficient 1.0, and a total that is not representable rounds up. For total 2^54 - 1, duration 2^60, interval 64, cliff 2^60 - 128, `generate-cliff` finds 2^54 vested at 2^60 - 64 and 2^54 - 1 at 2^60, so the `u128` subtraction `vested - last_vested` at `generate_cliff.rs:55` underflows (a panic in a debug build, a wrap-around in a release build) and the emitted amounts do not add up to the total. The model's curve never decreases, so it does not capture this underflow.
- Generate.VestedCoinMonotone: holds for the exact curve only, for the same reason; on such inputs the subtraction at `generate.rs:54` underflows in the same way.
- GenerateCliff.OverrideConfig: the source returns `Result<CosmosToolsConfig, FrameworkError>`, which is always `Ok`. The model returns the configuration itself.
- JSON serialisation, writing to a file or standard output, the "failed convert to json object" message and `exit(1)` in both `run` methods are I/O and are not modelled. Amounts and lengths are numbers, not decimal strings.
- The debug line printed for every boundary in `generate.rs:56` is output only and is not modelled.
- Command-line parsing, the application singleton, configuration-file loading (`src/application.rs`, `src/commands.rs`, `src/commands/vesting.rs`) and the `main.rs` entry points are framework plumbing. The configuration reaches the model as a value.
- The configuration schema in `src/config.rs` (strict keys, default denomination) is not modelled beyond the default "uknow" (`GenerateCliff.DefaultDenom`).
- A zero interval makes the source panic on division by zero. The model requires a positive interval instead.
