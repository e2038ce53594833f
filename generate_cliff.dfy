/** The `vesting generate-cliff` command: the vesting curve with a cliff, the
    schedule it is cut into (starting at the first interval boundary after the
    cliff) and the `--denom` override of the configured denomination. */
module GenerateCliff {
  import opened Records
  import LinearShare

  /** The command's numeric arguments and its optional `--denom` flag; the
      `--output` path only decides where the serialised schedule is written. */
  datatype GenerateCliffCmd = GenerateCliffCmd(
    totalAmount: nat,
    interval: nat,
    duration: nat,
    cliffDuration: nat,
    denom: Option<string>)

  /** The configuration section the command reads its denomination from. */
  datatype GeneratorSection = GeneratorSection(denom: string)
  datatype CosmosToolsConfig = CosmosToolsConfig(generator: GeneratorSection)

  /** The denomination a configuration holds when the file does not set one. */
  const DefaultDenom: string := "uknow"

  /** Amount vested `time` seconds after the start: nothing before the cliff,
      everything from the end of the duration on, and in between the linear
      share of the total, rounded down. */
  function VestedCoin(cmd: GenerateCliffCmd, time: nat): (r: nat)
    ensures r <= cmd.totalAmount
    ensures time < cmd.cliffDuration ==> r == 0
    ensures cmd.cliffDuration <= time && cmd.duration <= time ==> r == cmd.totalAmount
  {
    if time < cmd.cliffDuration then 0
    else if time >= cmd.duration then cmd.totalAmount
    else LinearShare.Share(cmd.totalAmount, time, cmd.duration)
  }

  /** Between the cliff and the end of the duration the curve is the linear
      share rounded down: the largest amount whose proportion of the total
      does not exceed the elapsed proportion of the duration. */
  lemma VestedCoinIsFloor(cmd: GenerateCliffCmd, time: nat)
    requires cmd.cliffDuration <= time < cmd.duration
    ensures var r := VestedCoin(cmd, time);
      r * cmd.duration <= cmd.totalAmount * time < (r + 1) * cmd.duration
  {
    LinearShare.ShareIsFloor(cmd.totalAmount, time, cmd.duration);
  }

  /** The curve never goes down, so the release of each period is never negative. */
  lemma VestedCoinMonotone(cmd: GenerateCliffCmd, t1: nat, t2: nat)
    requires t1 <= t2
    ensures VestedCoin(cmd, t1) <= VestedCoin(cmd, t2)
  {
    if cmd.cliffDuration <= t1 && t2 < cmd.duration {
      LinearShare.ShareMonotone(cmd.totalAmount, t1, t2, cmd.duration);
    }
  }

  /** The values the unit tests pin: 54 after one day without a cliff, nothing
      after one day under a six-month cliff, 10027 the day after that cliff. */
  lemma VestedCoinUnitTests()
    ensures VestedCoin(GenerateCliffCmd(40000, 86400, 63072000, 0, None), 86400) == 54
    ensures VestedCoin(GenerateCliffCmd(40000, 86400, 63072000, 15768000, None), 86400) == 0
    ensures VestedCoin(GenerateCliffCmd(40000, 86400, 63072000, 15768000, None), 15811200) == 10027
  {
  }

  /** Number of whole intervals in the duration; a trailing partial interval is dropped. */
  function PeriodCount(cmd: GenerateCliffCmd): nat
    requires 0 < cmd.interval
  {
    cmd.duration / cmd.interval
  }

  /** Index of the first period emitted: the first interval boundary strictly after the cliff. */
  function StartIndex(cmd: GenerateCliffCmd): nat
    requires 0 < cmd.interval
  {
    cmd.cliffDuration / cmd.interval + 1
  }

  /** The k-th record of a schedule that starts at boundary `start`: at boundary
      `start + k` it releases what vested since the previous record, or
      everything vested so far for the first. */
  function PeriodAt(cmd: GenerateCliffCmd, denom: string, start: nat, k: nat): Period
    requires 1 <= start
  {
    var time := cmd.interval * (start + k);
    var previous := cmd.interval * (start + k - 1);
    LinearShare.MulMonotone(cmd.interval, start + k - 1, start + k);
    VestedCoinMonotone(cmd, previous, time);
    var released := if k == 0 then VestedCoin(cmd, time) else VestedCoin(cmd, time) - VestedCoin(cmd, previous);
    Period(time, Token(denom, released))
  }

  lemma PeriodAtValue(cmd: GenerateCliffCmd, denom: string, start: nat, k: nat)
    requires 0 < cmd.interval && 1 <= start && start + k <= PeriodCount(cmd)
    ensures var t, t' := cmd.interval * (start + k), cmd.interval * (start + k - 1);
      VestedCoin(cmd, t') <= VestedCoin(cmd, t)
      && Boundaries(cmd, denom, start)[k]
         == Period(t, Token(denom, VestedCoin(cmd, t) - if k == 0 then 0 else VestedCoin(cmd, t')))
  {
    LinearShare.MulMonotone(cmd.interval, start + k - 1, start + k);
    VestedCoinMonotone(cmd, cmd.interval * (start + k - 1), cmd.interval * (start + k));
  }

  /** One record per boundary from `start` to `PeriodCount` inclusive. */
  function Boundaries(cmd: GenerateCliffCmd, denom: string, start: nat): seq<Period>
    requires 0 < cmd.interval && 1 <= start
  {
    var n := if start <= PeriodCount(cmd) then PeriodCount(cmd) - start + 1 else 0;
    seq(n, k requires 0 <= k < n => PeriodAt(cmd, denom, start, k))
  }

  /** The schedule `build_periods` produces. */
  function Schedule(cmd: GenerateCliffCmd, denom: string): seq<Period>
    requires 0 < cmd.interval
  {
    Boundaries(cmd, denom, StartIndex(cmd))
  }

  /** `build_periods`: walks the boundaries after the cliff, carrying the amount
      vested at the previous boundary, and labels every record with the
      configured denomination. */
  method BuildPeriods(cmd: GenerateCliffCmd, config: CosmosToolsConfig) returns (result: seq<Period>)
    requires 0 < cmd.interval
    ensures result == Schedule(cmd, config.generator.denom)
  {
    ghost var spec := Schedule(cmd, config.generator.denom);
    var periods := cmd.duration / cmd.interval;
    var lastVested: nat := 0;
    var start := cmd.cliffDuration / cmd.interval + 1;
    result := [];
    var period := start;
    while period <= periods
      invariant start <= period && (period == start || period <= periods + 1)
      invariant period - start <= |spec|
      invariant result == spec[..period - start]
      invariant lastVested == if period == start then 0 else VestedCoin(cmd, cmd.interval * (period - 1))
    {
      var time := cmd.interval * period;
      var vested := VestedCoin(cmd, time);
      if period != start {
        LinearShare.MulMonotone(cmd.interval, period - 1, period);
        VestedCoinMonotone(cmd, cmd.interval * (period - 1), time);
      }
      var token: nat := vested - lastVested;
      lastVested := vested;
      result := result + [Period(time, Token(config.generator.denom, token))];
      assert spec[..period + 1 - start] == spec[..period - start] + [spec[period - start]];
      period := period + 1;
    }
  }

  /** `override_config`: an explicit `--denom` replaces the configured
      denomination; without the flag the configuration is returned as it is. */
  function OverrideConfig(cmd: GenerateCliffCmd, config: CosmosToolsConfig): (r: CosmosToolsConfig)
    ensures cmd.denom.Some? ==> r.generator.denom == cmd.denom.value
    ensures cmd.denom.None? ==> r == config
  {
    if cmd.denom.Some? then config.(generator := config.generator.(denom := cmd.denom.value))
    else config
  }

  /** Where the records of a schedule starting at boundary `start` fall: on
      interval boundaries from `start` on, no later than the end of the
      duration, in chronological order, all in the given denomination. */
  lemma BoundariesShape(cmd: GenerateCliffCmd, denom: string, start: nat)
    requires 0 < cmd.interval && 1 <= start
    ensures var s := Boundaries(cmd, denom, start);
      forall k :: 0 <= k < |s| ==>
        s[k].length % cmd.interval == 0 && cmd.interval * start <= s[k].length <= cmd.duration
        && s[k].amount.denom == denom
    ensures Chronological(Boundaries(cmd, denom, start))
  {
    var s := Boundaries(cmd, denom, start);
    forall k | 0 <= k < |s|
      ensures s[k].length % cmd.interval == 0 && cmd.interval * start <= s[k].length <= cmd.duration
    {
      PeriodAtPlacement(cmd, denom, start, k);
    }
    forall j, k | 0 <= j < k < |s|
      ensures s[j].length < s[k].length
    {
      PeriodAtOrder(cmd, denom, start, j, k);
    }
  }

  lemma PeriodAtPlacement(cmd: GenerateCliffCmd, denom: string, start: nat, k: nat)
    requires 0 < cmd.interval && 1 <= start && start + k <= PeriodCount(cmd)
    ensures var t := PeriodAt(cmd, denom, start, k).length;
      t % cmd.interval == 0 && cmd.interval * start <= t <= cmd.duration
  {
    var i := start + k;
    assert PeriodAt(cmd, denom, start, k).length == cmd.interval * i;
    LinearShare.MultipleMod(cmd.interval, i);
    LinearShare.MulMonotone(cmd.interval, start, i);
    LinearShare.MulLeIffLeDiv(cmd.interval, i, cmd.duration);
  }

  lemma PeriodAtOrder(cmd: GenerateCliffCmd, denom: string, start: nat, j: nat, k: nat)
    requires 0 < cmd.interval && 1 <= start && j < k
    ensures PeriodAt(cmd, denom, start, j).length < PeriodAt(cmd, denom, start, k).length
  {
    var i := start + j;
    LinearShare.MulMonotone(cmd.interval, i + 1, start + k);
    assert cmd.interval * (i + 1) == cmd.interval * i + cmd.interval;
  }

  /** How many records `build_periods` emits and where: one per whole
      interval after the cliff, each on an interval boundary strictly after
      the cliff and no later than the end of the duration, in chronological
      order, all in the given denomination. */
  lemma ScheduleShape(cmd: GenerateCliffCmd, denom: string)
    requires 0 < cmd.interval
    ensures var s := Schedule(cmd, denom);
      |s| == (if cmd.cliffDuration / cmd.interval < cmd.duration / cmd.interval
              then cmd.duration / cmd.interval - cmd.cliffDuration / cmd.interval else 0)
    ensures var s := Schedule(cmd, denom);
      forall k :: 0 <= k < |s| ==>
        s[k].length % cmd.interval == 0 && cmd.cliffDuration < s[k].length <= cmd.duration
        && s[k].amount.denom == denom
    ensures Chronological(Schedule(cmd, denom))
  {
    BoundariesShape(cmd, denom, StartIndex(cmd));
    LinearShare.MulLeIffLeDiv(cmd.interval, StartIndex(cmd), cmd.cliffDuration);
  }

  /** The releases of a schedule telescope: together they are what has vested
      at its last record's time, hence never more than the total. */
  lemma BoundariesTotal(cmd: GenerateCliffCmd, denom: string, start: nat)
    requires 0 < cmd.interval && 1 <= start
    ensures var s := Boundaries(cmd, denom, start);
      TotalAmount(s) == (if |s| == 0 then 0 else VestedCoin(cmd, s[|s| - 1].length))
    ensures TotalAmount(Boundaries(cmd, denom, start)) <= cmd.totalAmount
  {
    var s := Boundaries(cmd, denom, start);
    if |s| > 0 {
      BoundariesPrefixTotal(cmd, denom, start, |s|);
      assert s[..|s|] == s;
    }
  }

  lemma {:induction false} BoundariesPrefixTotal(cmd: GenerateCliffCmd, denom: string, start: nat, m: nat)
    requires 0 < cmd.interval && 1 <= start && 1 <= m <= |Boundaries(cmd, denom, start)|
    ensures TotalAmount(Boundaries(cmd, denom, start)[..m])
         == VestedCoin(cmd, cmd.interval * (start + m - 1))
  {
    var s := Boundaries(cmd, denom, start);
    assert s[..m][..m - 1] == s[..m - 1];
    if m == 1 {
      assert s[..1][..0] == [];
    } else {
      BoundariesPrefixTotal(cmd, denom, start, m - 1);
    }
  }

  /** When the duration is a whole number of intervals and ends after the
      cliff, `build_periods` releases exactly the total. */
  lemma ScheduleConserves(cmd: GenerateCliffCmd, denom: string)
    requires 0 < cmd.interval && cmd.duration % cmd.interval == 0
    requires cmd.cliffDuration < cmd.duration
    ensures TotalAmount(Schedule(cmd, denom)) == cmd.totalAmount
  {
    var s := Schedule(cmd, denom);
    var p := PeriodCount(cmd);
    assert cmd.duration == cmd.interval * p + cmd.duration % cmd.interval;
    assert cmd.interval * p == cmd.duration;
    LinearShare.MulLeIffLeDiv(cmd.interval, p, cmd.cliffDuration);
    assert StartIndex(cmd) <= p;
    assert |s| == p - StartIndex(cmd) + 1;
    assert StartIndex(cmd) + (|s| - 1) == p;
    PeriodAtValue(cmd, denom, StartIndex(cmd), |s| - 1);
    assert s[|s| - 1].length == cmd.interval * p;
    BoundariesTotal(cmd, denom, StartIndex(cmd));
  }

  /** A cliff that is a whole number of intervals and falls on the last
      boundary: the curve has the whole total vested there, yet
      `build_periods` starts one boundary later and emits nothing. */
  lemma CliffOnLastBoundaryReleasesNothing()
    ensures var cmd := GenerateCliffCmd(40000, 1000, 1000, 1000, None);
      VestedCoin(cmd, 1000) == 40000 && Schedule(cmd, DefaultDenom) == []
  {
  }

  /** The first boundary at or after the cliff (and never the start itself):
      the boundary from which the curve can be non-zero. */
  function CorrectedStartIndex(cmd: GenerateCliffCmd): nat
    requires 0 < cmd.interval
  {
    if cmd.cliffDuration == 0 then 1 else (cmd.cliffDuration - 1) / cmd.interval + 1
  }

  /** The schedule cut from the first boundary at or after the cliff. */
  function CorrectedSchedule(cmd: GenerateCliffCmd, denom: string): seq<Period>
    requires 0 < cmd.interval
  {
    Boundaries(cmd, denom, CorrectedStartIndex(cmd))
  }

  /** The corrected schedule starts at the first boundary at or after the
      cliff, and releases exactly the total whenever the duration is a
      positive whole number of intervals and the cliff is no later than its
      end, including a cliff on the last boundary. */
  lemma CorrectedScheduleConserves(cmd: GenerateCliffCmd, denom: string)
    requires 0 < cmd.interval
    ensures var s := CorrectedSchedule(cmd, denom);
      forall k :: 0 <= k < |s| ==> cmd.cliffDuration <= s[k].length
    ensures 0 < CorrectedStartIndex(cmd) - 1 ==>
      cmd.interval * (CorrectedStartIndex(cmd) - 1) < cmd.cliffDuration
    ensures 0 < cmd.duration && cmd.duration % cmd.interval == 0 && cmd.cliffDuration <= cmd.duration ==>
      TotalAmount(CorrectedSchedule(cmd, denom)) == cmd.totalAmount
  {
    CorrectedStartPlacement(cmd, denom);
    if 0 < cmd.duration && cmd.duration % cmd.interval == 0 && cmd.cliffDuration <= cmd.duration {
      CorrectedScheduleTotal(cmd, denom);
    }
  }

  /** The corrected start is the first boundary at or after the cliff. */
  lemma CorrectedStartPlacement(cmd: GenerateCliffCmd, denom: string)
    requires 0 < cmd.interval
    ensures var s := CorrectedSchedule(cmd, denom);
      forall k :: 0 <= k < |s| ==> cmd.cliffDuration <= s[k].length
    ensures 0 < CorrectedStartIndex(cmd) - 1 ==>
      cmd.interval * (CorrectedStartIndex(cmd) - 1) < cmd.cliffDuration
  {
    var start := CorrectedStartIndex(cmd);
    BoundariesShape(cmd, denom, start);
    if 0 < cmd.cliffDuration {
      LinearShare.MulLeIffLeDiv(cmd.interval, start, cmd.cliffDuration - 1);
      LinearShare.MulLeIffLeDiv(cmd.interval, start - 1, cmd.cliffDuration - 1);
    }
  }

  /** With the cliff no later than a positive whole number of intervals, the
      corrected start is no later than the last boundary. */
  lemma CorrectedStartWithinDuration(cmd: GenerateCliffCmd)
    requires 0 < cmd.interval && 0 < cmd.duration && cmd.duration % cmd.interval == 0
    requires cmd.cliffDuration <= cmd.duration
    ensures cmd.interval * PeriodCount(cmd) == cmd.duration
    ensures CorrectedStartIndex(cmd) <= PeriodCount(cmd)
  {
    var p := PeriodCount(cmd);
    assert cmd.duration == cmd.interval * p + cmd.duration % cmd.interval;
    if 0 < cmd.cliffDuration {
      LinearShare.MulLeIffLeDiv(cmd.interval, p, cmd.cliffDuration - 1);
    } else {
      LinearShare.MulLeIffLeDiv(cmd.interval, 1, cmd.duration);
    }
  }

  /** The corrected schedule ends on the last boundary, where everything has
      vested, so it releases exactly the total. */
  lemma CorrectedScheduleTotal(cmd: GenerateCliffCmd, denom: string)
    requires 0 < cmd.interval && 0 < cmd.duration && cmd.duration % cmd.interval == 0
    requires cmd.cliffDuration <= cmd.duration
    ensures TotalAmount(CorrectedSchedule(cmd, denom)) == cmd.totalAmount
  {
    var start := CorrectedStartIndex(cmd);
    var s := CorrectedSchedule(cmd, denom);
    var p := PeriodCount(cmd);
    CorrectedStartWithinDuration(cmd);
    assert |s| == p - start + 1;
    assert start + (|s| - 1) == p;
    PeriodAtValue(cmd, denom, start, |s| - 1);
    assert s[|s| - 1].length == cmd.duration;
    BoundariesTotal(cmd, denom, start);
  }

  /** Away from that boundary case (no cliff, or a cliff that is not a whole
      number of intervals) `build_periods` is the corrected schedule. */
  lemma ScheduleIsCorrectedOffTheBoundary(cmd: GenerateCliffCmd, denom: string)
    requires 0 < cmd.interval
    requires cmd.cliffDuration == 0 || cmd.cliffDuration % cmd.interval != 0
    ensures Schedule(cmd, denom) == CorrectedSchedule(cmd, denom)
  {
    if 0 < cmd.cliffDuration {
      LinearShare.DivOfPredecessor(cmd.cliffDuration, cmd.interval);
    }
  }

  /** On a cliff that is a whole number of intervals, before the last
      boundary, `build_periods` drops the record at the cliff and adds its
      release to the next record: same releases in all, one interval later. */
  lemma ScheduleDefersTheCliffRelease(cmd: GenerateCliffCmd, denom: string)
    requires 0 < cmd.interval
    requires 0 < cmd.cliffDuration && cmd.cliffDuration % cmd.interval == 0
    requires cmd.cliffDuration / cmd.interval < PeriodCount(cmd)
    ensures var s, c := Schedule(cmd, denom), CorrectedSchedule(cmd, denom);
      |c| == |s| + 1 && c[0].length == cmd.cliffDuration
      && s[0].length == c[1].length
      && s[0].amount.amount == c[0].amount.amount + c[1].amount.amount
      && s[1..] == c[2..]
  {
    var s, c := Schedule(cmd, denom), CorrectedSchedule(cmd, denom);
    var q := cmd.cliffDuration / cmd.interval;
    LinearShare.DivOfPredecessor(cmd.cliffDuration, cmd.interval);
    assert CorrectedStartIndex(cmd) == q && StartIndex(cmd) == q + 1;
    assert cmd.interval * q == cmd.cliffDuration;
    LinearShare.MulMonotone(cmd.interval, q - 1, q);
    assert cmd.interval * q == cmd.interval * (q - 1) + cmd.interval;
    assert VestedCoin(cmd, cmd.interval * (q - 1)) == 0;
    forall k | 0 <= k < |s| - 1
      ensures s[1..][k] == c[2..][k]
    {
      assert q + 1 + (k + 1) == q + (k + 2);
    }
  }

  /** The unit tests over two years of daily periods: 730 records without a
      cliff, 548 under a six-month cliff, each releasing 40000 in all. */
  lemma BuildPeriodsUnitTests()
    ensures var s := Schedule(GenerateCliffCmd(40000, 86400, 63072000, 0, None), DefaultDenom);
      |s| == 730 && TotalAmount(s) == 40000
    ensures var s := Schedule(GenerateCliffCmd(40000, 86400, 63072000, 15768000, None), DefaultDenom);
      |s| == 548 && TotalAmount(s) == 40000
  {
    ScheduleConserves(GenerateCliffCmd(40000, 86400, 63072000, 0, None), DefaultDenom);
    ScheduleConserves(GenerateCliffCmd(40000, 86400, 63072000, 15768000, None), DefaultDenom);
  }

  /** After the override, every record carries the `--denom` value when the
      flag is given and the configured denomination otherwise. */
  lemma OverriddenDenomLabelsEveryPeriod(cmd: GenerateCliffCmd, config: CosmosToolsConfig)
    requires 0 < cmd.interval
    ensures var s := Schedule(cmd, OverrideConfig(cmd, config).generator.denom);
      forall k :: 0 <= k < |s| ==>
        s[k].amount.denom == (if cmd.denom.Some? then cmd.denom.value else config.generator.denom)
  {
  }

  /** The acceptance runs: 40000 over one interval of 1000 seconds is a single
      record of 40000 at 1000, labelled "uknow" by default, "stake" or "tata"
      by the flag, and "toto" by a configuration that sets it. */
  lemma SinglePeriodAcceptance()
    ensures var cmd := GenerateCliffCmd(40000, 1000, 1000, 0, None);
      Schedule(cmd, OverrideConfig(cmd, CosmosToolsConfig(GeneratorSection(DefaultDenom))).generator.denom)
        == [Period(1000, Token("uknow", 40000))]
    ensures var cmd := GenerateCliffCmd(40000, 1000, 1000, 0, Some("stake"));
      Schedule(cmd, OverrideConfig(cmd, CosmosToolsConfig(GeneratorSection(DefaultDenom))).generator.denom)
        == [Period(1000, Token("stake", 40000))]
    ensures var cmd := GenerateCliffCmd(40000, 1000, 1000, 0, None);
      Schedule(cmd, OverrideConfig(cmd, CosmosToolsConfig(GeneratorSection("toto"))).generator.denom)
        == [Period(1000, Token("toto", 40000))]
    ensures var cmd := GenerateCliffCmd(40000, 1000, 1000, 0, Some("tata"));
      Schedule(cmd, OverrideConfig(cmd, CosmosToolsConfig(GeneratorSection("toto"))).generator.denom)
        == [Period(1000, Token("tata", 40000))]
  {
  }
}
