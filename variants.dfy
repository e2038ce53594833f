/** How the two generator commands relate: they share the vesting curve, and
    when every interval is worth at least one unit the older command's
    zero-skipping schedule is exactly the cliff command's schedule cut from the
    first boundary at or after the cliff. */
module Variants {
  import opened Records
  import Generate
  import GenerateCliff
  import LinearShare

  /** The older command's parameters as the cliff command's, with a given `--denom` flag. */
  function AsCliffCmd(cmd: Generate.GenerateCmd, denom: Option<string>): GenerateCliff.GenerateCliffCmd
  {
    GenerateCliff.GenerateCliffCmd(cmd.totalAmount, cmd.interval, cmd.duration, cmd.cliffDuration, denom)
  }

  /** Both commands compute the same vesting curve. */
  lemma CurvesAgree(cmd: Generate.GenerateCmd, denom: Option<string>, time: nat)
    ensures Generate.VestedCoin(cmd, time) == GenerateCliff.VestedCoin(AsCliffCmd(cmd, denom), time)
  {
  }

  /** When one interval is worth at least one unit, skipping the zero releases
      (the older command) and starting at the first boundary at or after the
      cliff give the same schedule. */
  lemma ZeroSkippingIsCorrectedCliffSchedule(cmd: Generate.GenerateCmd, denom: Option<string>)
    requires 0 < cmd.interval && cmd.duration <= cmd.totalAmount * cmd.interval
    ensures Generate.Schedule(cmd) == GenerateCliff.CorrectedSchedule(AsCliffCmd(cmd, denom), Generate.Denom)
  {
    var c := AsCliffCmd(cmd, denom);
    var incs := Generate.Increments(cmd);
    var z := Generate.PreCliffCount(cmd);
    var corrected := GenerateCliff.CorrectedSchedule(c, Generate.Denom);
    Generate.ScheduleSkipsOnlyBeforeCliff(cmd);
    assert |incs[z..]| == |corrected|;
    forall k | 0 <= k < |corrected|
      ensures incs[z..][k] == corrected[k]
    {
      RecordsMatch(cmd, denom, k);
    }
  }

  lemma RecordsMatch(cmd: Generate.GenerateCmd, denom: Option<string>, k: nat)
    requires 0 < cmd.interval
    requires k < |GenerateCliff.CorrectedSchedule(AsCliffCmd(cmd, denom), Generate.Denom)|
    ensures Generate.PreCliffCount(cmd) + k < |Generate.Increments(cmd)|
    ensures Generate.Increments(cmd)[Generate.PreCliffCount(cmd) + k]
         == GenerateCliff.CorrectedSchedule(AsCliffCmd(cmd, denom), Generate.Denom)[k]
  {
    var c := AsCliffCmd(cmd, denom);
    var start := GenerateCliff.CorrectedStartIndex(c);
    StartsAgree(cmd, denom);
    assert Generate.Increments(cmd)[Generate.PreCliffCount(cmd) + k] == Generate.Increment(cmd, start + k);
    assert GenerateCliff.CorrectedSchedule(c, Generate.Denom)[k] == GenerateCliff.PeriodAt(c, Generate.Denom, start, k);
    BoundaryRecordsMatch(cmd, denom, start, k);
  }

  /** Boundary `start + k` gives the same record in both commands, provided
      nothing has vested at the boundary before `start`. */
  lemma BoundaryRecordsMatch(cmd: Generate.GenerateCmd, denom: Option<string>, start: nat, k: nat)
    requires 1 <= start && Generate.VestedCoin(cmd, cmd.interval * (start - 1)) == 0
    ensures Generate.Increment(cmd, start + k) == GenerateCliff.PeriodAt(AsCliffCmd(cmd, denom), Generate.Denom, start, k)
  {
    var t, t' := cmd.interval * (start + k), cmd.interval * (start + k - 1);
    CurvesAgree(cmd, denom, t);
    CurvesAgree(cmd, denom, t');
  }

  /** The older command's first kept boundary is the corrected cliff start,
      and nothing has vested at the boundary before it. */
  lemma StartsAgree(cmd: Generate.GenerateCmd, denom: Option<string>)
    requires 0 < cmd.interval
    requires 0 < |GenerateCliff.CorrectedSchedule(AsCliffCmd(cmd, denom), Generate.Denom)|
    ensures var start := GenerateCliff.CorrectedStartIndex(AsCliffCmd(cmd, denom));
      Generate.PreCliffCount(cmd) + 1 == start && start <= Generate.PeriodCount(cmd)
      && Generate.VestedCoin(cmd, cmd.interval * (start - 1)) == 0
  {
    var c := AsCliffCmd(cmd, denom);
    var start := GenerateCliff.CorrectedStartIndex(c);
    GenerateCliff.CorrectedScheduleConserves(c, Generate.Denom);
    if cmd.cliffDuration == 0 {
      assert cmd.interval * (start - 1) == 0;
      LinearShare.MulLeIffLeDiv(cmd.interval, 1, cmd.duration);
      Generate.VestedAtStart(cmd);
    }
  }
}
