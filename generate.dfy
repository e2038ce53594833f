/** The older `generate` command: the same vesting curve, cut at every interval
    boundary from the first one, with the boundaries that release nothing left
    out of the schedule and every record labelled "uknow". */
module Generate {
  import opened Records
  import LinearShare

  /** The command's numeric arguments; the `--output` path only decides where
      the serialised schedule is written. */
  datatype GenerateCmd = GenerateCmd(
    totalAmount: nat,
    interval: nat,
    duration: nat,
    cliffDuration: nat)

  /** The denomination every record of this command carries. */
  const Denom: string := "uknow"

  /** Amount vested `time` seconds after the start: nothing before the cliff,
      everything from the end of the duration on, and in between the linear
      share of the total, rounded down. */
  function VestedCoin(cmd: GenerateCmd, time: nat): (r: nat)
    ensures r <= cmd.totalAmount
    ensures time < cmd.cliffDuration ==> r == 0
    ensures cmd.cliffDuration <= time && cmd.duration <= time ==> r == cmd.totalAmount
  {
    if time < cmd.cliffDuration then 0
    else if time >= cmd.duration then cmd.totalAmount
    else LinearShare.Share(cmd.totalAmount, time, cmd.duration)
  }

  /** Between the cliff and the end of the duration the curve is the linear
      share rounded down: the largest amount whose proportion of the total
      does not exceed the elapsed proportion of the duration. */
  lemma VestedCoinIsFloor(cmd: GenerateCmd, time: nat)
    requires cmd.cliffDuration <= time < cmd.duration
    ensures var r := VestedCoin(cmd, time);
      r * cmd.duration <= cmd.totalAmount * time < (r + 1) * cmd.duration
  {
    LinearShare.ShareIsFloor(cmd.totalAmount, time, cmd.duration);
  }

  /** The curve never goes down, so no release is negative. */
  lemma VestedCoinMonotone(cmd: GenerateCmd, t1: nat, t2: nat)
    requires t1 <= t2
    ensures VestedCoin(cmd, t1) <= VestedCoin(cmd, t2)
  {
    if cmd.cliffDuration <= t1 && t2 < cmd.duration {
      LinearShare.ShareMonotone(cmd.totalAmount, t1, t2, cmd.duration);
    }
  }

  /** Nothing has vested at the start of a vesting that lasts at all. */
  lemma VestedAtStart(cmd: GenerateCmd)
    requires 0 < cmd.duration
    ensures VestedCoin(cmd, 0) == 0
  {
  }

  /** The values the unit tests pin: 54 after one day without a cliff, nothing
      after one day under a six-month cliff, 10027 the day after that cliff. */
  lemma VestedCoinUnitTests()
    ensures VestedCoin(GenerateCmd(40000, 86400, 63072000, 0), 86400) == 54
    ensures VestedCoin(GenerateCmd(40000, 86400, 63072000, 15768000), 86400) == 0
    ensures VestedCoin(GenerateCmd(40000, 86400, 63072000, 15768000), 15811200) == 10027
  {
  }

  /** Number of whole intervals in the duration; a trailing partial interval is dropped. */
  function PeriodCount(cmd: GenerateCmd): nat
    requires 0 < cmd.interval
  {
    cmd.duration / cmd.interval
  }

  /** The record boundary `i` (counted from 1) stands for before zero releases
      are skipped: what vested between the previous boundary and this one. */
  function Increment(cmd: GenerateCmd, i: nat): Period
    requires 0 < i
  {
    var time := cmd.interval * i;
    var previous := cmd.interval * (i - 1);
    LinearShare.MulMonotone(cmd.interval, i - 1, i);
    VestedCoinMonotone(cmd, previous, time);
    Period(time, Token(Denom, VestedCoin(cmd, time) - VestedCoin(cmd, previous)))
  }

  /** One record per boundary `1 ..= PeriodCount`, zero releases included. */
  function Increments(cmd: GenerateCmd): seq<Period>
    requires 0 < cmd.interval
  {
    seq(PeriodCount(cmd), k requires 0 <= k < PeriodCount(cmd) => Increment(cmd, k + 1))
  }

  /** The records of `s` that release something, in their order. */
  function DropZero(s: seq<Period>): (r: seq<Period>)
    ensures |r| <= |s|
    ensures forall k :: 0 <= k < |r| ==> 0 < r[k].amount.amount
    ensures TotalAmount(r) == TotalAmount(s)
  {
    if s == [] then []
    else
      var init, last := s[..|s| - 1], s[|s| - 1];
      assert s == init + [last];
      var r := DropZero(init);
      if last.amount.amount == 0 then r
      else
        assert (r + [last])[..|r|] == r;
        r + [last]
  }

  /** The schedule `build_periods` produces. */
  function Schedule(cmd: GenerateCmd): seq<Period>
    requires 0 < cmd.interval
  {
    DropZero(Increments(cmd))
  }

  /** `build_periods`: walks the boundaries from the first, skips those whose
      release is zero, and moves the amount vested so far forward only when
      it emits a record. The second invariant is why that is enough: a skipped
      boundary vested exactly what had vested before it, so the carried amount
      is always what has vested at the last boundary visited. */
  method BuildPeriods(cmd: GenerateCmd) returns (result: seq<Period>)
    requires 0 < cmd.interval
    ensures result == Schedule(cmd)
  {
    ghost var increments := Increments(cmd);
    var periods := cmd.duration / cmd.interval;
    result := [];
    var lastVested: nat := 0;
    for i := 1 to periods + 1
      invariant result == DropZero(increments[..i - 1])
      invariant lastVested == if i == 1 then 0 else VestedCoin(cmd, cmd.interval * (i - 1))
    {
      var time := cmd.interval * i;
      var vested := VestedCoin(cmd, time);
      BoundaryStep(cmd, i);
      var token: nat := vested - lastVested;
      DropZeroPrefixStep(increments, i);
      if token == 0 {
        continue;
      }
      result := result + [Period(time, Token(Denom, token))];
      lastVested := vested;
    }
    assert increments[..periods] == increments;
  }

  /** What one loop iteration needs: the boundary's release is what vested at
      it minus the amount carried from the previous boundary. */
  lemma BoundaryStep(cmd: GenerateCmd, i: nat)
    requires 0 < cmd.interval && 1 <= i <= PeriodCount(cmd)
    ensures var carried := if i == 1 then 0 else VestedCoin(cmd, cmd.interval * (i - 1));
      carried <= VestedCoin(cmd, cmd.interval * i)
      && Increments(cmd)[i - 1]
         == Period(cmd.interval * i, Token(Denom, VestedCoin(cmd, cmd.interval * i) - carried))
  {
    var t, t' := cmd.interval * i, cmd.interval * (i - 1);
    LinearShare.MulMonotone(cmd.interval, i - 1, i);
    VestedCoinMonotone(cmd, t', t);
    assert Increments(cmd)[i - 1] == Increment(cmd, i);
    if i == 1 {
      assert t' == 0;
      LinearShare.MulLeIffLeDiv(cmd.interval, 1, cmd.duration);
      VestedAtStart(cmd);
    }
  }

  lemma DropZeroPrefixStep(s: seq<Period>, i: nat)
    requires 1 <= i <= |s|
    ensures DropZero(s[..i]) == DropZero(s[..i - 1]) + (if s[i - 1].amount.amount == 0 then [] else [s[i - 1]])
  {
    assert s[..i][..i - 1] == s[..i - 1];
  }

  /** Dropping zero releases keeps exactly the records that release something. */
  lemma {:induction false} DropZeroMembers(s: seq<Period>)
    ensures forall p :: p in DropZero(s) <==> p in s && 0 < p.amount.amount
  {
    if s != [] {
      var init, last := s[..|s| - 1], s[|s| - 1];
      DropZeroMembers(init);
      assert s == init + [last];
    }
  }

  /** The records' placement and contents: no more than one per whole
      interval, each releasing a positive amount of "uknow" at an interval
      boundary no later than the end of the duration, in chronological order. */
  lemma ScheduleShape(cmd: GenerateCmd)
    requires 0 < cmd.interval
    ensures |Schedule(cmd)| <= cmd.duration / cmd.interval
    ensures var s := Schedule(cmd);
      forall k :: 0 <= k < |s| ==>
        s[k].amount.denom == Denom && 0 < s[k].amount.amount
        && s[k].length % cmd.interval == 0 && 0 < s[k].length <= cmd.duration
    ensures Chronological(Schedule(cmd))
  {
    var incs := Increments(cmd);
    IncrementsShape(cmd);
    DropZeroChronological(incs);
    DropZeroMembers(incs);
    var s := Schedule(cmd);
    forall k | 0 <= k < |s|
      ensures s[k] in incs
    {
      assert s[k] in s;
    }
  }

  /** Before zero releases are dropped: one record per boundary, in
      chronological order, each no later than the end of the duration. */
  lemma IncrementsShape(cmd: GenerateCmd)
    requires 0 < cmd.interval
    ensures var incs := Increments(cmd);
      forall k :: 0 <= k < |incs| ==>
        incs[k].amount.denom == Denom
        && incs[k].length % cmd.interval == 0 && 0 < incs[k].length <= cmd.duration
    ensures Chronological(Increments(cmd))
  {
    var incs := Increments(cmd);
    forall k | 0 <= k < |incs|
      ensures incs[k].length % cmd.interval == 0 && 0 < incs[k].length <= cmd.duration
    {
      LinearShare.MultipleMod(cmd.interval, k + 1);
      LinearShare.MulLeIffLeDiv(cmd.interval, k + 1, cmd.duration);
      LinearShare.MulMonotone(cmd.interval, 1, k + 1);
    }
    forall j, k | 0 <= j < k < |incs|
      ensures incs[j].length < incs[k].length
    {
      LinearShare.MulMonotone(cmd.interval, j + 2, k + 1);
      assert cmd.interval * (j + 2) == cmd.interval * (j + 1) + cmd.interval;
    }
  }

  lemma {:induction false} DropZeroChronological(s: seq<Period>)
    requires Chronological(s)
    ensures Chronological(DropZero(s))
  {
    if s != [] {
      var init, last := s[..|s| - 1], s[|s| - 1];
      assert s == init + [last];
      ChronologicalInit(init, last);
      DropZeroChronological(init);
      DropZeroBelow(init, last.length);
      if last.amount.amount != 0 {
        ChronologicalSnoc(DropZero(init), last);
      }
    }
  }

  /** Skipping records keeps every remaining one below a bound the input respects. */
  lemma {:induction false} DropZeroBelow(s: seq<Period>, bound: nat)
    requires forall k :: 0 <= k < |s| ==> s[k].length < bound
    ensures forall k :: 0 <= k < |DropZero(s)| ==> DropZero(s)[k].length < bound
  {
    if s != [] {
      var init, last := s[..|s| - 1], s[|s| - 1];
      assert forall k :: 0 <= k < |init| ==> init[k] == s[k];
      DropZeroBelow(init, bound);
      var r := DropZero(init);
      if last.amount.amount != 0 {
        assert forall k :: 0 <= k < |r| ==> (r + [last])[k] == r[k];
      }
    }
  }

  /** The releases telescope: together they are what has vested at the last
      boundary, hence never more than the total. */
  lemma ScheduleTotal(cmd: GenerateCmd)
    requires 0 < cmd.interval
    ensures TotalAmount(Schedule(cmd))
         == if PeriodCount(cmd) == 0 then 0 else VestedCoin(cmd, cmd.interval * PeriodCount(cmd))
    ensures TotalAmount(Schedule(cmd)) <= cmd.totalAmount
  {
    var incs := Increments(cmd);
    IncrementsPrefixTotal(cmd, |incs|);
    assert incs[..|incs|] == incs;
  }

  lemma {:induction false} IncrementsPrefixTotal(cmd: GenerateCmd, m: nat)
    requires 0 < cmd.interval && m <= PeriodCount(cmd)
    ensures TotalAmount(Increments(cmd)[..m])
         == if m == 0 then 0 else VestedCoin(cmd, cmd.interval * m)
  {
    var incs := Increments(cmd);
    if m == 1 {
      LinearShare.MulLeIffLeDiv(cmd.interval, 1, cmd.duration);
      VestedAtStart(cmd);
      assert incs[..1][..0] == [];
    } else if m > 1 {
      IncrementsPrefixTotal(cmd, m - 1);
      assert incs[..m][..m - 1] == incs[..m - 1];
    }
  }

  /** When the duration is a positive whole number of intervals and the cliff
      is no later than its end, the schedule releases exactly the total. */
  lemma ScheduleConserves(cmd: GenerateCmd)
    requires 0 < cmd.interval && 0 < cmd.duration && cmd.duration % cmd.interval == 0
    requires cmd.cliffDuration <= cmd.duration
    ensures TotalAmount(Schedule(cmd)) == cmd.totalAmount
  {
    assert cmd.interval * PeriodCount(cmd) == cmd.duration;
    LinearShare.MulLeIffLeDiv(cmd.interval, 1, cmd.duration);
    ScheduleTotal(cmd);
  }

  /** How many boundaries fall strictly before the cliff. */
  function PreCliffCount(cmd: GenerateCmd): nat
    requires 0 < cmd.interval
  {
    if cmd.cliffDuration == 0 then 0
    else if (cmd.cliffDuration - 1) / cmd.interval < PeriodCount(cmd) then (cmd.cliffDuration - 1) / cmd.interval
    else PeriodCount(cmd)
  }

  /** When one interval is worth at least one unit (`duration <= total * interval`),
      a boundary releases nothing exactly when it falls before the cliff. */
  lemma IncrementZeroIff(cmd: GenerateCmd, i: nat)
    requires 0 < cmd.interval && 1 <= i <= PeriodCount(cmd)
    requires cmd.duration <= cmd.totalAmount * cmd.interval
    ensures Increment(cmd, i).amount.amount == 0 <==> cmd.interval * i < cmd.cliffDuration
  {
    var t, t' := cmd.interval * i, cmd.interval * (i - 1);
    assert t == t' + cmd.interval;
    LinearShare.MulLeIffLeDiv(cmd.interval, i, cmd.duration);
    LinearShare.MulLeIffLeDiv(cmd.interval, 1, cmd.duration);
    if cmd.cliffDuration <= t {
      if t' < cmd.cliffDuration {
        if t < cmd.duration {
          LinearShare.ShareAfterOneStep(cmd.totalAmount, t, cmd.interval, cmd.duration);
        } else {
          assert 0 < cmd.totalAmount;
        }
      } else if t < cmd.duration {
        LinearShare.ShareStep(cmd.totalAmount, t', cmd.interval, cmd.duration);
      } else {
        LinearShare.ShareBelowTotal(cmd.totalAmount, t', cmd.duration);
      }
    }
  }

  /** Under the same condition the zero releases skipped are exactly the
      boundaries before the cliff, so the schedule is every boundary from the
      cliff on. */
  lemma ScheduleSkipsOnlyBeforeCliff(cmd: GenerateCmd)
    requires 0 < cmd.interval && cmd.duration <= cmd.totalAmount * cmd.interval
    ensures Schedule(cmd) == Increments(cmd)[PreCliffCount(cmd)..]
    ensures |Schedule(cmd)| == PeriodCount(cmd) - PreCliffCount(cmd)
  {
    var incs := Increments(cmd);
    var z := PreCliffCount(cmd);
    forall k | 0 <= k < |incs|
      ensures incs[k].amount.amount == 0 <==> k < z
    {
      IncrementZeroIff(cmd, k + 1);
      if 0 < cmd.cliffDuration {
        LinearShare.MulLeIffLeDiv(cmd.interval, k + 1, cmd.cliffDuration - 1);
      }
    }
    DropZeroPrefix(incs, z);
  }

  lemma {:induction false} DropZeroPrefix(s: seq<Period>, z: nat)
    requires z <= |s|
    requires forall k :: 0 <= k < |s| ==> (s[k].amount.amount == 0 <==> k < z)
    ensures DropZero(s) == s[z..]
  {
    if s != [] {
      var init := s[..|s| - 1];
      var z' := if z <= |init| then z else |init|;
      DropZeroPrefix(init, z');
      if z <= |init| {
        assert s[z..] == init[z..] + [s[|s| - 1]];
      }
    }
  }

  /** Below one token per interval a release after the cliff can round to
      zero and be skipped: with total 3 over four unit intervals and no
      cliff, the first boundary releases nothing and is left out. */
  lemma SmallTotalSkipsAfterCliff()
    ensures var cmd := GenerateCmd(3, 1, 4, 0);
      VestedCoin(cmd, 1) == 0 && cmd.cliffDuration < 1
      && Schedule(cmd) == [Period(2, Token(Denom, 1)), Period(3, Token(Denom, 1)), Period(4, Token(Denom, 1))]
  {
    var p1, p2, p3, p4 := Period(1, Token(Denom, 0)), Period(2, Token(Denom, 1)),
                          Period(3, Token(Denom, 1)), Period(4, Token(Denom, 1));
    var cmd := GenerateCmd(3, 1, 4, 0);
    assert VestedCoin(cmd, 1) == 0 by { SmallTotalCurve(); }
    assert Increments(cmd) == [p1, p2, p3, p4] by {
      forall i | 1 <= i <= 4
        ensures Increment(cmd, i) == [p1, p2, p3, p4][i - 1]
      {
        SmallTotalIncrements(i);
      }
      FourIncrements(cmd, [p1, p2, p3, p4]);
    }
    var ps := [p1, p2, p3, p4];
    assert forall k :: 0 <= k < |ps| ==> (ps[k].amount.amount == 0 <==> k < 1);
    DropZeroPrefix(ps, 1);
    assert ps[1..] == [p2, p3, p4];
  }

  lemma SmallTotalIncrements(i: nat)
    requires 1 <= i <= 4
    ensures Increment(GenerateCmd(3, 1, 4, 0), i) == Period(i, Token(Denom, if i == 1 then 0 else 1))
  {
    SmallTotalCurve();
  }

  /** A schedule of four whole intervals visits exactly these four boundaries. */
  lemma FourIncrements(cmd: GenerateCmd, ps: seq<Period>)
    requires 0 < cmd.interval && cmd.duration / cmd.interval == 4 && |ps| == 4
    requires forall i :: 1 <= i <= 4 ==> Increment(cmd, i) == ps[i - 1]
    ensures Increments(cmd) == ps
  {
    var incs := Increments(cmd);
    forall k | 0 <= k < 4
      ensures incs[k] == ps[k]
    {
      assert incs[k] == Increment(cmd, k + 1);
    }
  }

  lemma SmallTotalCurve()
    ensures var cmd := GenerateCmd(3, 1, 4, 0);
      VestedCoin(cmd, 0) == 0 && VestedCoin(cmd, 1) == 0 && VestedCoin(cmd, 2) == 1
      && VestedCoin(cmd, 3) == 2 && VestedCoin(cmd, 4) == 3
  {
  }

  /** The unit tests over two years of daily periods: 730 records without a
      cliff, 548 under a six-month cliff, each releasing 40000 in all. */
  lemma BuildPeriodsUnitTests()
    ensures var s := Schedule(GenerateCmd(40000, 86400, 63072000, 0));
      |s| == 730 && TotalAmount(s) == 40000
    ensures var s := Schedule(GenerateCmd(40000, 86400, 63072000, 15768000));
      |s| == 548 && TotalAmount(s) == 40000
  {
    ScheduleSkipsOnlyBeforeCliff(GenerateCmd(40000, 86400, 63072000, 0));
    ScheduleSkipsOnlyBeforeCliff(GenerateCmd(40000, 86400, 63072000, 15768000));
    ScheduleConserves(GenerateCmd(40000, 86400, 63072000, 0));
    ScheduleConserves(GenerateCmd(40000, 86400, 63072000, 15768000));
  }
}
