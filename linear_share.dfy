/** Facts about the truncated linear share `total * time / duration` that both
    vesting curves use between the cliff and the end of the vesting duration. */
module LinearShare {

  /** The truncated linear share of `total` after `time` of `duration` seconds:
      the largest amount whose proportion of the total does not exceed the
      elapsed proportion of the duration. */
  function Share(total: nat, time: nat, duration: nat): (r: nat)
    requires time < duration
    ensures r <= total
  {
    ShareBelowTotal(total, time, duration);
    total * time / duration
  }

  lemma MulMonotone(m: nat, a: nat, b: nat)
    requires a <= b
    ensures m * a <= m * b
  {
    assert m * b == m * a + m * (b - a);
  }

  lemma DivMonotone(a: nat, b: nat, d: nat)
    requires a <= b && 0 < d
    ensures a / d <= b / d
  {
    if a / d > b / d {
      MulMonotone(d, b / d + 1, a / d);
      assert false;
    }
  }

  /** A multiple of `d` leaves no remainder. */
  lemma MultipleMod(d: nat, x: nat)
    requires 0 < d
    ensures (d * x) % d == 0
  {
    var q := d * x / d;
    if q < x {
      MulMonotone(d, q + 1, x);
    } else if q > x {
      MulMonotone(d, x + 1, q);
    }
  }

  /** For a positive divisor, `d * q <= n` exactly when `q <= n / d`. */
  lemma MulLeIffLeDiv(d: nat, q: nat, n: nat)
    requires 0 < d
    ensures d * q <= n <==> q <= n / d
  {
    assert n == d * (n / d) + n % d;
    if q <= n / d {
      MulMonotone(d, q, n / d);
    } else {
      MulMonotone(d, n / d + 1, q);
      assert d * (n / d + 1) == d * (n / d) + d;
    }
  }

  /** Division is determined by the quotient and remainder it must produce. */
  lemma DivUnique(n: nat, d: nat, q: nat, r: nat)
    requires r < d && n == d * q + r
    ensures n / d == q
  {
    MulLeIffLeDiv(d, q, n);
    MulLeIffLeDiv(d, q + 1, n);
    assert d * (q + 1) == d * q + d;
  }

  /** One less than a positive `n` has the same quotient, unless `n` is a multiple of `d`. */
  lemma DivOfPredecessor(n: nat, d: nat)
    requires 0 < n && 0 < d
    ensures (n - 1) / d == if n % d == 0 then n / d - 1 else n / d
  {
    var q, r := n / d, n % d;
    assert n == d * q + r;
    if r == 0 {
      assert 0 < q;
      assert d * q == d * (q - 1) + d;
      DivUnique(n - 1, d, q - 1, d - 1);
    } else {
      DivUnique(n - 1, d, q, r - 1);
    }
  }

  /** The share is the floor of the exact quotient. */
  lemma ShareIsFloor(total: nat, time: nat, duration: nat)
    requires 0 < duration
    ensures (total * time / duration) * duration <= total * time < (total * time / duration + 1) * duration
  {
    var n, q := total * time, total * time / duration;
    assert n == duration * q + n % duration;
    assert (q + 1) * duration == q * duration + duration;
  }

  /** Before the end of the duration the share is strictly below the total,
      unless the total is zero. */
  lemma ShareBelowTotal(total: nat, time: nat, duration: nat)
    requires time < duration
    ensures total * time / duration <= total
    ensures 0 < total ==> total * time / duration < total
  {
    if 0 < total {
      MulMonotone(total, time, duration - 1);
      assert total * (duration - 1) == total * duration - total;
      assert total * time < total * duration;
      MulLeIffLeDiv(duration, total, total * time);
      assert duration * total == total * duration;
    }
  }

  lemma ShareMonotone(total: nat, t1: nat, t2: nat, duration: nat)
    requires t1 <= t2 && 0 < duration
    ensures total * t1 / duration <= total * t2 / duration
  {
    MulMonotone(total, t1, t2);
    DivMonotone(total * t1, total * t2, duration);
  }

  /** When one step of `step` seconds is worth at least one unit
      (`total * step >= duration`), the share grows by at least one unit per step. */
  lemma ShareStep(total: nat, time: nat, step: nat, duration: nat)
    requires 0 < duration && duration <= total * step
    ensures total * time / duration + 1 <= total * (time + step) / duration
  {
    var a := total * time;
    assert total * (time + step) == a + total * step;
    DivMonotone(a + duration, a + total * step, duration);
    assert a == duration * (a / duration) + a % duration;
    assert a + duration == duration * (a / duration + 1) + a % duration;
  }

  /** A positive total vests at least one unit once one step has elapsed. */
  lemma ShareAfterOneStep(total: nat, time: nat, step: nat, duration: nat)
    requires 0 < duration && duration <= total * step && step <= time
    ensures 1 <= total * time / duration
  {
    ShareStep(total, 0, step, duration);
    ShareMonotone(total, step, time, duration);
  }
}
