/** The time a frame is given, and the rounding it leaves for the next one (BeefySysLib/BFApp.cpp). */
module FramePacing {

  /**
   * One pass: the time since the last wake and the refresh period, both in milliseconds;
   * whether the frame is paced by a display, and whether that display woke it.
   */
  datatype Pass = Pass(elapsed: real, period: real, paced: bool, woken: bool)

  predicate PassOk(p: Pass, longest: real) {
    p.elapsed >= 0.0 && 0.0 < p.period <= longest && (p.woken ==> p.paced)
  }

  // n periods.
  function Times(n: int, period: real): real
    decreases if n < 0 then -n else n
  {
    if n == 0 then 0.0
    else if n > 0 then Times(n - 1, period) + period
    else Times(n + 1, period) - period
  }

  lemma {:induction false} TimesIsProduct(n: int, period: real)
    ensures Times(n, period) == n as real * period
    decreases if n < 0 then -n else n
  {
    if n > 0 {
      TimesIsProduct(n - 1, period);
      OneMore(n - 1, period);
    } else if n < 0 {
      TimesIsProduct(n + 1, period);
      OneMore(n, period);
    }
  }

  lemma OneMore(n: int, x: real)
    ensures (n + 1) as real * x == n as real * x + x
  {
  }

  // The number of periods nearest to a time, counted off one by one; halves go up.
  function Nearest(due: real, period: real): int
    requires period > 0.0
    decreases CountDown(due, period)
  {
    if due >= period / 2.0 then
      OnePeriod(due - period, period); Halves(due, period);
      Nearest(due - period, period) + 1
    else if due < -period / 2.0 then
      OnePeriod(due, period); Halves(due, period);
      Nearest(due + period, period) - 1
    else 0
  }

  function CountDown(due: real, period: real): int
    requires period > 0.0
  {
    if due >= period / 2.0 then (due / period + 0.5).Floor
    else if due < -period / 2.0 then -((due / period + 0.5).Floor)
    else 0
  }

  lemma Undivided(a: real, b: real)
    requires b > 0.0
    ensures a / b * b == a
  {
  }

  lemma Cancelled(a: real, b: real, c: real)
    requires c > 0.0 && a * c == b * c
    ensures a == b
  {
    if a < b { Scaled(a, b, c); }
    if b < a { Scaled(b, a, c); }
  }

  lemma Scaled(a: real, b: real, c: real)
    requires a < b && c > 0.0
    ensures a * c < b * c
  {
  }

  lemma Spread(a: real, b: real, c: real)
    ensures (a + b) * c == a * c + b * c
  {
  }

  // One period more is one more in the quotient.
  lemma OnePeriod(due: real, period: real)
    requires period > 0.0
    ensures (due + period) / period == due / period + 1.0
  {
    Undivided(due, period);
    Undivided(due + period, period);
    Spread(due / period, 1.0, period);
    Cancelled((due + period) / period, due / period + 1.0, period);
  }

  // Half a period is half of one in the quotient.
  lemma Halves(due: real, period: real)
    requires period > 0.0
    ensures due >= period / 2.0 <==> due / period >= 0.5
    ensures due < -period / 2.0 <==> due / period < -0.5
  {
    var q := due / period;
    Undivided(due, period);
    HalfAtMost(q, 0.5, period);
    HalfAtMost(q, -0.5, period);
  }

  lemma HalfAtMost(q: real, h: real, period: real)
    requires period > 0.0
    ensures q >= h <==> q * period >= h * period
  {
    if q < h { Scaled(q, h, period); }
    if h < q { Scaled(h, q, period); }
  }

  // Counting off agrees with the rounding of the quotient.
  lemma {:induction false} NearestIsFloor(due: real, period: real)
    requires period > 0.0
    ensures Nearest(due, period) == (due / period + 0.5).Floor
    decreases CountDown(due, period)
  {
    Halves(due, period);
    if due >= period / 2.0 {
      OnePeriod(due - period, period);
      NearestIsFloor(due - period, period);
    } else if due < -period / 2.0 {
      OnePeriod(due, period);
      NearestIsFloor(due + period, period);
    }
  }

  // The periods a paced frame is given: the nearest whole number, at least one if woken.
  function Refreshes(due: real, p: Pass): int
    requires p.period > 0.0
  {
    if Nearest(due, p.period) < 1 && p.woken then 1 else Nearest(due, p.period)
  }

  // The time handed to a frame when err was left over before it.
  function Advance(err: real, p: Pass): real
    requires p.period > 0.0
  {
    var due := err + p.elapsed;
    if p.paced then Times(Refreshes(due, p), p.period) else due
  }

  // What is left over after it, before and after fading.
  function Left(err: real, p: Pass): real
    requires p.period > 0.0
  {
    err + p.elapsed - Advance(err, p)
  }

  function Carried(err: real, p: Pass): real
    requires p.period > 0.0
  {
    if p.paced && Advance(err, p) == p.period then Left(err, p) * 0.98 else Left(err, p)
  }

  // The carried error stays within these bounds.
  predicate ErrorOk(err: real, longest: real) {
    -49.0 * longest <= err < longest / 2.0
  }

  lemma {:induction false} NearestSign(due: real, period: real)
    requires period > 0.0
    ensures due >= -period / 2.0 ==> Nearest(due, period) >= 0
    ensures due < period / 2.0 ==> Nearest(due, period) <= 0
    decreases CountDown(due, period)
  {
    Halves(due, period);
    if due >= period / 2.0 {
      OnePeriod(due - period, period);
      NearestSign(due - period, period);
    } else if due < -period / 2.0 {
      OnePeriod(due, period);
      NearestSign(due + period, period);
    }
  }

  // Rounding to whole periods leaves at most half a period either way.
  lemma {:induction false} NearestLeaves(due: real, period: real)
    requires period > 0.0
    ensures -period / 2.0 <= due - Times(Nearest(due, period), period) < period / 2.0
    ensures Nearest(due, period) < 1 <==> due < period / 2.0
    decreases if Nearest(due, period) < 0 then -Nearest(due, period) else Nearest(due, period)
  {
    if due >= period / 2.0 {
      NearestSign(due - period, period);
      NearestLeaves(due - period, period);
    } else if due < -period / 2.0 {
      NearestSign(due + period, period);
      NearestLeaves(due + period, period);
      TimesNext(Nearest(due, period), period);
    }
  }

  lemma TimesNext(n: int, period: real)
    ensures Times(n + 1, period) == Times(n, period) + period
  {
  }

  lemma {:induction false} TimesAtLeast(n: nat, period: real)
    requires period > 0.0
    ensures Times(n, period) >= 0.0
    ensures n > 0 ==> Times(n, period) >= period
  {
    if n > 0 { TimesAtLeast(n - 1, period); }
  }

  /** One pass keeps the error within bounds, and a woken frame gets at least one refresh. */
  lemma PassKeepsBounds(err: real, p: Pass, longest: real)
    requires ErrorOk(err, longest) && PassOk(p, longest)
    ensures ErrorOk(Carried(err, p), longest)
    ensures p.woken ==> Advance(err, p) >= p.period
  {
    if p.paced {
      var due := err + p.elapsed;
      NearestLeaves(due, p.period);
      if p.woken && Nearest(due, p.period) >= 1 { TimesAtLeast(Nearest(due, p.period), p.period); }
      TimesNext(0, p.period);
    }
  }

  // ----- whole runs -----

  predicate RunOk(run: seq<Pass>, longest: real) {
    forall i :: 0 <= i < |run| ==> PassOk(run[i], longest)
  }

  predicate Timed(run: seq<Pass>) {
    forall i :: 0 <= i < |run| ==> PassOk(run[i], run[i].period)
  }

  // The error after a run that starts with none.
  function Error(run: seq<Pass>): real
    requires Timed(run)
  {
    if run == [] then 0.0 else Carried(Error(run[..|run| - 1]), run[|run| - 1])
  }

  lemma RunGrows(run: seq<Pass>, p: Pass)
    requires Timed(run) && PassOk(p, p.period)
    ensures Timed(run + [p]) && Error(run + [p]) == Carried(Error(run), p)
  {
    assert (run + [p])[..|run|] == run;
  }

  function Elapsed(run: seq<Pass>): real {
    if run == [] then 0.0 else Elapsed(run[..|run| - 1]) + run[|run| - 1].elapsed
  }

  function HandedOut(run: seq<Pass>): real
    requires Timed(run)
  {
    if run == [] then 0.0
    else HandedOut(run[..|run| - 1]) + Advance(Error(run[..|run| - 1]), run[|run| - 1])
  }

  // What the fade dropped.
  function Faded(run: seq<Pass>): real
    requires Timed(run)
  {
    if run == [] then 0.0
    else
      var err, p := Error(run[..|run| - 1]), run[|run| - 1];
      Faded(run[..|run| - 1])
        + if p.paced && Advance(err, p) == p.period then 0.02 * Left(err, p) else 0.0
  }

  /** Every run from the start keeps the error between -49 periods and half a period. */
  lemma {:induction false} ErrorBounded(run: seq<Pass>, longest: real)
    requires RunOk(run, longest) && longest > 0.0
    ensures Timed(run) && ErrorOk(Error(run), longest)
  {
    if run != [] {
      ErrorBounded(run[..|run| - 1], longest);
      assert PassOk(run[|run| - 1], longest);
      PassKeepsBounds(Error(run[..|run| - 1]), run[|run| - 1], longest);
    }
  }

  /** No time is lost or made up: what was not handed out is carried or was faded away. */
  lemma {:induction false} TimeConserved(run: seq<Pass>)
    requires Timed(run)
    ensures HandedOut(run) + Error(run) + Faded(run) == Elapsed(run)
  {
    if run != [] { TimeConserved(run[..|run| - 1]); }
  }

  /** So, but for the fade, the handed-out time is behind the clock by less than half a period and ahead by at most 49. */
  lemma HandedOutTracksClock(run: seq<Pass>, longest: real)
    requires RunOk(run, longest) && longest > 0.0
    ensures Timed(run)
    ensures -longest / 2.0 < HandedOut(run) + Faded(run) - Elapsed(run) <= 49.0 * longest
  {
    ErrorBounded(run, longest);
    TimeConserved(run);
  }

  // ----- the bound is tight -----

  // How far above -49 periods the error is after n of the frames below: less each time.
  function Gap(n: nat, period: real): real {
    if n == 0 then 49.0 * period else 0.98 * Gap(n - 1, period)
  }

  function EarlyWakes(n: nat, period: real): (run: seq<Pass>)
    ensures |run| == n
  {
    if n == 0 then [] else EarlyWakes(n - 1, period) + [Pass(0.0, period, true, true)]
  }

  /** Frames woken at once are handed refreshes that have not passed: the error falls towards -49 periods. */
  lemma {:induction false} EarlyWakesOverdraw(n: nat, period: real)
    requires period > 0.0
    ensures 0.0 < Gap(n, period) <= 49.0 * period
    ensures RunOk(EarlyWakes(n, period), period)
    ensures Timed(EarlyWakes(n, period))
    ensures Error(EarlyWakes(n, period)) == Gap(n, period) - 49.0 * period
  {
    if n > 0 {
      EarlyWakesOverdraw(n - 1, period);
      RunGrows(EarlyWakes(n - 1, period), Pass(0.0, period, true, true));
      EarlyWake(Gap(n - 1, period) - 49.0 * period, period);
    }
  }

  // A frame woken at once while nothing is owed takes one whole period.
  lemma EarlyWake(err: real, period: real)
    requires period > 0.0 && err <= 0.0
    ensures Carried(err, Pass(0.0, period, true, true)) == 0.98 * (err - period)
  {
    NearestLeaves(err, period);
    TimesNext(0, period);
  }

  /**
   * A frame is handed negative time exactly when nothing woke it and, if it is paced, more than half a
   * period is owed, or, if it is not, anything is.
   */
  lemma NegativeTime(err: real, p: Pass)
    requires p.period > 0.0 && (p.woken ==> p.paced)
    ensures Advance(err, p) < 0.0
            <==> !p.woken && err + p.elapsed < if p.paced then -p.period / 2.0 else 0.0
  {
    if p.paced {
      var n := Refreshes(err + p.elapsed, p);
      NearestSign(err + p.elapsed, p.period);
      NearestLeaves(err + p.elapsed, p.period);
      TimesSign(n, p.period);
    }
  }

  lemma {:induction false} TimesSign(n: int, period: real)
    requires period > 0.0
    ensures Times(n, period) < 0.0 <==> n < 0
    ensures n < 0 ==> Times(n, period) <= -period
    decreases if n < 0 then -n else n
  {
    if n > 0 {
      TimesSign(n - 1, period);
    } else if n < 0 {
      TimesSign(n + 1, period);
    }
  }

  /**
   * Six frames woken at once, then a wait that times out after four periods and a millisecond: the
   * last frame is handed negative time, at every period of a millisecond or more.
   */
  lemma OverdrawnTimeout(period: real)
    requires period >= 1.0
    ensures var run, p := EarlyWakes(6, period), Pass(4.0 * period + 1.0, period, true, false);
            RunOk(run + [p], period) && Timed(run) && Advance(Error(run), p) < 0.0
  {
    var run, p := EarlyWakes(6, period), Pass(4.0 * period + 1.0, period, true, false);
    EarlyWakesOverdraw(6, period);
    assert Gap(3, period) == 0.98 * Gap(2, period) == 0.98 * 0.98 * Gap(1, period) == 0.98 * 0.98 * 0.98 * 49.0 * period;
    assert Gap(6, period) == 0.98 * Gap(5, period) == 0.98 * 0.98 * Gap(4, period) == 0.98 * 0.98 * 0.98 * Gap(3, period);
    NegativeTime(Error(run), p);
  }

  // Every wait that timed out lasted half a period at least.
  predicate LongTimeouts(run: seq<Pass>) {
    forall i :: 0 <= i < |run| && run[i].paced && !run[i].woken ==> run[i].elapsed >= run[i].period / 2.0
  }

  /** Then single frames may be handed negative time, but never a whole run. */
  lemma {:induction false} HandedOutNotNegative(run: seq<Pass>)
    requires Timed(run) && LongTimeouts(run)
    ensures HandedOut(run) >= 0.0 && HandedOut(run) + Error(run) >= 0.0
  {
    if run != [] {
      var init, p := run[..|run| - 1], run[|run| - 1];
      HandedOutNotNegative(init);
      assert PassOk(p, p.period);
      PassNotNegative(HandedOut(init), Error(init), p);
    }
  }

  lemma PassNotNegative(handed: real, err: real, p: Pass)
    requires handed >= 0.0 && handed + err >= 0.0 && PassOk(p, p.period)
    requires p.paced && !p.woken ==> p.elapsed >= p.period / 2.0
    ensures handed + Advance(err, p) >= 0.0 && handed + Advance(err, p) + Carried(err, p) >= 0.0
  {
    if p.paced {
      NearestLeaves(err + p.elapsed, p.period);
      TimesSign(Refreshes(err + p.elapsed, p), p.period);
    }
  }

  /** Without that, a wait that ends at once after the period has grown hands back more than was handed out. */
  lemma ShortTimeout()
    ensures var run := [Pass(0.0, 10.0, true, true), Pass(0.0, 18.0, true, false)];
      Timed(run) && HandedOut(run) == -8.0
  {
    var first, second := Pass(0.0, 10.0, true, true), Pass(0.0, 18.0, true, false);
    var run := [first, second];
    assert run[..1] == [first] && [first][..0] == [];
    NearestLeaves(0.0, 10.0);
    TimesNext(0, 10.0);
    assert Error([]) == 0.0 && Advance(0.0, first) == 10.0;
    assert Error([first]) == Carried(0.0, first) == -9.8;
    assert Nearest(-9.8, 18.0) == -1;
    TimesNext(-1, 18.0);
    assert Advance(-9.8, second) == -18.0;
    assert HandedOut([first]) == HandedOut([]) + 10.0;
  }
}
