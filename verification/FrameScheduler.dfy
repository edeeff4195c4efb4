/** One frame at a time: waiting, message pumping, catch-up updates, drawing (BeefySysLib/BFApp.cpp). */
module FrameScheduler {
  import opened FramePacing

  // ----- the catch-up arithmetic -----

  // A cast to int drops the fraction.
  function Trunc(x: real): int {
    if x >= 0.0 then x.Floor else -((-x).Floor)
  }

  // The client's count after a full update.
  function Bumped(client: real): real {
    Trunc(client) as real + 1.000001
  }

  // A cast rounds a negative count up, a floor rounds it down.
  lemma TruncIsFloor(x: real)
    ensures Trunc(x) == if x >= 0.0 || x == x.Floor as real then x.Floor else x.Floor + 1
  {
  }

  lemma FloorOfWhole(n: int, part: real)
    requires 0.0 <= part < 1.0
    ensures (n as real + part).Floor == n
  {
  }

  /** A full update raises the floor of the count by one, or by two from a negative count with a fraction. */
  lemma BumpRaisesFloor(client: real)
    ensures Bumped(client).Floor == client.Floor + 1 <==> client >= 0.0 || client == client.Floor as real
    ensures Bumped(client).Floor <= client.Floor + 2
    ensures client >= 0.0 ==> Bumped(client) >= 0.0
  {
    FloorOfWhole(Trunc(client) + 1, 0.000001);
    TruncIsFloor(client);
  }

  // The full updates it takes to come level with the target.
  function Rounds(client: real, target: real): nat
    decreases Trunc(target) - Trunc(client)
  {
    if Trunc(client) < Trunc(target) then
      BumpRises(client);
      1 + Rounds(Bumped(client), target)
    else 0
  }

  lemma BumpRises(client: real)
    ensures Trunc(Bumped(client)) == Trunc(client) + if Trunc(client) >= -1 then 1 else 2
  {
    FloorOfWhole(Trunc(client) + 1, 0.000001);
    TruncIsFloor(Bumped(client));
  }

  // The whole counts the client is behind.
  function Behind(client: real, target: real): nat {
    if Trunc(client) < Trunc(target) then Trunc(target) - Trunc(client) else 0
  }

  /** One update for each whole count behind, unless more than one is missing from -2 or below. */
  lemma {:induction false} RoundsAreCountsBehind(client: real, target: real)
    ensures Rounds(client, target) <= Behind(client, target)
    ensures Rounds(client, target) == Behind(client, target)
            <==> Trunc(client) >= -1 || Behind(client, target) <= 1
    decreases Behind(client, target)
  {
    if Trunc(client) < Trunc(target) {
      BumpRises(client);
      RoundsAreCountsBehind(Bumped(client), target);
    }
  }

  // The client's count after k full updates.
  function Bumps(client: real, k: nat): real {
    if k == 0 then client else Bumped(Bumps(client, k - 1))
  }

  /** From a count that is not negative, k full updates raise the floor by exactly k. */
  lemma {:induction false} BumpsRaiseFloor(client: real, k: nat)
    requires client >= 0.0
    ensures Bumps(client, k) >= 0.0 && Bumps(client, k).Floor == client.Floor + k
  {
    if k > 0 {
      BumpsRaiseFloor(client, k - 1);
      BumpRaisesFloor(Bumps(client, k - 1));
    }
  }

  // More than half a second behind, the client just follows.
  function Synced(client: real, target: real, rate: real): real {
    if target - client > rate / 2.0 then target - 1.0 else client
  }

  /** Following turns a count negative exactly when it takes place and the target is below one. */
  lemma SyncedNegative(client: real, target: real, rate: real)
    requires client >= 0.0
    ensures Synced(client, target, rate) < 0.0 <==> target - client > rate / 2.0 && target < 1.0
  {
  }

  /** There are such counts exactly below two refreshes a second. */
  lemma SyncedNotNegative(rate: real)
    ensures (forall client: real, target: real | client >= 0.0 :: Synced(client, target, rate) >= 0.0) <==> rate >= 2.0
  {
    if rate < 2.0 {
      var target := if rate < 0.0 then 0.5 else (rate / 2.0 + 1.0) / 2.0;
      assert Synced(0.0, target, rate) < 0.0;
    }
  }

  // ----- which runs skip a count -----

  /** One frame of the catch-up: its target and refresh rate, its full updates, and whether it ends with a partial one. */
  datatype Turn = Turn(target: real, rate: real, full: nat, partial: bool)

  // What a frame may do from a count: follow, make some of the updates it takes, and take on the fraction left over.
  predicate TurnOk(client: real, t: Turn) {
    var start := Synced(client, t.target, t.rate);
    && t.rate > 0.0 && t.target >= 0.0 && t.full <= Rounds(start, t.target)
    && (t.partial ==> t.target > Bumps(start, t.full))
  }

  function ClientAfter(client: real, t: Turn): real {
    if t.partial then t.target else Bumps(Synced(client, t.target, t.rate), t.full)
  }

  // The client's count after a run of frames from zero.
  function Client(run: seq<Turn>): real {
    if run == [] then 0.0 else ClientAfter(Client(run[..|run| - 1]), run[|run| - 1])
  }

  predicate RunOfTurns(run: seq<Turn>) {
    run == [] || (RunOfTurns(run[..|run| - 1]) && TurnOk(Client(run[..|run| - 1]), run[|run| - 1]))
  }

  // An update of a frame from this count raises the floor by other than one.
  predicate Skips(client: real, target: real, rate: real, k: nat) {
    var start := Synced(client, target, rate);
    k < Rounds(start, target) && Bumps(start, k + 1).Floor != Bumps(start, k).Floor + 1
  }

  /** From -1 on, k updates bring the count to 0 or above, and each of them but the first raises the floor by one. */
  lemma {:induction false} BumpsFromMinusOne(start: real, k: nat)
    requires start >= -1.0
    ensures Bumps(start, k) >= -1.0 && (k > 0 ==> Bumps(start, k) >= 0.0)
    ensures Bumps(start, k + 1).Floor != Bumps(start, k).Floor + 1 <==> k == 0 && -1.0 < start < 0.0
  {
    if k > 0 { BumpsFromMinusOne(start, k - 1); }
    BumpRaisesFloor(Bumps(start, k));
    TruncIsFloor(Bumps(start, k));
    FloorOfWhole(Trunc(Bumps(start, k)) + 1, 0.000001);
    if k == 0 && -1.0 < start < 0.0 { assert start != start.Floor as real; }
  }

  /** Following keeps the count at -1 or above, and then it takes one update for each whole count behind. */
  lemma FollowedCount(client: real, target: real, rate: real)
    requires rate > 0.0 && target >= 0.0 && client >= -1.0
    ensures var start := Synced(client, target, rate);
      start >= -1.0 && Rounds(start, target) == Behind(start, target)
  {
    var start := Synced(client, target, rate);
    TruncIsFloor(start);
    RoundsAreCountsBehind(start, target);
  }

  /**
   * Exactly when a frame skips a count: the client was left between -1 and 0 by an earlier frame, the
   * target has got to one, and is not far enough ahead to be followed. Only the first update skips.
   */
  lemma SkipsExactly(client: real, target: real, rate: real)
    requires rate > 0.0 && target >= 0.0 && client >= -1.0
    ensures (exists k: nat :: Skips(client, target, rate, k))
      <==> -1.0 < client < 0.0 && target >= 1.0 && target - client <= rate / 2.0
  {
    var start := Synced(client, target, rate);
    FollowedCount(client, target, rate);
    TruncIsFloor(start);
    TruncIsFloor(target);
    forall k: nat ensures Skips(client, target, rate, k) ==> k == 0 && -1.0 < start < 0.0 {
      BumpsFromMinusOne(start, k);
    }
    BumpsFromMinusOne(start, 0);
    if -1.0 < client < 0.0 && target >= 1.0 && target - client <= rate / 2.0 {
      assert Skips(client, target, rate, 0);
    }
  }

  /** In every run the client stays at -1 or above, at zero or above when all rates are at least two. */
  lemma {:induction false} ClientBounded(run: seq<Turn>)
    requires RunOfTurns(run)
    ensures Client(run) >= -1.0
    ensures (forall t | t in run :: t.rate >= 2.0) ==> Client(run) >= 0.0
  {
    if run != [] {
      var init, t := run[..|run| - 1], run[|run| - 1];
      var start := Synced(Client(init), t.target, t.rate);
      ClientBounded(init);
      assert t in run && forall u | u in init :: u in run;
      FollowedCount(Client(init), t.target, t.rate);
      BumpsFromMinusOne(start, t.full);
      if Client(init) >= 0.0 && t.rate >= 2.0 { BumpsRaiseFloor(start, t.full); }
    }
  }

  /** So in every run a frame takes one update for each whole count it is behind. */
  lemma OneUpdateACount(run: seq<Turn>, target: real, rate: real)
    requires RunOfTurns(run) && rate > 0.0 && target >= 0.0
    ensures var start := Synced(Client(run), target, rate); Rounds(start, target) == Behind(start, target)
  {
    ClientBounded(run);
    FollowedCount(Client(run), target, rate);
  }

  /** A skip takes a frame below two refreshes a second and a later one above two. */
  lemma SkipTakesBothRates(run: seq<Turn>, target: real, rate: real, k: nat)
    requires RunOfTurns(run) && rate > 0.0 && target >= 0.0 && Skips(Client(run), target, rate, k)
    ensures rate > 2.0 && exists t :: t in run && t.rate < 2.0
  {
    ClientBounded(run);
    SkipsExactly(Client(run), target, rate);
  }

  /** So at one rate no update of any run skips a count. */
  lemma OneRateNeverSkips(run: seq<Turn>, target: real, rate: real, k: nat)
    requires RunOfTurns(run) && (forall t | t in run :: t.rate == rate) && rate > 0.0 && target >= 0.0
    ensures !Skips(Client(run), target, rate, k)
  {
    if Skips(Client(run), target, rate, k) { SkipTakesBothRates(run, target, rate, k); }
  }

  /** When the rate rises from one to sixty between two frames, the second frame's update skips a count. */
  lemma RisingRateSkips()
    ensures var run := [Turn(0.6, 1.0, 0, false)];
      RunOfTurns(run) && Client(run) == -0.4 && Skips(Client(run), 1.2, 60.0, 0)
      && TurnOk(Client(run), Turn(1.2, 60.0, 1, false))
  {
    var run := [Turn(0.6, 1.0, 0, false)];
    assert run[..0] == [];
    assert Client(run) == Bumps(Synced(0.0, 0.6, 1.0), 0) == -0.4;
    SkipsExactly(-0.4, 1.2, 60.0);
    FollowedCount(-0.4, 1.2, 60.0);
    TruncIsFloor(-0.4);
    TruncIsFloor(1.2);
    BumpsFromMinusOne(-0.4, 0);
  }

  // The updates one frame may make: the limit is looked at only after the first.
  function UpdateLimit(slowStart: int, perDraw: int): int {
    AtLeastOne(Min(slowStart + 1, perDraw))
  }

  /** The limit is the smaller of both settings exactly when that is one at least. */
  lemma UpdateLimitExact(slowStart: int, perDraw: int)
    ensures UpdateLimit(slowStart, perDraw) <= Min(slowStart + 1, perDraw) <==> Min(slowStart + 1, perDraw) >= 1
    ensures UpdateLimit(0, 0) == 1 > Min(0 + 1, 0)
  {
  }

  function AtLeastOne(n: int): nat { if n < 1 then 1 else n }

  function Max(a: real, b: real): real { if a > b then a else b }

  // Whether frames split ticks: unthrottled ones do, paced ones when the rates are a tenth apart.
  predicate SplitsTicks(s: Settings, rate: real) {
    s.refreshRate != 0
    && (s.unthrottled || Abs(rate - s.refreshRate as real) / s.refreshRate as real > 0.1)
  }

  function Abs(x: real): real { if x < 0.0 then -x else x }

  /** A paced frame splits ticks exactly when the display's rate is more than a tenth off the refresh rate, either way. */
  lemma SplitsATenthOff(s: Settings, rate: real)
    requires !s.unthrottled
    ensures s.refreshRate > 0 ==>
      (SplitsTicks(s, rate) <==> rate < 0.9 * s.refreshRate as real || rate > 1.1 * s.refreshRate as real)
    ensures s.refreshRate <= 0 ==> !SplitsTicks(s, rate)
  {
    if s.refreshRate != 0 {
      var refresh, off := s.refreshRate as real, Abs(rate - s.refreshRate as real);
      if s.refreshRate > 0 {
        QuotientAbove(off, refresh, 0.1);
      } else {
        NegatedQuotient(off, refresh);
      }
    }
  }

  lemma QuotientAbove(a: real, b: real, h: real)
    requires b > 0.0
    ensures a / b > h <==> a > h * b
  {
    var q := a / b;
    Undivided(a, b);
    HalfAtMost(h, q, b);
  }

  lemma NegatedQuotient(a: real, b: real)
    requires a >= 0.0 && b < 0.0
    ensures a / b <= 0.0
  {
  }

  predicate PartialAmount(s: Settings, amount: real) {
    (if s.unthrottled then 0.001 else 0.05) < amount < 1.0
  }

  /** A twentieth of an update is too little for a partial one, but enough when nothing throttles; a whole is too much. */
  lemma PartialAmounts(s: Settings, amount: real)
    ensures amount >= 1.0 || amount <= 0.001 ==> !PartialAmount(s, amount)
    ensures 0.001 < amount <= 0.05 ==> (PartialAmount(s, amount) <==> s.unthrottled)
    ensures 0.05 < amount < 1.0 ==> PartialAmount(s, amount)
  {
  }

  function Min(a: int, b: int): int { if a < b then a else b }

  // The application goes on for this many updates at least, when it stops after one of them.
  function UntilStopped(stopsAt: nat, n: nat): nat {
    if stopsAt == 0 then n else Min(stopsAt, n)
  }

  // ----- calls and events -----

  /** What a call finds set: refresh rates (zero when there is none), the waits in use, the limits. */
  datatype Settings = Settings(
    windowRate: real, pacerRate: real, unthrottled: bool, framePacer: bool, externalPacing: bool,
    windowPacer: bool, vsync: bool, refreshRate: int, maxUpdatesPerDraw: int)

  /**
   * One call of Process: the calls made while it waits, while it pumps messages and from its
   * updates and draw; whether its wait was signaled, the microseconds since the last frame's
   * wake, and after which of its updates the app stops (0 for none).
   */
  datatype Call = Call(
    settings: Settings, inWait: seq<Call>, inPump: seq<Call>, inBody: seq<Call>,
    signaled: bool, slept: nat, stopsAt: nat)

  function PhysRefreshRate(s: Settings): (rate: real)
    ensures rate > 0.0
  {
    var rate := if s.framePacer && s.pacerRate > 0.0 then s.pacerRate else s.windowRate;
    if rate <= 0.0 then 60.0 else rate
  }

  /** The pacer's rate counts before the window's, and 60 stands in when neither is known. */
  lemma RateOfDisplay(s: Settings)
    ensures s.framePacer && s.pacerRate > 0.0 ==> PhysRefreshRate(s) == s.pacerRate
    ensures !s.framePacer && s.windowRate > 0.0 ==> PhysRefreshRate(s) == s.windowRate
    ensures s.pacerRate <= 0.0 ==> PhysRefreshRate(s) == PhysRefreshRate(s.(framePacer := false))
    ensures !s.framePacer && s.windowRate <= 0.0 ==> PhysRefreshRate(s) == 60.0
  {
  }

  function TicksPerFrame(s: Settings): (ticks: real)
    ensures ticks > 0.0
  {
    if s.refreshRate > 0 then 1000.0 / s.refreshRate as real else 1.0
  }

  // A count rises by so much in a time in milliseconds: by the refresh rate in a second, and without one by one in a
  // millisecond.
  ghost predicate Counts(rise: real, time: real, refreshRate: int) {
    if refreshRate > 0 then rise * 1000.0 == time * refreshRate as real else rise == time
  }

  /** Dividing by the milliseconds of a count gives the counts of a time. */
  lemma CountsOf(time: real, s: Settings)
    ensures Counts(time / TicksPerFrame(s), time, s.refreshRate)
  {
    if s.refreshRate > 0 {
      var rate := s.refreshRate as real;
      var ticks := 1000.0 / rate;
      Undivided(1000.0, rate);
      Undivided(time, ticks);
      Grouped(time / ticks, ticks, rate);
    }
  }

  lemma Grouped(a: real, b: real, c: real)
    ensures a * b * c == a * (b * c)
  {
  }

  /** Rises and times add up. */
  lemma CountsAdd(rise: real, time: real, more: real, moreTime: real, refreshRate: int)
    requires Counts(rise, time, refreshRate) && Counts(more, moreTime, refreshRate)
    ensures Counts(rise + more, time + moreTime, refreshRate)
  {
    Spread(rise, more, 1000.0);
    Spread(time, moreTime, refreshRate as real);
  }

  // A number of periods went from the accumulator to the count, and less than one was left.
  ghost predicate SteppedOut(steps: nat, timeAdvance: real, s: Settings,
                             count: real, count': real, acc: real, acc': real)
  {
    var period := 1000.0 / PhysRefreshRate(s);
    Counts(count' - count, Times(steps, period), s.refreshRate)
    && acc' + Times(steps, period) == Max(acc, 0.001) + timeAdvance
    && acc' < period && (steps > 0 ==> acc' >= 0.0)
  }

  // The time went to the count, at once or by way of the accumulator.
  ghost predicate Given(timeAdvance: real, s: Settings, whole: bool,
                        count: real, count': real, acc: real, acc': real)
  {
    if whole then Counts(count' - count, timeAdvance, s.refreshRate) && acc' == acc
    else exists steps: nat :: SteppedOut(steps, timeAdvance, s, count, count', acc, acc')
  }

  datatype Event = Enter | Update | PartialUpdate | Idle | Draw | Leave

  // Whether a frame is open; Overlap once a frame starts in another or something happens outside.
  datatype Progress = Outside | Inside | Overlap

  function Next(at: Progress, e: Event): Progress {
    match e
    case Enter => if at == Outside then Inside else Overlap
    case Leave => if at == Inside then Outside else Overlap
    case _ => if at == Inside then Inside else Overlap
  }

  function Scan(log: seq<Event>): Progress {
    if log == [] then Outside else Next(Scan(log[..|log| - 1]), log[|log| - 1])
  }

  function Entered(log: seq<Event>): nat {
    if log == [] then 0 else Entered(log[..|log| - 1]) + if log[|log| - 1] == Enter then 1 else 0
  }

  lemma Logged(log: seq<Event>, e: Event)
    ensures Scan(log + [e]) == Next(Scan(log), e)
    ensures Entered(log + [e]) == Entered(log) + if e == Enter then 1 else 0
  {
    assert (log + [e])[..|log|] == log;
  }

  // The frames a call from outside a frame runs: its own, or those of the calls in its pump.
  function FramesOf(c: Call): (n: nat)
    ensures n > 0
  {
    if c.inPump == [] then 1 else FramesOfAll(c.inPump)
  }

  function FramesOfAll(cs: seq<Call>): (n: nat)
    ensures cs != [] ==> n > 0
  {
    if cs == [] then 0 else FramesOf(cs[0]) + FramesOfAll(cs[1..])
  }

  function Repeated(n: nat): (log: seq<Event>)
    ensures Enter !in log
  {
    if n == 0 then [] else Repeated(n - 1) + [Update]
  }

  // The pass a frame adds to the run.
  function PassOf(c: Call, paced: bool, woken: bool): Pass {
    Pass(c.slept as real / 1000.0, 1000.0 / PhysRefreshRate(c.settings), paced, woken)
  }

  /** Its period is that of the display: so many to the second. */
  lemma PassTimes(c: Call, paced: bool, woken: bool)
    ensures PassOf(c, paced, woken).period * PhysRefreshRate(c.settings) == 1000.0
    ensures PassOf(c, paced, woken).elapsed * 1000.0 == c.slept as real
  {
    Undivided(1000.0, PhysRefreshRate(c.settings));
  }

  // The run has grown by one pass with the call's time and the outcome of its wait.
  ghost predicate OnePass(before: seq<Pass>, after: seq<Pass>, c: Call, paced: bool, woken: bool) {
    |after| == |before| + 1 && after[..|before|] == before
    && after[|before|].elapsed * 1000.0 == c.slept as real
    && after[|before|].paced == paced && after[|before|].woken == woken
  }

  // Every frame the call may run has a display of at least two refreshes a second.
  predicate Fast(c: Call) {
    PhysRefreshRate(c.settings) >= 2.0 && AllFast(c.inPump)
  }

  predicate AllFast(cs: seq<Call>) {
    cs == [] || (Fast(cs[0]) && AllFast(cs[1..]))
  }

  // Every frame the call may run has this refresh rate.
  predicate AtRate(c: Call, rate: int) {
    c.settings.refreshRate == rate && AllAtRate(c.inPump, rate)
  }

  predicate AllAtRate(cs: seq<Call>, rate: int) {
    cs == [] || (AtRate(cs[0], rate) && AllAtRate(cs[1..], rate))
  }

  lemma {:induction false} OneCallMore(cs: seq<Call>, c: Call)
    ensures FramesOfAll(cs + [c]) == FramesOfAll(cs) + FramesOf(c)
    ensures AllFast(cs + [c]) <==> AllFast(cs) && Fast(c)
    ensures forall rate :: AllAtRate(cs + [c], rate) <==> AllAtRate(cs, rate) && AtRate(c, rate)
    decreases |cs|
  {
    if cs == [] {
      assert cs + [c] == [c];
    } else {
      assert (cs + [c])[1..] == cs[1..] + [c];
      OneCallMore(cs[1..], c);
    }
  }

  // A frame without updates idles, unless its wake was signaled or nothing throttles it.
  predicate Idles(c: Call, running: bool, updates: nat, signaled: bool) {
    running && updates == 0 && !signaled && !c.settings.unthrottled
  }

  // It draws if it made updates, if it was asked to, and whenever its wake was signaled.
  predicate Draws(c: Call, running: bool, updates: nat, signaled: bool, forced: bool) {
    running && (updates != 0 || forced || signaled || c.settings.unthrottled)
  }

  /** A running frame idles or draws, and both only when a draw was asked for; a signaled one draws and does not idle. */
  lemma IdleOrDraw(c: Call, updates: nat, signaled: bool, forced: bool)
    ensures Idles(c, true, updates, signaled) || Draws(c, true, updates, signaled, forced)
    ensures Idles(c, true, updates, signaled) && Draws(c, true, updates, signaled, forced)
      <==> forced && !Draws(c, true, updates, signaled, false)
    ensures signaled || updates > 0 ==>
      Draws(c, true, updates, signaled, forced) && !Idles(c, true, updates, signaled)
    ensures c.settings.unthrottled ==> Draws(c, true, updates, signaled, forced)
    ensures !Idles(c, false, updates, signaled) && !Draws(c, false, updates, signaled, forced)
  {
  }

  function UpdateLog(full: nat, partial: bool): (log: seq<Event>)
    ensures Enter !in log
  {
    Repeated(full) + if partial then [PartialUpdate] else []
  }

  function EndLog(idle: bool, draw: bool): (log: seq<Event>)
    ensures Enter !in log
  {
    (if idle then [Idle] else []) + (if draw then [Draw] else []) + [Leave]
  }

  // What a frame logs.
  function FrameLog(full: nat, partial: bool, idle: bool, draw: bool): seq<Event> {
    [Enter] + UpdateLog(full, partial) + EndLog(idle, draw)
  }

  // The pieces a frame adds to the log make up one frame, entered once.
  lemma LogsJoin(log: seq<Event>, updates: seq<Event>, end: seq<Event>)
    requires Enter !in updates && Enter !in end
    ensures log + [Enter] + updates + end == log + ([Enter] + updates + end)
    ensures Entered(log + ([Enter] + updates + end)) == Entered(log) + 1
  {
    Logged(log, Enter);
    NoneEntered(log + [Enter], updates);
    NoneEntered(log + [Enter] + updates, end);
    assert log + [Enter] + updates + end == log + ([Enter] + updates + end);
  }

  lemma {:induction false} NoneEntered(log: seq<Event>, more: seq<Event>)
    requires Enter !in more
    ensures Entered(log + more) == Entered(log)
  {
    if more == [] {
      assert log + more == log;
    } else {
      NoneEntered(log, more[..|more| - 1]);
      Logged(log + more[..|more| - 1], more[|more| - 1]);
      assert log + more == log + more[..|more| - 1] + [more[|more| - 1]];
    }
  }

  // ----- the application -----

  class App {
    var mRunning: bool
    var mInProcess: bool
    var mProcessCount: int
    var mSlowStartItr: int
    var mForceNextDraw: bool
    var mPhysFrameTimeErr: real
    var mPhysFrameTimeAcc: real
    var mUpdateCntF: real
    var mClientUpdateCntF: real

    ghost var mLog: seq<Event>
    ghost var mRun: seq<Pass>
    // The time the count has been given, and what was added to the accumulator to lift it to a thousandth.
    ghost var mGiven: real
    ghost var mLifted: real

    constructor ()
      ensures Valid() && !mInProcess && Scan(mLog) == Outside && mRun == [] && mUpdateCntF == mGiven == mLifted == 0.0
    {
      mRunning, mInProcess, mProcessCount, mSlowStartItr, mForceNextDraw := false, false, 0, 0, false;
      mPhysFrameTimeErr, mPhysFrameTimeAcc, mUpdateCntF, mClientUpdateCntF := 0.0, 0.0, 0.0, 0.0;
      mLog, mRun, mGiven, mLifted := [], [], 0.0, 0.0;
    }

    method Init()
      requires Valid()
      modifies this`mRunning
      ensures Valid() && mRunning
    {
      mRunning := true;
    }

    // The main loop: frames until the application stops, or as many as there are calls for.
    method Run(cs: seq<Call>) returns (made: nat)
      requires Valid() && !mInProcess
      modifies this
      ensures Valid() && !mInProcess && made <= |cs| && (made < |cs| ==> !mRunning)
      ensures Entered(mLog) == old(Entered(mLog)) + FramesOfAll(cs[..made])
      ensures AllFast(cs[..made]) && old(mClientUpdateCntF) >= 0.0 ==> mClientUpdateCntF >= 0.0
      ensures forall rate | AllAtRate(cs[..made], rate) :: Counts(old(mUpdateCntF), old(mGiven), rate) ==> Counts(mUpdateCntF, mGiven, rate)
    {
      made := 0;
      while mRunning && made < |cs|
        invariant Valid() && !mInProcess && made <= |cs|
        invariant Entered(mLog) == old(Entered(mLog)) + FramesOfAll(cs[..made])
        invariant AllFast(cs[..made]) && old(mClientUpdateCntF) >= 0.0 ==> mClientUpdateCntF >= 0.0
        invariant forall rate | AllAtRate(cs[..made], rate) ::
                    Counts(old(mUpdateCntF), old(mGiven), rate) ==> Counts(mUpdateCntF, mGiven, rate)
        decreases |cs| - made
      {
        OneCallMore(cs[..made], cs[made]);
        assert cs[..made + 1] == cs[..made] + [cs[made]];
        Process(cs[made]);
        made := made + 1;
      }
    }

    // The error is the one the passes so far leave, the time handed out has been given to the count but for what is in the
    // accumulator, and no frame overlapped another.
    ghost predicate Valid()
      reads this
    {
      Clocked() && mGiven + mPhysFrameTimeAcc == HandedOut(mRun) + mLifted
    }

    ghost predicate Clocked()
      reads this
    {
      Timed(mRun) && mPhysFrameTimeErr == Error(mRun)
      && Scan(mLog) != Overlap && (!mInProcess ==> Scan(mLog) == Outside)
    }

    /** At one rate from the start, the count is the time handed out, but for the accumulator, times the rate. */
    lemma CountTracksTime(rate: int)
      requires Valid() && Counts(mUpdateCntF, mGiven, rate) && rate > 0
      ensures mUpdateCntF * 1000.0 == (HandedOut(mRun) + mLifted - mPhysFrameTimeAcc) * rate as real
    {
    }

    // Makes the calls in order. They do nothing while a frame is in process.
    method RunCalls(cs: seq<Call>)
      requires Valid()
      modifies this
      ensures Valid() && mInProcess == old(mInProcess)
      ensures old(mInProcess) || cs == [] ==> unchanged(this)
      ensures !old(mInProcess) ==> Entered(mLog) == old(Entered(mLog)) + FramesOfAll(cs)
      ensures !old(mInProcess) && cs != [] ==> mProcessCount > old(mProcessCount)
      ensures AllFast(cs) && old(mClientUpdateCntF) >= 0.0 ==> mClientUpdateCntF >= 0.0
      ensures forall rate | AllAtRate(cs, rate) :: Counts(old(mUpdateCntF), old(mGiven), rate) ==> Counts(mUpdateCntF, mGiven, rate)
      decreases cs, 0
    {
      if cs != [] {
        Process(cs[0]);
        RunCalls(cs[1..]);
      }
    }

    /** Waits for the display if there is one to wait for: paced, externally signaled, by the vblank. */
    method WaitForDisplay(c: Call) returns (presentPaced: bool, externalSignaled: bool, didVBlankWait: bool)
      requires Valid() && mInProcess
      modifies this
      ensures unchanged(this)
      ensures externalSignaled || didVBlankWait ==> presentPaced && c.signaled && !c.settings.unthrottled
      ensures c.settings.unthrottled ==> !presentPaced
      ensures presentPaced && !c.signaled ==>
        c.settings.framePacer || c.settings.externalPacing || c.settings.windowPacer
      decreases c, 0
    {
      presentPaced, externalSignaled, didVBlankWait := false, false, false;
      RunCalls(c.inWait);
      var s := c.settings;
      if !s.unthrottled && (s.framePacer || s.externalPacing || s.windowPacer) {
        presentPaced, externalSignaled := true, c.signaled;
      } else if !s.unthrottled && s.vsync {
        didVBlankWait := c.signaled;
        presentPaced := didVBlankWait;
      }
    }

    /**
     * A call from inside a frame, or from its wait, changes nothing. One from outside runs exactly
     * one frame at a time, its own or those its message pump runs in its place, and leaves no frame open.
     */
    method Process(c: Call)
      requires Valid()
      modifies this
      ensures Valid() && mInProcess == old(mInProcess)
      ensures old(mInProcess) ==> unchanged(this)
      ensures !old(mInProcess) ==> Entered(mLog) == old(Entered(mLog)) + FramesOf(c)
      ensures !old(mInProcess) ==> mProcessCount > old(mProcessCount)
      ensures Fast(c) && old(mClientUpdateCntF) >= 0.0 ==> mClientUpdateCntF >= 0.0
      ensures forall rate | AtRate(c, rate) :: Counts(old(mUpdateCntF), old(mGiven), rate) ==> Counts(mUpdateCntF, mGiven, rate)
      decreases c, 9
    {
      if mInProcess { return; }
      mInProcess := true;
      mProcessCount := mProcessCount + 1;
      var presentPaced, externalSignaled, didVBlankWait := WaitForDisplay(c);

      // Frames run by the messages take this frame's place.
      var processCount := mProcessCount;
      mInProcess := false;
      RunCalls(c.inPump);
      if mProcessCount != processCount { return; }
      mInProcess := true;
      OwnFrame(c, presentPaced, externalSignaled, didVBlankWait);
    }

    // The frame of a call that its pump has left one to run.
    method OwnFrame(c: Call, presentPaced: bool, externalSignaled: bool, didVBlankWait: bool)
      requires Valid() && mInProcess && Scan(mLog) == Outside
      requires externalSignaled || didVBlankWait ==> presentPaced
      modifies this
      ensures Valid() && !mInProcess && mProcessCount == old(mProcessCount)
      ensures Entered(mLog) == old(Entered(mLog)) + 1
      ensures PhysRefreshRate(c.settings) >= 2.0 && old(mClientUpdateCntF) >= 0.0 ==> mClientUpdateCntF >= 0.0
      ensures var rate := c.settings.refreshRate;
        Counts(old(mUpdateCntF), old(mGiven), rate) ==> Counts(mUpdateCntF, mGiven, rate)
      decreases c, 8
    {
      ghost var count, given := mUpdateCntF, mGiven;
      var full, partial := Frame(c, presentPaced, externalSignaled, didVBlankWait);
      if Counts(count, given, c.settings.refreshRate) {
        CountsAdd(count, given, mUpdateCntF - count, mGiven - given, c.settings.refreshRate);
      }
    }

    /**
     * Hands the frame its time: whole to the count when paced or unthrottled, and otherwise through
     * the accumulator in steps of a period, which leaves less than a period in it.
     */
    method HandOut(timeAdvance: real, s: Settings, whole: bool)
      modifies this`mPhysFrameTimeAcc, this`mUpdateCntF, this`mGiven, this`mLifted
      ensures Given(timeAdvance, s, whole, old(mUpdateCntF), mUpdateCntF, old(mPhysFrameTimeAcc), mPhysFrameTimeAcc)
      ensures Counts(mUpdateCntF - old(mUpdateCntF), mGiven - old(mGiven), s.refreshRate)
      ensures mGiven + mPhysFrameTimeAcc - mLifted == old(mGiven) + old(mPhysFrameTimeAcc) - old(mLifted) + timeAdvance
      ensures mLifted - old(mLifted) == if whole || old(mPhysFrameTimeAcc) >= 0.001 then 0.0 else 0.001 - old(mPhysFrameTimeAcc)
    {
      if whole {
        CountsOf(timeAdvance, s);
        mUpdateCntF := mUpdateCntF + timeAdvance / TicksPerFrame(s);
        mGiven := mGiven + timeAdvance;
        return;
      }
      ghost var lifted := Max(mPhysFrameTimeAcc, 0.001);
      mLifted := mLifted + (lifted - mPhysFrameTimeAcc);
      mPhysFrameTimeAcc := Max(mPhysFrameTimeAcc, 0.001) + timeAdvance;
      ghost var steps := Accumulate(s);
      mGiven := mGiven + Times(steps, 1000.0 / PhysRefreshRate(s));
      assert SteppedOut(steps, timeAdvance, s,
        old(mUpdateCntF), mUpdateCntF, old(mPhysFrameTimeAcc), mPhysFrameTimeAcc);
    }

    // The nearest whole number of periods, and one at least for a woken frame.
    method WholeRefreshes(due: real, period: real, woken: bool) returns (timeAdvance: real)
      requires period > 0.0
      ensures timeAdvance
        == Times(if Nearest(due, period) < 1 && woken then 1 else Nearest(due, period), period)
    {
      var refreshes := (due / period + 0.5).Floor;
      NearestIsFloor(due, period);
      if refreshes < 1 && woken { refreshes := 1; }
      timeAdvance := refreshes as real * period;
      TimesIsProduct(refreshes, period);
    }

    // The time handed out, and the rounding error carried to the next pass.
    method TakeTime(c: Call, presentPaced: bool, woken: bool) returns (timeAdvance: real)
      requires Valid() && (woken ==> presentPaced)
      modifies this`mPhysFrameTimeErr, this`mRun
      ensures Clocked() && mRun == old(mRun) + [PassOf(c, presentPaced, woken)]
      ensures HandedOut(mRun) == old(HandedOut(mRun)) + timeAdvance
      ensures timeAdvance == Advance(old(mPhysFrameTimeErr), PassOf(c, presentPaced, woken))
    {
      ghost var p, err := PassOf(c, presentPaced, woken), mPhysFrameTimeErr;
      var period := 1000.0 / PhysRefreshRate(c.settings);
      mPhysFrameTimeErr := mPhysFrameTimeErr + c.slept as real / 1000.0;
      timeAdvance := mPhysFrameTimeErr;
      if presentPaced {
        timeAdvance := WholeRefreshes(mPhysFrameTimeErr, period, woken);
      }
      assert timeAdvance == Advance(err, p);
      mPhysFrameTimeErr := mPhysFrameTimeErr - timeAdvance;
      assert mPhysFrameTimeErr == Left(err, p);
      if presentPaced && timeAdvance == period {
        mPhysFrameTimeErr := mPhysFrameTimeErr * 0.98;
      }
      assert mPhysFrameTimeErr == Carried(err, p);
      RunGrows(mRun, p);
      mRun := mRun + [p];
    }

    // Takes whole periods out of the accumulator until less than one is left.
    method Accumulate(s: Settings) returns (ghost steps: nat)
      modifies this`mPhysFrameTimeAcc, this`mUpdateCntF
      ensures var period := 1000.0 / PhysRefreshRate(s);
        && Counts(mUpdateCntF - old(mUpdateCntF), Times(steps, period), s.refreshRate)
        && mPhysFrameTimeAcc + Times(steps, period) == old(mPhysFrameTimeAcc)
        && mPhysFrameTimeAcc < period && (steps > 0 ==> mPhysFrameTimeAcc >= 0.0)
    {
      var period, ticksPerFrame := 1000.0 / PhysRefreshRate(s), TicksPerFrame(s);
      steps := 0;
      CountsOf(0.0, s);
      CountsOf(period, s);
      while mPhysFrameTimeAcc >= period
        invariant Counts(mUpdateCntF - old(mUpdateCntF), Times(steps, period), s.refreshRate)
        invariant mPhysFrameTimeAcc + Times(steps, period) == old(mPhysFrameTimeAcc)
        invariant steps > 0 ==> mPhysFrameTimeAcc >= 0.0
        decreases (mPhysFrameTimeAcc / period).Floor
      {
        OnePeriod(mPhysFrameTimeAcc - period, period);
        HalfAtMost(mPhysFrameTimeAcc / period, 1.0, period);
        Undivided(mPhysFrameTimeAcc, period);
        CountsAdd(mUpdateCntF - old(mUpdateCntF), Times(steps, period), period / ticksPerFrame, period, s.refreshRate);
        mPhysFrameTimeAcc := mPhysFrameTimeAcc - period;
        mUpdateCntF := mUpdateCntF + period / ticksPerFrame;
        steps := steps + 1;
      }
    }

    // One full update, which may call Process and stop the application.
    method RunUpdate(c: Call, number: nat)
      requires Valid() && mInProcess && Scan(mLog) == Inside
      modifies this
      ensures Valid() && mInProcess && Scan(mLog) == Inside
      ensures mLog == old(mLog) + [Update]
      ensures mRunning == (old(mRunning) && number != c.stopsAt)
      ensures ExceptCount() && mClientUpdateCntF == Bumped(old(mClientUpdateCntF))
      decreases c, 1
    {
      Callback(c, Update);
      mRunning := mRunning && number != c.stopsAt;
      mClientUpdateCntF := Bumped(mClientUpdateCntF);
    }

    // Nothing but the client's count, the log and the running flag has changed.
    twostate predicate ExceptCount()
      reads this
    {
      mInProcess == old(mInProcess) && mProcessCount == old(mProcessCount)
      && mSlowStartItr == old(mSlowStartItr) && mForceNextDraw == old(mForceNextDraw)
      && mPhysFrameTimeErr == old(mPhysFrameTimeErr) && mPhysFrameTimeAcc == old(mPhysFrameTimeAcc)
      && mUpdateCntF == old(mUpdateCntF) && mRun == old(mRun) && mGiven == old(mGiven) && mLifted == old(mLifted)
    }

    /**
     * The catch-up loop: as many full updates as it takes to come level, unless the limit, which is
     * looked at after the first, or the end of the application comes before.
     */
    method CatchUp(c: Call, maxUpdates: int) returns (full: nat)
      requires Valid() && mInProcess && Scan(mLog) == Inside
      modifies this
      ensures Valid() && mInProcess && Scan(mLog) == Inside && ExceptCount()
      ensures mLog == old(mLog) + Repeated(full)
      ensures full == if !old(mRunning) then 0 else
        UntilStopped(c.stopsAt, Min(Rounds(old(mClientUpdateCntF), mUpdateCntF), AtLeastOne(maxUpdates)))
      ensures mClientUpdateCntF == Bumps(old(mClientUpdateCntF), full)
      decreases c, 2
    {
      full := 0;
      while mRunning && Trunc(mClientUpdateCntF) < Trunc(mUpdateCntF)
        invariant Valid() && mInProcess && Scan(mLog) == Inside && ExceptCount()
        invariant mLog == old(mLog) + Repeated(full)
        invariant mClientUpdateCntF == Bumps(old(mClientUpdateCntF), full)
        invariant full + Rounds(mClientUpdateCntF, mUpdateCntF) == Rounds(old(mClientUpdateCntF), mUpdateCntF)
        invariant full == 0 || full < maxUpdates
        invariant mRunning == (old(mRunning) && !(c.stopsAt == full && full > 0))
        invariant c.stopsAt == 0 || full <= c.stopsAt
        invariant full > 0 ==> old(mRunning)
        decreases Rounds(mClientUpdateCntF, mUpdateCntF)
      {
        full := full + 1;
        ghost var log := mLog;
        RunUpdate(c, full);
        assert mLog == log + [Update];
        if full >= maxUpdates { break; }
      }
    }

    // Too far behind, the client follows without updating.
    method Sync(rate: real)
      modifies this`mClientUpdateCntF
      ensures mClientUpdateCntF == Synced(old(mClientUpdateCntF), mUpdateCntF, rate)
      ensures mUpdateCntF - mClientUpdateCntF <= Max(rate / 2.0, 1.0)
    {
      if mUpdateCntF - mClientUpdateCntF > rate / 2.0 {
        mClientUpdateCntF := mUpdateCntF - 1.0;
      }
    }

    // The fraction of an update left over, where rates do not match.
    method PartialStep(c: Call, full: nat, maxUpdates: int, rate: real) returns (partial: bool)
      requires Valid() && mInProcess && Scan(mLog) == Inside
      modifies this
      ensures Valid() && mInProcess && Scan(mLog) == Inside && ExceptCount()
      ensures mLog == old(mLog) + (if partial then [PartialUpdate] else [])
      ensures partial
        <==> old(mRunning) && full < maxUpdates && SplitsTicks(c.settings, rate)
             && PartialAmount(c.settings, mUpdateCntF - old(mClientUpdateCntF))
      ensures mClientUpdateCntF == if partial then mUpdateCntF else old(mClientUpdateCntF)
      ensures mRunning == (old(mRunning) && !(partial && c.stopsAt == full + 1))
      decreases c, 1
    {
      partial := false;
      if mRunning && SplitsTicks(c.settings, rate) {
        var updateFAmt := mUpdateCntF - mClientUpdateCntF;
        if PartialAmount(c.settings, updateFAmt) && full < maxUpdates {
          Callback(c, PartialUpdate);
          mRunning := mRunning && full + 1 != c.stopsAt;
          partial := true;
          mClientUpdateCntF := mUpdateCntF;
        }
      }
    }

    method StartFrame(c: Call, presentPaced: bool, woken: bool)
      requires Valid() && mInProcess && Scan(mLog) == Outside && (woken ==> presentPaced)
      modifies this`mLog, this`mPhysFrameTimeErr, this`mPhysFrameTimeAcc, this`mUpdateCntF, this`mRun, this`mGiven, this`mLifted
      ensures Valid() && Scan(mLog) == Inside && mLog == old(mLog) + [Enter]
      ensures OnePass(old(mRun), mRun, c, presentPaced, woken)
      ensures Given(Advance(old(mPhysFrameTimeErr), PassOf(c, presentPaced, woken)), c.settings,
                    presentPaced || c.settings.unthrottled,
                    old(mUpdateCntF), mUpdateCntF, old(mPhysFrameTimeAcc), mPhysFrameTimeAcc)
      ensures Counts(mUpdateCntF - old(mUpdateCntF), mGiven - old(mGiven), c.settings.refreshRate)
    {
      Logged(mLog, Enter);
      mLog := mLog + [Enter];
      AdvanceClock(c, presentPaced, woken);
    }

    method AdvanceClock(c: Call, presentPaced: bool, woken: bool)
      requires Valid() && (woken ==> presentPaced)
      modifies this`mPhysFrameTimeErr, this`mPhysFrameTimeAcc, this`mUpdateCntF, this`mRun, this`mGiven, this`mLifted
      ensures Valid() && OnePass(old(mRun), mRun, c, presentPaced, woken)
      ensures Given(Advance(old(mPhysFrameTimeErr), PassOf(c, presentPaced, woken)), c.settings,
                    presentPaced || c.settings.unthrottled,
                    old(mUpdateCntF), mUpdateCntF, old(mPhysFrameTimeAcc), mPhysFrameTimeAcc)
      ensures Counts(mUpdateCntF - old(mUpdateCntF), mGiven - old(mGiven), c.settings.refreshRate)
    {
      var timeAdvance := TakeTime(c, presentPaced, woken);
      HandOut(timeAdvance, c.settings, presentPaced || c.settings.unthrottled);
    }

    /** One frame: its updates stay within the limit; it draws after any of them, and whenever its wake was signaled. */
    method Frame(c: Call, presentPaced: bool, externalSignaled: bool, didVBlankWait: bool)
      returns (full: nat, partial: bool)
      requires Valid() && mInProcess && Scan(mLog) == Outside
      requires externalSignaled || didVBlankWait ==> presentPaced
      modifies this
      ensures Valid() && !mInProcess && mProcessCount == old(mProcessCount)
      ensures Entered(mLog) == old(Entered(mLog)) + 1
      ensures OnePass(old(mRun), mRun, c, presentPaced, externalSignaled || didVBlankWait)
      ensures Given(Advance(old(mPhysFrameTimeErr), PassOf(c, presentPaced, externalSignaled || didVBlankWait)), c.settings,
                    presentPaced || c.settings.unthrottled,
                    old(mUpdateCntF), mUpdateCntF, old(mPhysFrameTimeAcc), mPhysFrameTimeAcc)
      ensures Counts(mUpdateCntF - old(mUpdateCntF), mGiven - old(mGiven), c.settings.refreshRate)
      ensures PhysRefreshRate(c.settings) >= 2.0 && old(mClientUpdateCntF) >= 0.0 ==> mClientUpdateCntF >= 0.0
      ensures var updates := full + if partial then 1 else 0;
        updates <= UpdateLimit(old(mSlowStartItr), c.settings.maxUpdatesPerDraw)
        && mSlowStartItr == old(mSlowStartItr) + (if updates > 0 then 1 else 0)
        && mLog == old(mLog) + FrameLog(full, partial, Idles(c, mRunning, updates, externalSignaled),
             Draws(c, mRunning, updates, externalSignaled, old(mForceNextDraw)))
      decreases c, 7
    {
      full, partial := RunFrame(c, presentPaced, externalSignaled, didVBlankWait);
      ghost var updates := full + if partial then 1 else 0;
      LogsJoin(old(mLog), UpdateLog(full, partial), EndLog(Idles(c, mRunning, updates, externalSignaled),
        Draws(c, mRunning, updates, externalSignaled, old(mForceNextDraw))));
    }

    // The three parts of a frame.
    method RunFrame(c: Call, presentPaced: bool, externalSignaled: bool, didVBlankWait: bool)
      returns (full: nat, partial: bool)
      requires Valid() && mInProcess && Scan(mLog) == Outside
      requires externalSignaled || didVBlankWait ==> presentPaced
      modifies this
      ensures Valid() && !mInProcess && mProcessCount == old(mProcessCount)
      ensures OnePass(old(mRun), mRun, c, presentPaced, externalSignaled || didVBlankWait)
      ensures Given(Advance(old(mPhysFrameTimeErr), PassOf(c, presentPaced, externalSignaled || didVBlankWait)), c.settings,
                    presentPaced || c.settings.unthrottled,
                    old(mUpdateCntF), mUpdateCntF, old(mPhysFrameTimeAcc), mPhysFrameTimeAcc)
      ensures Counts(mUpdateCntF - old(mUpdateCntF), mGiven - old(mGiven), c.settings.refreshRate)
      ensures PhysRefreshRate(c.settings) >= 2.0 && old(mClientUpdateCntF) >= 0.0 ==> mClientUpdateCntF >= 0.0
      ensures var updates := full + if partial then 1 else 0;
        updates <= UpdateLimit(old(mSlowStartItr), c.settings.maxUpdatesPerDraw)
        && mSlowStartItr == old(mSlowStartItr) + (if updates > 0 then 1 else 0)
        && mLog == old(mLog) + [Enter] + UpdateLog(full, partial)
             + EndLog(Idles(c, mRunning, updates, externalSignaled),
                      Draws(c, mRunning, updates, externalSignaled, old(mForceNextDraw)))
      decreases c, 6
    {
      StartFrame(c, presentPaced, externalSignaled || didVBlankWait);
      full, partial := Updates(c);
      var didUpdateCnt := full + if partial then 1 else 0;
      FinishFrame(c, didUpdateCnt, externalSignaled);
    }

    // Following, if it is too far behind, and the catch-up.
    method FullUpdates(c: Call, maxUpdates: int, rate: real) returns (full: nat)
      requires Valid() && mInProcess && Scan(mLog) == Inside
      modifies this
      ensures Valid() && mInProcess && Scan(mLog) == Inside && ExceptCount()
      ensures mLog == old(mLog) + Repeated(full) && full <= AtLeastOne(maxUpdates)
      ensures full <= Rounds(Synced(old(mClientUpdateCntF), mUpdateCntF, rate), mUpdateCntF)
      ensures rate >= 2.0 && old(mClientUpdateCntF) >= 0.0 ==> mClientUpdateCntF >= 0.0
      ensures mClientUpdateCntF == Bumps(Synced(old(mClientUpdateCntF), mUpdateCntF, rate), full)
      decreases c, 3
    {
      Sync(rate);
      full := CatchUp(c, maxUpdates);
      if rate >= 2.0 && old(mClientUpdateCntF) >= 0.0 {
        SyncedNotNegative(rate);
        BumpsRaiseFloor(Synced(old(mClientUpdateCntF), mUpdateCntF, rate), full);
      }
    }

    // The updates of a frame; a frame with any makes the next limit one larger.
    method Updates(c: Call) returns (full: nat, partial: bool)
      requires Valid() && mInProcess && Scan(mLog) == Inside
      modifies this
      ensures Valid() && mInProcess && Scan(mLog) == Inside && mProcessCount == old(mProcessCount)
      ensures mForceNextDraw == old(mForceNextDraw) && mRun == old(mRun)
      ensures mUpdateCntF == old(mUpdateCntF) && mPhysFrameTimeAcc == old(mPhysFrameTimeAcc)
      ensures mGiven == old(mGiven) && mLifted == old(mLifted)
      ensures PhysRefreshRate(c.settings) >= 2.0 && old(mClientUpdateCntF) >= 0.0 ==> mClientUpdateCntF >= 0.0
      ensures mLog == old(mLog) + UpdateLog(full, partial)
      ensures var updates := full + if partial then 1 else 0;
        updates <= UpdateLimit(old(mSlowStartItr), c.settings.maxUpdatesPerDraw)
        && mSlowStartItr == old(mSlowStartItr) + if updates > 0 then 1 else 0
      ensures var t := Turn(mUpdateCntF, PhysRefreshRate(c.settings), full, partial);
        mUpdateCntF >= 0.0 ==>
          TurnOk(old(mClientUpdateCntF), t) && mClientUpdateCntF == ClientAfter(old(mClientUpdateCntF), t)
      decreases c, 4
    {
      ghost var log := mLog;
      var rate := PhysRefreshRate(c.settings);
      var maxUpdates := Min(mSlowStartItr + 1, c.settings.maxUpdatesPerDraw);
      full := FullUpdates(c, maxUpdates, rate);
      partial := PartialStep(c, full, maxUpdates, rate);
      var didUpdateCnt := full + if partial then 1 else 0;
      if didUpdateCnt > 0 { mSlowStartItr := mSlowStartItr + 1; }
      assert mLog == log + UpdateLog(full, partial);
    }

    // Idles or draws, and closes the frame.
    method FinishFrame(c: Call, didUpdateCnt: nat, externalSignaled: bool)
      requires Valid() && mInProcess && Scan(mLog) == Inside
      modifies this
      ensures Valid() && !mInProcess && mProcessCount == old(mProcessCount) && mRun == old(mRun)
      ensures mRunning == old(mRunning) && mSlowStartItr == old(mSlowStartItr)
      ensures mClientUpdateCntF == old(mClientUpdateCntF)
      ensures mUpdateCntF == old(mUpdateCntF) && mPhysFrameTimeAcc == old(mPhysFrameTimeAcc)
      ensures mGiven == old(mGiven) && mLifted == old(mLifted)
      ensures mLog == old(mLog) + EndLog(Idles(c, mRunning, didUpdateCnt, externalSignaled),
                                         Draws(c, mRunning, didUpdateCnt, externalSignaled, old(mForceNextDraw)))
      decreases c, 1
    {
      var idle := Idles(c, mRunning, didUpdateCnt, externalSignaled);
      var draw := Draws(c, mRunning, didUpdateCnt, externalSignaled, mForceNextDraw);
      if idle { Callback(c, Idle); }
      if draw {
        Callback(c, Draw);
        mForceNextDraw := false;
      }
      Logged(mLog, Leave);
      mLog := mLog + [Leave];
      mInProcess := false;
    }

    // The application's own code, which may call Process.
    method Callback(c: Call, e: Event)
      requires Valid() && mInProcess && Scan(mLog) == Inside && e != Enter && e != Leave
      modifies this
      ensures Valid() && Scan(mLog) == Inside
      ensures mLog == old(mLog) + [e] && mRunning == old(mRunning)
      ensures ExceptCount() && mClientUpdateCntF == old(mClientUpdateCntF)
      decreases c, 0
    {
      Logged(mLog, e);
      mLog := mLog + [e];
      RunCalls(c.inBody);
    }
  }
}
