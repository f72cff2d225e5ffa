/** The countdown: how what it shows moves over runs of presses and looks, and what expiring fixes. */
module TimerModel {
  import opened Words
  import opened FloorDivision
  import opened TickConversion

  const DEFAULT_NS: u64 := 60 * 1_000_000_000
  const STEP_NS: u64 := 10 * 1_000_000_000

  // ------------------------------------------------------------------------
  // The countdown, as a value
  // ------------------------------------------------------------------------

  datatype Countdown = Countdown(running: bool, target: u64, spent: u64, startedAt: u64, expired: bool)

  function ElapsedTicks(c: Countdown, now: u64): u64 {
    if c.running then WrappingAdd(c.spent, WrappingSub(now, c.startedAt)) else c.spent
  }

  function ElapsedNs(hz: u64, c: Countdown, now: u64): u64 {
    TicksToNs(hz, ElapsedTicks(c, now))
  }

  // What the readout says.
  function Remaining(hz: u64, c: Countdown, now: u64): u64 {
    if ElapsedNs(hz, c, now) >= c.target then 0 else c.target - ElapsedNs(hz, c, now)
  }

  // Reading it out stops it at zero.
  function Looked(hz: u64, c: Countdown, now: u64): Countdown {
    if c.running && ElapsedNs(hz, c, now) >= c.target then
      c.(spent := ElapsedTicks(c, now), running := false, expired := true)
    else c
  }

  function Toggled(c: Countdown, now: u64): Countdown {
    if c.expired then c
    else if c.running then c.(spent := ElapsedTicks(c, now), running := false)
    else c.(startedAt := now, running := true)
  }

  function Rewound(c: Countdown): Countdown {
    c.(running := false, spent := 0, expired := false)
  }

  function Moved(target: u64, up: bool): u64 {
    if up then (if target + STEP_NS < U64_MODULUS then target + STEP_NS else U64_MODULUS - 1)
    else if target < 2 * STEP_NS then STEP_NS
    else target - STEP_NS
  }

  function Adjusted(c: Countdown, up: bool): Countdown {
    if c.running then c else c.(target := Moved(c.target, up), expired := false, spent := 0)
  }

  const Fresh := Countdown(false, DEFAULT_NS, 0, 0, false)

  // ------------------------------------------------------------------------
  // Runs
  // ------------------------------------------------------------------------

  // Instants never wrap; the counter that reports them does.
  datatype Event = Look(at: nat) | Press(at: nat) | Rewind | Adjust(up: bool)

  function Step(hz: u64, c: Countdown, e: Event): Countdown {
    match e
    case Look(t) => Looked(hz, c, Counter(t))
    case Press(t) => Toggled(c, Counter(t))
    case Rewind => Rewound(c)
    case Adjust(up) => Adjusted(c, up)
  }

  function After(hz: u64, c: Countdown, es: seq<Event>): Countdown
    decreases |es|
  {
    if es == [] then c else Step(hz, After(hz, c, es[..|es| - 1]), es[|es| - 1])
  }

  // Expired means stopped, with the whole target spent.
  predicate Sound(hz: u64, c: Countdown) {
    c.target >= STEP_NS && (c.expired ==> !c.running && TicksToNs(hz, c.spent) >= c.target)
  }

  /** Whatever is pressed, an expired countdown is stopped with its whole target spent. */
  lemma {:induction false} RunIsSound(hz: u64, es: seq<Event>)
    ensures Sound(hz, After(hz, Fresh, es))
    decreases |es|
  {
    if es != [] {
      RunIsSound(hz, es[..|es| - 1]);
    }
  }

  predicate Untouched(es: seq<Event>) {
    forall i :: 0 <= i < |es| ==> es[i].Look? || es[i].Press?
  }

  /** Once expired it stays zero and stopped, however it is looked at or pressed, until reset or adjusted. */
  lemma {:induction false} ExpiredRests(hz: u64, c: Countdown, es: seq<Event>, now: u64)
    requires Sound(hz, c) && c.expired && Untouched(es)
    ensures After(hz, c, es) == c && Remaining(hz, c, now) == 0
    decreases |es|
  {
    if es != [] {
      ExpiredRests(hz, c, es[..|es| - 1], now);
    }
  }

  /** It expires exactly when it is looked at running with nothing left, and then reads zero from there on. */
  lemma LookExpiresAtZero(hz: u64, c: Countdown, now: u64, later: u64)
    requires !c.expired
    ensures Looked(hz, c, now).expired <==> c.running && Remaining(hz, c, now) == 0
    ensures Looked(hz, c, now).expired ==> Remaining(hz, Looked(hz, c, now), later) == 0
  {
  }

  // Neither pressing nor looking changes what has elapsed at that instant.
  lemma StepIsContinuous(hz: u64, c: Countdown, e: Event)
    requires e.Look? || e.Press?
    ensures ElapsedTicks(Step(hz, c, e), Counter(e.at)) == ElapsedTicks(c, Counter(e.at))
    ensures Step(hz, c, e).target == c.target
  {
  }

  // Left alone, what has elapsed goes on by the time that passes, if it is running, as the counter shows it.
  lemma ElapsedGoesOn(c: Countdown, t: nat, later: nat)
    requires t <= later
    ensures ElapsedTicks(c, Counter(later)) ==
            Counter(ElapsedTicks(c, Counter(t)) + if c.running then later - t else 0)
  {
    if c.running {
      RunningElapsed(c, t);
      RunningElapsed(c, later);
      var e := c.spent + t - c.startedAt;
      SameCounter(e + (later - t), Counter(e) + (later - t), e / U64_MODULUS);
    } else {
      CounterFollows(0, c.spent);
    }
  }

  lemma RunningElapsed(c: Countdown, t: nat)
    requires c.running
    ensures ElapsedTicks(c, Counter(t)) == Counter(c.spent + t - c.startedAt)
  {
    CounterFollows(0, c.startedAt);
    CounterFollows(0, c.spent);
    CounterAdds(t, c.startedAt);
    CounterAdds(c.spent, t - c.startedAt);
  }

  lemma CounterFollows(x: int, d: nat)
    requires Counter(x) + d < U64_MODULUS
    ensures Counter(x + d) == Counter(x) + d
  {
    SameCounter(x + d, Counter(x) + d, x / U64_MODULUS);
  }

  // The times do not decrease, and lie between the two given.
  predicate InOrder(es: seq<Event>, from: nat, to: nat)
    requires Untouched(es)
    decreases |es|
  {
    if es == [] then from <= to
    else
      var last := es[|es| - 1].at;
      last <= to && InOrder(es[..|es| - 1], from, last)
  }

  // What presses and looks come to, from their instants alone: whether it counts, whether it has run
  // out, and how long it had been counting by the last of them.
  datatype Track = Track(running: bool, over: bool, ran: int, since: nat)

  function Counted(k: Track, at: nat): int {
    k.ran + if k.running then at - k.since else 0
  }

  // A press starts a segment or ends one, unless it is over. A look that finds the target reached ends it
  // for good; `spent` ticks had been counted before the first of them.
  function Followed(hz: u64, target: u64, spent: nat, k: Track, e: Event): Track
    requires e.Look? || e.Press?
  {
    var ran := Counted(k, e.at);
    if e.Press? then Track(if k.over then k.running else !k.running, k.over, ran, e.at)
    else
      var reached := k.running && TicksToNs(hz, Counter(spent + ran)) >= target;
      Track(k.running && !reached, k.over || reached, ran, e.at)
  }

  function Tracked(hz: u64, c: Countdown, es: seq<Event>, from: nat): Track
    requires Untouched(es)
    decreases |es|
  {
    if es == [] then Track(c.running, c.expired, 0, from)
    else
      Followed(hz, c.target, ElapsedTicks(c, Counter(from)), Tracked(hz, c, es[..|es| - 1], from), es[|es| - 1])
  }

  // How much of the time between `from` and `to` it was running.
  function RunningFor(hz: u64, c: Countdown, es: seq<Event>, from: nat, to: nat): int
    requires Untouched(es)
  {
    Counted(Tracked(hz, c, es, from), to)
  }

  ghost predicate Follows(c: Countdown, k: Track, spent: nat, at: nat) {
    c.running == k.running && c.expired == k.over && ElapsedTicks(c, Counter(at)) == Counter(spent + Counted(k, at))
  }

  lemma FollowsOn(c: Countdown, k: Track, spent: nat, at: nat, later: nat)
    requires Follows(c, k, spent, at) && k.since <= at <= later
    ensures Follows(c, k, spent, later)
  {
    ElapsedGoesOn(c, at, later);
    var n, more := spent + Counted(k, at), if k.running then later - at else 0;
    SameCounter(n + more, Counter(n) + more, n / U64_MODULUS);
  }

  lemma StepFollows(hz: u64, c: Countdown, k: Track, spent: nat, e: Event, to: nat)
    requires (e.Look? || e.Press?) && Follows(c, k, spent, e.at) && e.at <= to
    ensures Follows(Step(hz, c, e), Followed(hz, c.target, spent, k, e), spent, to)
    ensures Step(hz, c, e).target == c.target
    ensures Counted(k, e.at) <= Counted(Followed(hz, c.target, spent, k, e), to) <= Counted(k, e.at) + (to - e.at)
  {
    StepIsContinuous(hz, c, e);
    FollowsOn(Step(hz, c, e), Followed(hz, c.target, spent, k, e), spent, e.at, to);
  }

  lemma StartFollows(hz: u64, c: Countdown, from: nat, to: nat)
    requires from <= to
    ensures Follows(c, Tracked(hz, c, [], from), ElapsedTicks(c, Counter(from)), to)
  {
    CounterFollows(0, ElapsedTicks(c, Counter(from)));
    FollowsOn(c, Track(c.running, c.expired, 0, from), ElapsedTicks(c, Counter(from)), from, to);
  }

  /**
   Over a run of presses and looks it counts and runs out as their instants alone say, and what has
   elapsed is the time that was counted, as a 64-bit counter shows it.
   */
  lemma {:induction false} ElapsedIsRunningTime(hz: u64, c: Countdown, es: seq<Event>, from: nat, to: nat)
    requires Untouched(es) && InOrder(es, from, to)
    ensures from <= to && 0 <= RunningFor(hz, c, es, from, to) <= to - from
    ensures ElapsedTicks(After(hz, c, es), Counter(to)) ==
            Counter(ElapsedTicks(c, Counter(from)) + RunningFor(hz, c, es, from, to))
    ensures After(hz, c, es).target == c.target
    ensures After(hz, c, es).running == Tracked(hz, c, es, from).running
    ensures After(hz, c, es).expired == Tracked(hz, c, es, from).over
    decreases |es|
  {
    var spent := ElapsedTicks(c, Counter(from));
    if es == [] {
      StartFollows(hz, c, from, to);
    } else {
      var before, e := es[..|es| - 1], es[|es| - 1];
      OrderSpans(before, from, e.at);
      ElapsedIsRunningTime(hz, c, before, from, e.at);
      StepFollows(hz, After(hz, c, before), Tracked(hz, c, before, from), spent, e, to);
    }
  }

  lemma {:induction false} OrderSpans(es: seq<Event>, from: nat, to: nat)
    requires Untouched(es) && InOrder(es, from, to)
    ensures from <= to
    decreases |es|
  {
    if es != [] {
      OrderSpans(es[..|es| - 1], from, es[|es| - 1].at);
    }
  }

  // What a running time has to fit: 64 bits of ticks, and 64 bits of nanoseconds.
  predicate SpanFits(hz: u64, ticks: int) {
    ticks < U64_MODULUS && ticks * NS_PER_S < U64_MODULUS * hz
  }

  lemma ShowsLess(hz: u64, less: u64, more: u64, c: Countdown, d: Countdown, t: nat, later: nat)
    requires less <= more && (hz == 0 || SpanFits(hz, more)) && c.target == d.target
    requires ElapsedTicks(c, Counter(t)) == less && ElapsedTicks(d, Counter(later)) == more
    ensures Remaining(hz, d, Counter(later)) <= Remaining(hz, c, Counter(t))
  {
    ConversionIsMonotone(hz, less, more);
  }

  /**
   Between resets and adjustments the readout never goes up, over any run of presses and looks, as long as
   the time it has been running in all converts to nanoseconds without overflow.
   */
  lemma RemainingNeverIncreases(hz: u64, c: Countdown, es: seq<Event>, from: nat, to: nat)
    requires Untouched(es) && InOrder(es, from, to)
    requires hz == 0 || SpanFits(hz, ElapsedTicks(c, Counter(from)) + RunningFor(hz, c, es, from, to))
    ensures Remaining(hz, After(hz, c, es), Counter(to)) <= Remaining(hz, c, Counter(from))
  {
    ElapsedIsRunningTime(hz, c, es, from, to);
    if hz > 0 {
      var e := ElapsedTicks(c, Counter(from));
      var all := e + RunningFor(hz, c, es, from, to);
      CounterFollows(0, all);
      ShowsLess(hz, e, all, c, After(hz, c, es), from, to);
    }
  }

  lemma ShowsTheRest(hz: u64, c: Countdown, now: u64, all: nat)
    requires hz > 0 && SpanFits(hz, all) && ElapsedTicks(c, now) == Counter(all)
    ensures var left := c.target - all * 1_000_000_000 / hz;
            Remaining(hz, c, now) == if left > 0 then left else 0
  {
    CounterFollows(0, all);
    CutIsHarmlessExactly(hz, all);
  }

  /** What it shows is the target less the time counted, in whole nanoseconds, and zero once that is used up. */
  lemma ReadoutIsExact(hz: u64, c: Countdown, es: seq<Event>, from: nat, to: nat)
    requires Untouched(es) && InOrder(es, from, to) && hz > 0
    requires SpanFits(hz, ElapsedTicks(c, Counter(from)) + RunningFor(hz, c, es, from, to))
    ensures var all := ElapsedTicks(c, Counter(from)) + RunningFor(hz, c, es, from, to);
            var left := c.target - all * 1_000_000_000 / hz;
            Remaining(hz, After(hz, c, es), Counter(to)) == if left > 0 then left else 0
  {
    ElapsedIsRunningTime(hz, c, es, from, to);
    var all := ElapsedTicks(c, Counter(from)) + RunningFor(hz, c, es, from, to);
    ShowsTheRest(hz, After(hz, c, es), Counter(to), all);
  }

  lemma PressTracks(hz: u64, c: Countdown, t: nat)
    requires !c.running && !c.expired && c.spent == 0
    ensures Untouched([Press(t)]) && Tracked(hz, c, [Press(t)], t) == Track(true, false, 0, t)
  {
    assert [Press(t)][..0] == [];
  }

  // Started from rest at `t` and looked at from then on.
  lemma StartedReads(hz: u64, c: Countdown, t: nat, u: nat)
    requires !c.running && !c.expired && c.spent == 0 && t <= u && hz > 0 && SpanFits(hz, u - t)
    ensures Untouched([Press(t)]) && InOrder([Press(t)], t, u) && RunningFor(hz, c, [Press(t)], t, u) == u - t
    ensures After(hz, c, [Press(t)]).running && !After(hz, c, [Press(t)]).expired
    ensures var left := c.target - (u - t) * 1_000_000_000 / hz;
            Remaining(hz, After(hz, c, [Press(t)]), Counter(u)) == if left > 0 then left else 0
  {
    PressTracks(hz, c, t);
    CounterFollows(0, 0);
    ReadoutIsExact(hz, c, [Press(t)], t, u);
    ElapsedIsRunningTime(hz, c, [Press(t)], t, u);
  }

  /** A new timer, started and looked at later, has expired exactly when sixty seconds of ticks have gone by. */
  lemma MinuteIsAMinute(hz: u64, t: nat, u: nat)
    requires t <= u && hz > 0 && SpanFits(hz, u - t)
    ensures After(hz, Fresh, [Press(t), Look(u)]).expired <==> u - t >= 60 * hz
  {
    var started := After(hz, Fresh, [Press(t)]);
    StartedReads(hz, Fresh, t, u);
    assert [Press(t), Look(u)][..1] == [Press(t)];
    LookExpiresAtZero(hz, started, Counter(u), 0);
    DivBelow((u - t) * NS_PER_S, hz, 60 * NS_PER_S);
  }

  /** A reset stops it with the whole target to run; an adjustment also moves the target by ten seconds. */
  lemma RewoundIsWhole(hz: u64, c: Countdown, up: bool, now: u64)
    ensures !Rewound(c).running && !Rewound(c).expired && Remaining(hz, Rewound(c), now) == c.target
    ensures c.running ==> Adjusted(c, up) == c
    ensures !c.running ==>
              var to := Adjusted(c, up).target;
              && (up ==> to == if c.target + 10_000_000_000 < 0x1_0000_0000_0000_0000
                               then c.target + 10_000_000_000 else 0xFFFF_FFFF_FFFF_FFFF)
              && (!up ==> to == if c.target - 10_000_000_000 > 10_000_000_000
                                then c.target - 10_000_000_000 else 10_000_000_000)
              && !Adjusted(c, up).running && !Adjusted(c, up).expired && Remaining(hz, Adjusted(c, up), now) == to
  {
    if hz > 0 { NothingIsZero(hz); }
  }

  // ------------------------------------------------------------------------
  // The readout at every instant of a run
  // ------------------------------------------------------------------------

  // What of a run has happened by instant `t`.
  function By(es: seq<Event>, t: nat): seq<Event>
    requires Untouched(es)
    decreases |es|
  {
    if es == [] || es[|es| - 1].at <= t then es else By(es[..|es| - 1], t)
  }

  function At(hz: u64, c: Countdown, es: seq<Event>, t: nat): Countdown
    requires Untouched(es)
  {
    After(hz, c, By(es, t))
  }

  lemma {:induction false} ByIsInOrder(es: seq<Event>, from: nat, to: nat, t: nat)
    requires Untouched(es) && InOrder(es, from, to) && from <= t <= to
    ensures Untouched(By(es, t)) && InOrder(By(es, t), from, t) && By(es, to) == es
    decreases |es|
  {
    if es != [] && es[|es| - 1].at > t {
      ByIsInOrder(es[..|es| - 1], from, es[|es| - 1].at, t);
    }
  }

  // How long it has been running by then.
  function Ran(hz: u64, c: Countdown, es: seq<Event>, from: nat, t: nat): int
    requires Untouched(es)
  {
    UntouchedBy(es, t);
    RunningFor(hz, c, By(es, t), from, t)
  }

  lemma {:induction false} UntouchedBy(es: seq<Event>, t: nat)
    requires Untouched(es)
    ensures Untouched(By(es, t))
    decreases |es|
  {
    if es != [] && es[|es| - 1].at > t { UntouchedBy(es[..|es| - 1], t); }
  }

  // From one instant to the next it runs for one tick or not at all.
  lemma {:induction false} RanSteps(hz: u64, c: Countdown, es: seq<Event>, from: nat, to: nat, t: nat)
    requires Untouched(es) && InOrder(es, from, to) && from <= t < to
    ensures 0 <= Ran(hz, c, es, from, t + 1) - Ran(hz, c, es, from, t) <= 1
    decreases |es|
  {
    if es != [] && es[|es| - 1].at > t {
      var before, last := es[..|es| - 1], es[|es| - 1].at;
      RanSteps(hz, c, before, from, last, t);
      if t + 1 == last {
        ByIsInOrder(before, from, last, last);
      }
    }
  }

  lemma {:induction false} RanGrows(hz: u64, c: Countdown, es: seq<Event>, from: nat, to: nat, t: nat, later: nat)
    requires Untouched(es) && InOrder(es, from, to) && from <= t <= later <= to
    ensures 0 <= Ran(hz, c, es, from, t) <= Ran(hz, c, es, from, later)
    decreases later - t
  {
    if t < later {
      RanSteps(hz, c, es, from, to, t);
      RanGrows(hz, c, es, from, to, t + 1, later);
    }
    ElapsedAt(hz, c, es, from, to, t);
  }

  lemma ElapsedAt(hz: u64, c: Countdown, es: seq<Event>, from: nat, to: nat, t: nat)
    requires Untouched(es) && InOrder(es, from, to) && from <= t <= to
    ensures 0 <= Ran(hz, c, es, from, t) <= t - from && At(hz, c, es, t).target == c.target
    ensures ElapsedTicks(At(hz, c, es, t), Counter(t)) ==
            Counter(ElapsedTicks(c, Counter(from)) + Ran(hz, c, es, from, t))
  {
    ByIsInOrder(es, from, to, t);
    ElapsedIsRunningTime(hz, c, By(es, t), from, t);
  }

  // Whatever it has run for in the end, there was a tick that brought it to each amount before that.
  lemma {:induction false} TickTo(hz: u64, c: Countdown, es: seq<Event>, from: nat, to: nat, amount: nat, end: nat)
    returns (t: nat)
    requires Untouched(es) && InOrder(es, from, to) && from <= end <= to
    requires 0 < amount <= Ran(hz, c, es, from, end)
    ensures from <= t < end && Ran(hz, c, es, from, t) == amount - 1 && Ran(hz, c, es, from, t + 1) == amount
    decreases end
  {
    ElapsedAt(hz, c, es, from, to, end);
    RanSteps(hz, c, es, from, to, end - 1);
    if amount <= Ran(hz, c, es, from, end - 1) {
      t := TickTo(hz, c, es, from, to, amount, end - 1);
    } else {
      t := end - 1;
    }
  }

  ghost predicate NeverRises(hz: u64, c: Countdown, es: seq<Event>, from: nat, to: nat)
    requires Untouched(es)
  {
    forall t: nat, later: nat :: from <= t <= later <= to ==>
      Remaining(hz, At(hz, c, es, later), Counter(later)) <= Remaining(hz, At(hz, c, es, t), Counter(t))
  }

  lemma ElapsedWhileItFits(hz: u64, c: Countdown, es: seq<Event>, from: nat, to: nat, t: nat)
    requires Untouched(es) && InOrder(es, from, to) && from <= t <= to
    requires ElapsedTicks(c, Counter(from)) + Ran(hz, c, es, from, to) < U64_MODULUS
    ensures 0 <= Ran(hz, c, es, from, t) && At(hz, c, es, t).target == c.target
    ensures ElapsedTicks(At(hz, c, es, t), Counter(t)) == ElapsedTicks(c, Counter(from)) + Ran(hz, c, es, from, t)
  {
    RanGrows(hz, c, es, from, to, t, to);
    ElapsedAt(hz, c, es, from, to, t);
    CounterFollows(0, ElapsedTicks(c, Counter(from)) + Ran(hz, c, es, from, t));
  }

  lemma LessFits(hz: u64, less: nat, more: nat)
    requires less <= more && SpanFits(hz, more)
    ensures SpanFits(hz, less)
  {
    MulMono(less, more, NS_PER_S);
  }

  lemma FallsWhileItFits(hz: u64, c: Countdown, es: seq<Event>, from: nat, to: nat, t: nat, later: nat)
    requires Untouched(es) && InOrder(es, from, to) && hz > 0 && from <= t <= later <= to
    requires SpanFits(hz, ElapsedTicks(c, Counter(from)) + Ran(hz, c, es, from, to))
    ensures Remaining(hz, At(hz, c, es, later), Counter(later)) <= Remaining(hz, At(hz, c, es, t), Counter(t))
  {
    var e := ElapsedTicks(c, Counter(from));
    RanGrows(hz, c, es, from, to, t, later);
    RanGrows(hz, c, es, from, to, later, to);
    ElapsedWhileItFits(hz, c, es, from, to, t);
    ElapsedWhileItFits(hz, c, es, from, to, later);
    var less, more := e + Ran(hz, c, es, from, t), e + Ran(hz, c, es, from, later);
    LessFits(hz, more, e + Ran(hz, c, es, from, to));
    ShowsLess(hz, less, more, At(hz, c, es, t), At(hz, c, es, later), t, later);
  }

  // At the first amount past 2^64 nanoseconds it shows more than just before.
  lemma JumpsAtFirstUnfit(hz: u64, c: Countdown, d: Countdown, t: nat, e: u64)
    requires hz > 0 && c.target == d.target >= STEP_NS && e > 0 && Fits(hz, e - 1)
    requires U64_MODULUS * hz <= e * NS_PER_S < U64_MODULUS * hz + NS_PER_S
    requires ElapsedTicks(c, Counter(t)) == e - 1 && ElapsedTicks(d, Counter(t + 1)) == e
    ensures Remaining(hz, c, Counter(t)) < Remaining(hz, d, Counter(t + 1))
  {
    DropsAtFirstUnfit(hz, e);
    CutQuotient(e * NS_PER_S, hz);
    assert TicksToNs(hz, e) <= NS_PER_S;
  }

  // And so it does when the tick count itself wraps.
  lemma JumpsAtWrap(hz: u64, c: Countdown, d: Countdown, t: nat)
    requires hz > 0 && c.target == d.target > 0 && Fits(hz, U64_MODULUS - 1)
    requires ElapsedTicks(c, Counter(t)) == U64_MODULUS - 1 && ElapsedTicks(d, Counter(t + 1)) == 0
    ensures Remaining(hz, c, Counter(t)) < Remaining(hz, d, Counter(t + 1))
  {
    LongestIsNotZero(hz);
    NothingIsZero(hz);
  }

  lemma LongestIsNotZero(hz: u64)
    requires hz > 0 && Fits(hz, U64_MODULUS - 1)
    ensures TicksToNs(hz, U64_MODULUS - 1) > 0
  {
    CutIsHarmlessExactly(hz, U64_MODULUS - 1);
    DivBelow((U64_MODULUS - 1) * NS_PER_S, hz, 1);
  }

  lemma NothingIsZero(hz: u64)
    requires hz > 0
    ensures TicksToNs(hz, 0) == 0
  {
    DivIs(0, hz, 0);
  }

  // The amount at which it goes wrong: the first past 2^64 nanoseconds, or 2^64 ticks if that comes first.
  predicate GoesWrongAt(hz: u64, amount: nat) {
    && 0 < amount <= U64_MODULUS && Fits(hz, amount - 1)
    && (amount < U64_MODULUS ==> U64_MODULUS * hz <= amount * NS_PER_S < U64_MODULUS * hz + NS_PER_S)
  }

  lemma FirstWrong(hz: u64, e: u64, all: nat) returns (amount: nat)
    requires hz > 0 && Fits(hz, e) && e <= all && !SpanFits(hz, all)
    ensures e < amount <= all && GoesWrongAt(hz, amount)
  {
    if all < U64_MODULUS || !Fits(hz, U64_MODULUS - 1) {
      amount := FirstUnfit(hz, if all < U64_MODULUS then all else U64_MODULUS - 1);
    } else {
      amount := U64_MODULUS;
    }
  }

  lemma JumpsWhereWrong(hz: u64, c: Countdown, d: Countdown, t: nat, amount: nat)
    requires hz > 0 && c.target == d.target >= STEP_NS && GoesWrongAt(hz, amount)
    requires ElapsedTicks(c, Counter(t)) == Counter(amount - 1) && ElapsedTicks(d, Counter(t + 1)) == Counter(amount)
    ensures Remaining(hz, c, Counter(t)) < Remaining(hz, d, Counter(t + 1))
  {
    CounterFollows(0, amount - 1);
    if amount < U64_MODULUS {
      CounterFollows(0, amount);
      JumpsAtFirstUnfit(hz, c, d, t, amount);
    } else {
      JumpsAtWrap(hz, c, d, t);
    }
  }

  lemma RisesOnceItDoesNot(hz: u64, c: Countdown, es: seq<Event>, from: nat, to: nat) returns (t: nat)
    requires Untouched(es) && InOrder(es, from, to) && from <= to
    requires hz > 0 && c.target >= STEP_NS && Fits(hz, ElapsedTicks(c, Counter(from)))
    requires !SpanFits(hz, ElapsedTicks(c, Counter(from)) + Ran(hz, c, es, from, to))
    ensures from <= t < to
    ensures Remaining(hz, At(hz, c, es, t), Counter(t)) < Remaining(hz, At(hz, c, es, t + 1), Counter(t + 1))
  {
    var e := ElapsedTicks(c, Counter(from));
    ElapsedAt(hz, c, es, from, to, to);
    var amount := FirstWrong(hz, e, e + Ran(hz, c, es, from, to));
    t := TickTo(hz, c, es, from, to, amount - e, to);
    ElapsedAt(hz, c, es, from, to, t);
    ElapsedAt(hz, c, es, from, to, t + 1);
    JumpsWhereWrong(hz, At(hz, c, es, t), At(hz, c, es, t + 1), t, amount);
  }

  /**
   Over a run of presses and looks the readout never rises from any instant to a later one exactly while
   the time it has been running in all fits 64 bits, as ticks and as nanoseconds. At the first tick past
   either it shows more than just before.
   */
  lemma ReadoutFallsExactly(hz: u64, c: Countdown, es: seq<Event>, from: nat, to: nat)
    requires Untouched(es) && InOrder(es, from, to)
    requires hz > 0 && c.target >= STEP_NS && Fits(hz, ElapsedTicks(c, Counter(from)))
    ensures NeverRises(hz, c, es, from, to) <==>
            SpanFits(hz, ElapsedTicks(c, Counter(from)) + RunningFor(hz, c, es, from, to))
  {
    OrderSpans(es, from, to);
    ByIsInOrder(es, from, to, to);
    if SpanFits(hz, ElapsedTicks(c, Counter(from)) + Ran(hz, c, es, from, to)) {
      forall t: nat, later: nat | from <= t <= later <= to
        ensures Remaining(hz, At(hz, c, es, later), Counter(later)) <= Remaining(hz, At(hz, c, es, t), Counter(t))
      {
        FallsWhileItFits(hz, c, es, from, to, t, later);
      }
    } else {
      var t := RisesOnceItDoesNot(hz, c, es, from, to);
      assert from <= t <= t + 1 <= to;
    }
  }

  // ------------------------------------------------------------------------
  // The countdown, in place
  // ------------------------------------------------------------------------

  class Timer {
    var running: bool
    var targetNs: u64
    var spent: u64
    var startedAt: u64
    var expired: bool

    function Now(): Countdown
      reads this
    {
      Countdown(running, targetNs, spent, startedAt, expired)
    }

    constructor ()
      ensures Now() == Fresh
    {
      running, targetNs, spent, startedAt, expired := false, DEFAULT_NS, 0, 0, false;
    }

    method RemainingNs(now: u64, hz: u64) returns (left: u64)
      modifies this`running, this`spent, this`expired
      ensures left == Remaining(hz, old(Now()), now) && Now() == Looked(hz, old(Now()), now)
    {
      var spentNs := TicksToNs(hz, ElapsedTicks(Now(), now));
      if spentNs >= targetNs {
        if running {
          spent := ElapsedTicks(Now(), now);
          running := false;
          expired := true;
        }
        return 0;
      }
      return targetNs - spentNs;
    }

    method Toggle(now: u64)
      modifies this`running, this`spent, this`startedAt
      ensures Now() == Toggled(old(Now()), now)
      ensures running == if expired then old(running) else !old(running)
    {
      if expired {
        return;
      }
      if running {
        spent := ElapsedTicks(Now(), now);
        running := false;
      } else {
        startedAt := now;
        running := true;
      }
    }

    method Reset()
      modifies this`running, this`spent, this`expired
      ensures Now() == Rewound(old(Now()))
    {
      running, spent, expired := false, 0, false;
    }

    /** Moves the target by ten seconds, saturating above and never below one step. */
    method Adjust(up: bool)
      modifies this`targetNs, this`expired, this`spent
      ensures Now() == Adjusted(old(Now()), up)
      ensures !running && up ==> targetNs == old(targetNs) + 10_000_000_000 ||
                                 (targetNs == U64_MODULUS - 1 < old(targetNs) + 10_000_000_000)
      ensures !running && !up ==> targetNs == old(targetNs) - 10_000_000_000 >= 10_000_000_000 ||
                                  (targetNs == 10_000_000_000 > old(targetNs) - 10_000_000_000)
      ensures if running then targetNs == old(targetNs) else spent == 0 && !expired
    {
      if running {
        return;
      }
      if up {
        targetNs := if targetNs <= U64_MODULUS - 1 - STEP_NS then targetNs + STEP_NS else U64_MODULUS - 1;
      } else {
        var lower := if targetNs >= STEP_NS then targetNs - STEP_NS else 0;
        targetNs := if lower > STEP_NS then lower else STEP_NS;
      }
      expired := false;
      spent := 0;
    }
  }
}
