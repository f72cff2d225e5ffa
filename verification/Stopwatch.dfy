/**
 The stopwatch and its lap table, against a history of what was pressed and when. Instants never wrap;
 the counter that reports them does.
 */
module StopwatchModel {
  import opened Words

  const MAX_LAPS: nat := 6

  // ------------------------------------------------------------------------
  // What was pressed
  // ------------------------------------------------------------------------

  datatype Event = Toggled(at: nat) | Lapped(at: nat) | Cleared

  // When it was started and stopped since the last reset, alternately.
  function Toggles(h: seq<Event>): seq<nat>
    decreases |h|
  {
    if h == [] then []
    else
      TogglesWith(Toggles(h[..|h| - 1]), h[|h| - 1])
  }

  function TogglesWith(ts: seq<nat>, e: Event): seq<nat> {
    match e
    case Toggled(t) => ts + [t]
    case Lapped(_) => ts
    case Cleared => []
  }

  // The summed length of the segments those bound, the last of them still open at `now` if there is an odd one.
  function Measured(ts: seq<nat>, now: nat): int
    decreases |ts|
  {
    if |ts| == 0 then 0
    else if |ts| == 1 then now - ts[0]
    else ts[1] - ts[0] + Measured(ts[2..], now)
  }

  function Reading(h: seq<Event>, now: nat): u64 {
    Counter(Measured(Toggles(h), now))
  }

  // What each lap since the last reset should have recorded.
  function LapReadings(h: seq<Event>): seq<u64>
    decreases |h|
  {
    if h == [] then []
    else
      LapsWith(LapReadings(h[..|h| - 1]), h[..|h| - 1], h[|h| - 1])
  }

  function LapsWith(laps: seq<u64>, before: seq<Event>, e: Event): seq<u64> {
    match e
    case Toggled(_) => laps
    case Lapped(t) => laps + [Reading(before, t)]
    case Cleared => []
  }

  function Latest(s: seq<u64>): seq<u64> {
    if |s| <= MAX_LAPS then s else s[|s| - MAX_LAPS..]
  }

  lemma HistoryGrows(h: seq<Event>, e: Event)
    ensures Toggles(h + [e]) == TogglesWith(Toggles(h), e)
    ensures LapReadings(h + [e]) == LapsWith(LapReadings(h), h, e)
  {
    assert (h + [e])[..|h + [e]| - 1] == h;
  }

  // A start adds an open segment, a stop closes it, and a stopped watch reads the same whenever it is read.
  lemma {:induction false} MeasuredGrows(ts: seq<nat>, t: nat, now: nat)
    ensures |ts| % 2 == 0 ==> Measured(ts + [t], now) == Measured(ts, t) + (now - t)
    ensures |ts| % 2 == 0 ==> Measured(ts, now) == Measured(ts, t)
    ensures |ts| % 2 == 1 ==> Measured(ts + [t], now) == Measured(ts, t)
    decreases |ts|
  {
    if |ts| >= 2 {
      assert (ts + [t])[2..] == ts[2..] + [t];
      MeasuredGrows(ts[2..], t, now);
    }
  }

  predicate Ordered(ts: seq<nat>) {
    forall i, j :: 0 <= i < j < |ts| ==> ts[i] <= ts[j]
  }

  /**
   On a counter that never runs backwards the measured time grows, no faster than time does, and the
   reading is that time exactly until it reaches 2^64 ticks.
   */
  lemma {:induction false} ReadingIsMeasuredTime(ts: seq<nat>, now: nat, later: nat)
    requires Ordered(ts) && now <= later && (ts != [] ==> ts[|ts| - 1] <= now)
    ensures 0 <= Measured(ts, now) <= Measured(ts, later) <= Measured(ts, now) + (later - now)
    ensures ts != [] ==> Measured(ts, later) <= later - ts[0]
    ensures Counter(Measured(ts, later)) == Measured(ts, later) <==> Measured(ts, later) < U64_MODULUS
    decreases |ts|
  {
    if |ts| >= 2 {
      ReadingIsMeasuredTime(ts[2..], now, later);
    }
  }

  lemma LatestGrows(s: seq<u64>, x: u64)
    ensures Latest(s + [x]) == if |s| < MAX_LAPS then Latest(s) + [x] else Latest(s)[1..] + [x]
    ensures |Latest(s)| == if |s| < MAX_LAPS then |s| else MAX_LAPS
  {
  }

  // ------------------------------------------------------------------------
  // The watch
  // ------------------------------------------------------------------------

  class Stopwatch {
    var running: bool
    var accumulated: u64
    var startedAt: u64
    const laps: array<u64>
    var lapCount: nat
    ghost var history: seq<Event>

    ghost predicate Valid()
      reads this, laps
    {
      && laps.Length == MAX_LAPS && lapCount <= MAX_LAPS
      && Keeps(Toggles(history))
      && laps[..lapCount] == Latest(LapReadings(history))
      && forall i :: lapCount <= i < MAX_LAPS ==> laps[i] == 0
    }

    // The accumulator holds the closed segments, and `startedAt` where the open one began.
    ghost predicate Keeps(ts: seq<nat>)
      reads this
    {
      && running == (|ts| % 2 == 1)
      && (running ==>
            && startedAt == Counter(ts[|ts| - 1])
            && accumulated == Counter(Measured(ts[..|ts| - 1], ts[|ts| - 1])))
      && (!running ==> accumulated == Counter(Measured(ts, 0)))
    }

    constructor ()
      ensures Valid() && fresh(laps) && history == []
    {
      running, accumulated, startedAt, lapCount, history := false, 0, 0, 0, [];
      laps := new u64[MAX_LAPS](_ => 0);
    }

    /** What it reads at instant `t`, which the counter reports as `now`. */
    method Ticks(now: u64, ghost t: nat) returns (ticks: u64)
      requires Valid() && now == Counter(t)
      ensures ticks == Reading(history, t)
    {
      ghost var ts := Toggles(history);
      if running {
        ghost var start := ts[|ts| - 1];
        ts := ts[..|ts| - 1];
        MeasuredGrows(ts, start, t);
        assert ts + [start] == Toggles(history);
        CounterAdds(t, start);
        CounterAdds(Measured(ts, start), t - start);
        return WrappingAdd(accumulated, WrappingSub(now, startedAt));
      }
      MeasuredGrows(ts, 0, t);
      return accumulated;
    }

    method Toggle(now: u64, ghost t: nat)
      requires Valid() && now == Counter(t)
      modifies this`running, this`accumulated, this`startedAt, this`history
      ensures Valid() && history == old(history) + [Toggled(t)]
    {
      ghost var ts := Toggles(history);
      HistoryGrows(history, Toggled(t));
      if running {
        var banked := Ticks(now, t);
        MeasuredGrows(ts, t, 0);
        accumulated := banked;
        running := false;
      } else {
        MeasuredGrows(ts, 0, t);
        assert (ts + [t])[..|ts + [t]| - 1] == ts;
        startedAt := now;
        running := true;
      }
      history := history + [Toggled(t)];
    }

    method Reset()
      requires Valid()
      modifies this`running, this`accumulated, this`lapCount, this`history, laps
      ensures Valid() && history == old(history) + [Cleared]
      ensures forall i :: 0 <= i < MAX_LAPS ==> laps[i] == 0
    {
      running, accumulated, lapCount := false, 0, 0;
      forall i | 0 <= i < MAX_LAPS {
        laps[i] := 0;
      }
      HistoryGrows(history, Cleared);
      history := history + [Cleared];
    }

    /** The table stays the latest six lap readings, oldest first. */
    method Lap(now: u64, ghost t: nat)
      requires Valid() && now == Counter(t)
      modifies this`lapCount, this`history, laps
      ensures Valid() && history == old(history) + [Lapped(t)]
    {
      var ticks := Ticks(now, t);
      HistoryGrows(history, Lapped(t));
      LatestGrows(LapReadings(history), ticks);
      Record(ticks);
      history := history + [Lapped(t)];
    }

    // Appends to the table, at the cost of its oldest entry once it is full.
    method Record(ticks: u64)
      requires laps.Length == MAX_LAPS && lapCount <= MAX_LAPS
      modifies this`lapCount, laps
      ensures lapCount == if old(lapCount) == MAX_LAPS then MAX_LAPS else old(lapCount) + 1
      ensures laps[..lapCount] == old(if lapCount == MAX_LAPS then laps[1..lapCount] else laps[..lapCount]) + [ticks]
      ensures forall i :: lapCount <= i < MAX_LAPS ==> laps[i] == old(laps[i])
    {
      if lapCount == MAX_LAPS {
        RotateLeft(laps);
        laps[MAX_LAPS - 1] := ticks;
      } else {
        laps[lapCount] := ticks;
        lapCount := lapCount + 1;
      }
    }
  }

  method RotateLeft(a: array<u64>)
    requires a.Length > 0
    modifies a
    ensures a[..] == old(a[1..]) + [old(a[0])]
  {
    var first := a[0];
    for i := 0 to a.Length - 1
      invariant forall k :: 0 <= k < i ==> a[k] == old(a[k + 1])
      invariant forall k :: i <= k < a.Length ==> a[k] == old(a[k])
    {
      a[i] := a[i + 1];
    }
    a[a.Length - 1] := first;
  }
}
