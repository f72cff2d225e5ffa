/**
 A value that chases a target along an eased curve, in 32-bit integers that truncate toward zero and
 wrap around.
 */
module TweenModel {
  import opened Common
  import opened Words
  import opened FloorDivision

  type i32 = x: int | -0x8000_0000 <= x < 0x8000_0000

  const FULL: nat := 1000
  const DEFAULT_RATE: u32 := 140
  // The largest distance whose product with a thousandth still fits 32 bits.
  const REACH: int := 2_147_483

  function Wrap(x: int): i32 {
    (x + 0x8000_0000) % U32_MODULUS - 0x8000_0000
  }

  // `/` as the source's integers divide.
  function Truncated(a: int, b: nat): int
    requires b > 0
  {
    if a >= 0 then a / b else -(-a / b)
  }

  // ------------------------------------------------------------------------
  // The curve
  // ------------------------------------------------------------------------

  // What is left to go, cubed, in thousandths.
  function Remaining(inv: nat): nat {
    inv * inv / FULL * inv / FULL
  }

  function EaseOut(t: u32): nat
    ensures EaseOut(t) <= FULL
  {
    var inv := FULL - Min(t, FULL);
    RemainingBounds(inv);
    FULL - Remaining(inv)
  }

  lemma RemainingMono(a: nat, b: nat)
    requires a <= b
    ensures Remaining(a) <= Remaining(b)
  {
    MulMono(a, b, a);
    MulMono(a, b, b);
    DivMono(a * a, b * b, FULL);
    MulMono(a * a / FULL, b * b / FULL, a);
    MulMono(a, b, b * b / FULL);
    DivMono(a * a / FULL * a, b * b / FULL * b, FULL);
  }

  lemma RemainingBounds(inv: nat)
    requires inv <= FULL
    ensures Remaining(inv) <= FULL
  {
    RemainingMono(inv, FULL);
  }

  // One product cut to whole thousandths: at most one less than a thousandth is dropped.
  lemma Thousandths(n: nat)
    ensures n / FULL * FULL <= n <= n / FULL * FULL + 999
  {
  }

  /** The curve is one less the cube of what is left to go, but for what its two divisions drop. */
  lemma EaseIsCubic(t: u32)
    ensures var inv: nat := if t < 1000 then 1000 - t else 0;
            var left := 1000 - EaseOut(t);
            left * 1_000_000 <= inv * inv * inv <= left * 1_000_000 + 999_000 + 999 * inv
  {
    var inv := FULL - Min(t, FULL);
    var square := inv * inv / FULL;
    RemainingBounds(inv);
    Thousandths(inv * inv);
    Thousandths(square * inv);
    MulMono(square * FULL, inv * inv, inv);
    MulMono(inv * inv, square * FULL + 999, inv);
    Distributes(square * FULL, 999, inv);
    assert square * FULL * inv == square * inv * FULL;
  }

  /** The curve rises from nothing to everything, and is flat at the top from 901 thousandths on. */
  lemma EaseRises(a: u32, b: u32)
    requires a <= b
    ensures EaseOut(a) <= EaseOut(b)
    ensures EaseOut(0) == 0 && (EaseOut(a) == FULL <==> a >= 901)
  {
    RemainingMono(FULL - Min(b, FULL), FULL - Min(a, FULL));
    var inv := FULL - Min(a, FULL);
    if inv <= 99 {
      RemainingMono(inv, 99);
    } else {
      RemainingMono(100, inv);
    }
  }

  // ------------------------------------------------------------------------
  // Mixing
  // ------------------------------------------------------------------------

  function Mix(from: i32, to: i32, permille: u32): i32 {
    Wrap(from + Truncated(Wrap(Wrap(to - from) * Min(permille, FULL)), FULL))
  }

  // What it should be.
  function Interpolated(from: int, to: int, permille: nat): int {
    from + Truncated((to - from) * Min(permille, FULL), FULL)
  }

  predicate Near(from: int, to: int) {
    -REACH <= to - from <= REACH
  }

  lemma ScaledBounds(d: int, p: nat)
    requires p <= FULL
    ensures d >= 0 ==> 0 <= d * p <= d * FULL
    ensures d <= 0 ==> d * FULL <= d * p <= 0
  {
    if d >= 0 { MulMono(p, FULL, d); } else { MulMono(p, FULL, -d); }
  }

  lemma WrapFits(x: i32)
    ensures Wrap(x) == x
  {
  }

  lemma TruncatedScaled(d: int, p: nat)
    requires p <= FULL
    ensures var q := Truncated(d * p, FULL);
            && (d >= 0 ==> 0 <= q <= d) && (d <= 0 ==> d <= q <= 0)
            && (q == d <==> p == FULL || d == 0) && (p == 0 ==> q == 0)
  {
    var m: nat := if d >= 0 then d else -d;
    ScaledBounds(d, p);
    assert d < 0 ==> -(d * p) == m * p;
    MagnitudeScaled(m, p);
  }

  lemma MagnitudeScaled(m: nat, p: nat)
    requires p <= FULL
    ensures 0 <= m * p / FULL <= m && (m * p / FULL == m <==> p == FULL || m == 0) && (p == 0 ==> m * p / FULL == 0)
  {
    MulMono(p, FULL, m);
    if m > 0 && p < FULL {
      assert m * p < m * FULL by { MulMono(p + 1, FULL, m); }
    }
  }

  lemma MixIsInterpolated(from: i32, to: i32, permille: u32)
    requires Near(from, to)
    ensures Mix(from, to, permille) == Interpolated(from, to, permille)
  {
    var p := Min(permille, FULL);
    ScaledBounds(to - from, p);
    TruncatedScaled(to - from, p);
    WrapFits(to - from);
    WrapFits((to - from) * p);
    WrapFits(from + Truncated((to - from) * p, FULL));
  }

  // However the product wraps, the value moves no further than the reach.
  lemma WrappedMoveIsShort(x: i32)
    ensures -REACH <= Truncated(x, FULL) <= REACH
  {
  }

  /** It is the interpolation at every thousandth exactly when the two ends are near enough for 32 bits. */
  lemma MixIsExactWithinReach(from: i32, to: i32)
    ensures Near(from, to) <==> forall p: u32 :: Mix(from, to, p) == Interpolated(from, to, p)
  {
    if Near(from, to) {
      forall p: u32 ensures Mix(from, to, p) == Interpolated(from, to, p) {
        MixIsInterpolated(from, to, p);
      }
    } else {
      MixFailsBeyondReach(from, to);
    }
  }

  lemma MixFailsBeyondReach(from: i32, to: i32)
    requires !Near(from, to)
    ensures Mix(from, to, 500) != Interpolated(from, to, 500) || Mix(from, to, 1000) != Interpolated(from, to, 1000)
  {
    var d := to - from;
    if -0x8000_0000 <= d < 0x8000_0000 {
      WrapFits(d);
      WrappedMoveIsShort(Wrap(d * FULL));
      TruncatedScaled(d, FULL);
      ShortMoveMisses(from, Truncated(Wrap(d * FULL), FULL), d);
    } else {
      WrappedMoveIsShort(Wrap(Wrap(d) * 500));
      HalfWay(d);
      ShortMoveMisses(from, Truncated(Wrap(Wrap(d) * 500), FULL), Truncated(d * 500, FULL));
    }
  }

  lemma HalfWay(d: int)
    ensures d >= 0 ==> d - 1 <= 2 * Truncated(d * 500, FULL) <= d
    ensures d <= 0 ==> d <= 2 * Truncated(d * 500, FULL) <= d + 1
  {
  }

  lemma ShortMoveMisses(from: int, move: int, wanted: int)
    requires -REACH <= move <= REACH
    requires REACH < wanted < U32_MODULUS - REACH || REACH < -wanted < U32_MODULUS - REACH
    ensures Wrap(from + move) != from + wanted
  {
    var k := (from + move + 0x8000_0000) / U32_MODULUS;
    assert Wrap(from + move) == from + move - k * U32_MODULUS;
  }

  // ------------------------------------------------------------------------
  // The tween, as a value
  // ------------------------------------------------------------------------

  datatype Motion = Motion(from: i32, to: i32, progress: u32, rate: u32)

  function Value(m: Motion): i32 {
    Mix(m.from, m.to, EaseOut(m.progress))
  }

  function Stepped(m: Motion): Motion {
    if m.progress >= FULL then m else m.(progress := Min((m.progress + m.rate) % U32_MODULUS, FULL))
  }

  function Retargeted(m: Motion, to: i32): Motion {
    if m.to == to then m else Motion(Value(m), to, 0, m.rate)
  }

  // The sum of progress and rate does not wrap.
  predicate Moves(m: Motion) {
    0 < m.rate <= U32_MODULUS - FULL
  }

  // Between its ends, whichever is the greater.
  predicate Between(x: int, a: int, b: int) {
    a <= x <= b || b <= x <= a
  }

  /** The value lies between its two ends, and is at the target exactly from 901 thousandths of the way on. */
  lemma ValueIsBetween(m: Motion)
    requires Near(m.from, m.to)
    ensures Between(Value(m), m.from, m.to)
    ensures Value(m) == m.to <==> m.progress >= 901 || m.from == m.to
  {
    MixIsInterpolated(m.from, m.to, EaseOut(m.progress));
    TruncatedScaled(m.to - m.from, EaseOut(m.progress));
    EaseRises(m.progress, m.progress);
  }

  // The one pair of ends whose distance wraps to a single step: the whole range, in either direction.
  predicate WholeRange(from: i32, to: i32) {
    to - from == U32_MODULUS - 1 || from - to == U32_MODULUS - 1
  }

  // The mixed value never leaves the two ends, and is the far one at the end.
  ghost predicate Behaves(from: i32, to: i32) {
    Mix(from, to, 1000) == to && forall p: u32 :: Between(Mix(from, to, p), from, to)
  }

  lemma NearBehaves(from: i32, to: i32, p: u32)
    requires Near(from, to)
    ensures Between(Mix(from, to, p), from, to) && Mix(from, to, 1000) == to
  {
    MixIsInterpolated(from, to, p);
    MixIsInterpolated(from, to, 1000);
    TruncatedScaled(to - from, Min(p, FULL));
    TruncatedScaled(to - from, FULL);
  }

  lemma WholeRangeBehaves(from: i32, to: i32, p: u32)
    requires WholeRange(from, to)
    ensures Mix(from, to, p) == if p >= FULL then to else from
  {
    var d := Wrap(to - from);
    assert d == 1 || d == -1;
    TruncatedScaled(d, Min(p, FULL));
    WrapFits(d * Min(p, FULL));
  }

  // Whatever moves less than the reach does not get to an end whose wrapped distance is more.
  lemma FarIsMissed(from: i32, to: i32)
    requires var d := Wrap(to - from); d < -REACH || d > REACH
    ensures Mix(from, to, 1000) != to
  {
    var d := Wrap(to - from);
    var move := Truncated(Wrap(d * FULL), FULL);
    WrappedMoveIsShort(Wrap(d * FULL));
    var k, j := (from + move + 0x8000_0000) / U32_MODULUS, (to - from + 0x8000_0000) / U32_MODULUS;
    assert Mix(from, to, 1000) == from + move - k * U32_MODULUS;
    assert d == to - from - j * U32_MODULUS;
  }

  // A distance past 32 bits wraps to a short one the other way, and half of that is outside the two ends.
  lemma WrongWayAtHalf(from: i32, to: i32)
    requires !WholeRange(from, to) && !(-0x8000_0000 <= to - from < 0x8000_0000)
    requires -REACH <= Wrap(to - from) <= REACH
    ensures !Between(Mix(from, to, 500), from, to)
  {
    var d := Wrap(to - from);
    assert d == to - from - U32_MODULUS || d == to - from + U32_MODULUS;
    WrapFits(d * 500);
    HalfWay(d);
  }

  /**
   The value stays between its two ends at every thousandth, and arrives, exactly when they are within
   reach of each other or span the whole range. Every other pair overshoots or never arrives.
   */
  lemma BehavesExactlyWithinReach(from: i32, to: i32)
    ensures Behaves(from, to) <==> Near(from, to) || WholeRange(from, to)
  {
    if Near(from, to) {
      forall p: u32 ensures Between(Mix(from, to, p), from, to) && Mix(from, to, 1000) == to {
        NearBehaves(from, to, p);
      }
    } else if WholeRange(from, to) {
      forall p: u32 ensures Mix(from, to, p) == if p >= FULL then to else from { WholeRangeBehaves(from, to, p); }
    } else if Wrap(to - from) < -REACH || Wrap(to - from) > REACH {
      FarIsMissed(from, to);
    } else {
      WrongWayAtHalf(from, to);
    }
  }

  /** A new target never makes it jump, however far away the target is. */
  lemma RetargetIsContinuous(m: Motion, to: i32)
    ensures Value(Retargeted(m, to)) == Value(m) && Retargeted(m, to).to == to
    ensures to == m.to ==> Retargeted(m, to) == m
  {
    EaseRises(0, 0);
    MixAtZero(Value(m), to);
  }

  lemma MixAtZero(from: i32, to: i32)
    ensures Mix(from, to, 0) == from
  {
    var d := Wrap(to - from);
    assert d * 0 == 0;
    WrapFits(0);
    WrapFits(from);
  }

  // More of the same distance is no less of it.
  lemma FurtherAlong(d: int, p: nat, q: nat)
    requires p <= q <= FULL
    ensures Between(Truncated(d * q, FULL), Truncated(d * p, FULL), d)
  {
    var m: nat := if d >= 0 then d else -d;
    MulMono(p, q, m);
    DivMono(m * p, m * q, FULL);
    MagnitudeScaled(m, q);
    ScaledBounds(d, p);
    ScaledBounds(d, q);
    assert d < 0 ==> -(d * p) == m * p && -(d * q) == m * q;
  }

  lemma ProgressGrows(m: Motion)
    requires m.rate <= U32_MODULUS - FULL
    ensures Stepped(m).progress >= m.progress
    ensures Stepped(m).progress == if m.progress >= FULL then m.progress else Min(m.progress + m.rate, FULL)
  {
  }

  /** A step never moves away from the target, nor past it. */
  lemma StepApproaches(m: Motion)
    requires Near(m.from, m.to) && m.rate <= U32_MODULUS - FULL
    ensures Between(Value(Stepped(m)), Value(m), m.to)
  {
    ProgressGrows(m);
    var n := Stepped(m);
    EaseRises(m.progress, n.progress);
    MixIsInterpolated(m.from, m.to, EaseOut(m.progress));
    MixIsInterpolated(m.from, m.to, EaseOut(n.progress));
    FurtherAlong(m.to - m.from, EaseOut(m.progress), EaseOut(n.progress));
  }

  function Steps(m: Motion, n: nat): Motion {
    if n == 0 then m else Stepped(Steps(m, n - 1))
  }

  lemma {:induction false} ProgressAfter(m: Motion, n: nat)
    requires Moves(m) && m.progress <= FULL
    ensures Steps(m, n) == m.(progress := Min(m.progress + n * m.rate, FULL))
  {
    if n > 0 {
      ProgressAfter(m, n - 1);
      Distributes(n - 1, 1, m.rate);
      ProgressGrows(Steps(m, n - 1));
    }
  }

  // The number of steps from `progress` to `goal`.
  function StepsTo(goal: nat, m: Motion): nat
    requires m.rate > 0
  {
    if m.progress >= goal then 0 else CeilDiv(goal - m.progress, m.rate)
  }

  lemma StepsToIsLeast(goal: nat, m: Motion, n: nat)
    requires Moves(m)
    ensures m.progress + n * m.rate >= goal <==> n >= StepsTo(goal, m)
  {
    if m.progress < goal {
      var gap := goal - m.progress;
      var c := CeilDiv(gap, m.rate);
      CeilDivIs(gap, m.rate);
      if n >= c {
        MulMono(c, n, m.rate);
      } else {
        MulMono(n + 1, c, m.rate);
        Distributes(n, 1, m.rate);
      }
    } else {
      MulMono(0, n, m.rate);
    }
  }

  /**
   It is settled after exactly the ceiling of what is left over the rate, and the value has arrived
   already when 901 thousandths are covered.
   */
  lemma ArrivesExactly(m: Motion, n: nat)
    requires Moves(m) && m.progress <= FULL && Near(m.from, m.to)
    ensures Steps(m, n).progress >= FULL <==> n >= StepsTo(FULL, m)
    ensures m.from != m.to ==> (Value(Steps(m, n)) == m.to <==> n >= StepsTo(901, m))
    ensures StepsTo(901, m) <= StepsTo(FULL, m)
  {
    ProgressAfter(m, n);
    StepsToIsLeast(FULL, m, n);
    StepsToIsLeast(901, m, n);
    ValueIsBetween(Steps(m, n));
    StepsToIsLeast(FULL, m, StepsTo(FULL, m));
    StepsToIsLeast(901, m, StepsTo(FULL, m));
  }

  // ------------------------------------------------------------------------
  // Whole runs
  // ------------------------------------------------------------------------

  datatype Event = Frame | NewTarget(to: i32)

  function After(m: Motion, events: seq<Event>): Motion
    decreases |events|
  {
    if events == [] then m
    else
      var before, last := After(m, events[..|events| - 1]), events[|events| - 1];
      match last
      case Frame => Stepped(before)
      case NewTarget(to) => Retargeted(before, to)
  }

  predicate InRange(x: int, lo: int, hi: int) {
    lo <= x <= hi
  }

  /**
   While every target lies in a range no wider than the reach, the value stays in that range over any
   run of frames and changes of target.
   */
  lemma {:induction false} RunStaysInRange(m: Motion, events: seq<Event>, lo: int, hi: int)
    requires hi - lo <= REACH && InRange(m.from, lo, hi) && InRange(m.to, lo, hi)
    requires forall i :: 0 <= i < |events| && events[i].NewTarget? ==> InRange(events[i].to, lo, hi)
    ensures var n := After(m, events);
            InRange(n.from, lo, hi) && InRange(n.to, lo, hi) && InRange(Value(n), lo, hi) && n.rate == m.rate
    decreases |events|
  {
    if events != [] {
      RunStaysInRange(m, events[..|events| - 1], lo, hi);
    }
    ValueIsBetween(After(m, events));
  }

  // ------------------------------------------------------------------------
  // The tween, in place
  // ------------------------------------------------------------------------

  class Tween {
    var from: i32
    var to: i32
    var progress: u32
    var rate: u32

    function Now(): Motion
      reads this
    {
      Motion(from, to, progress, rate)
    }

    constructor WithRate(value: i32, rate: u32)
      ensures Now() == Motion(value, value, FULL, rate)
    {
      from, to, progress, this.rate := value, value, FULL, rate;
    }

    constructor At(value: i32)
      ensures Now() == Motion(value, value, FULL, DEFAULT_RATE)
    {
      from, to, progress, rate := value, value, FULL, DEFAULT_RATE;
    }

    /** The next motion begins at the current value, so the value itself does not change. */
    method Retarget(target: i32)
      modifies this
      ensures Now() == Retargeted(old(Now()), target) && Value(Now()) == old(Value(Now()))
    {
      RetargetIsContinuous(Now(), target);
      if to == target {
        return;
      }
      from := Value(Now());
      to := target;
      progress := 0;
    }

    /** Advances one frame, and says whether anything moved. */
    method Step() returns (moved: bool)
      modifies this
      ensures Now() == Stepped(old(Now())) && moved == (old(progress) < FULL)
      ensures old(Near(from, to) && rate <= U32_MODULUS - FULL) ==> Between(Value(Now()), old(Value(Now())), to)
    {
      if Near(from, to) && rate <= U32_MODULUS - FULL {
        StepApproaches(Now());
      }
      if progress >= FULL {
        return false;
      }
      progress := Min((progress + rate) % U32_MODULUS, FULL);
      return true;
    }
  }
}
