/**
 Counter ticks to nanoseconds and back. The product is formed in 128 bits, which it always fits; the
 quotient is cut to 64, which it need not.
 */
module TickConversion {
  import opened Words
  import opened FloorDivision

  const NS_PER_S: nat := 1_000_000_000
  const DAY_NS: nat := 86_400 * NS_PER_S

  function TicksToNs(hz: u64, ticks: u64): u64 {
    if hz == 0 then 0 else ticks * NS_PER_S / hz % U64_MODULUS
  }

  function NsToTicks(hz: u64, ns: u64): u64 {
    ns * hz / NS_PER_S % U64_MODULUS
  }

  // The same conversion at a coarser unit, `perSecond` of them to the second.
  function TicksToUnits(hz: u64, ticks: u64, perSecond: nat): u64
    requires 0 < perSecond <= NS_PER_S
  {
    if hz == 0 then 0 else ticks * perSecond / hz % U64_MODULUS
  }

  // What the caller can check before converting: the interval is under 2^64 nanoseconds.
  predicate Fits(hz: u64, ticks: u64) {
    ticks * NS_PER_S < U64_MODULUS * hz
  }

  // ------------------------------------------------------------------------
  // What the conversion keeps
  // ------------------------------------------------------------------------

  /** The quotient survives the cut to 64 bits exactly when it fits them. */
  lemma CutIsHarmlessExactly(hz: u64, ticks: u64)
    requires hz > 0
    ensures TicksToNs(hz, ticks) == ticks * NS_PER_S / hz <==> Fits(hz, ticks)
    ensures hz >= NS_PER_S ==> Fits(hz, ticks)
  {
    DivBelow(ticks * NS_PER_S, hz, U64_MODULUS);
    CutKeeps(ticks * NS_PER_S / hz);
    if hz >= NS_PER_S {
      MulMono(NS_PER_S, hz, U64_MODULUS);
    }
  }

  lemma CutKeeps(n: nat)
    ensures n % U64_MODULUS == n <==> n < U64_MODULUS
  {
  }

  /** A longer interval never reads shorter, and a sum differs from its parts by a nanosecond at most. */
  lemma ConversionIsMonotone(hz: u64, a: u64, b: u64)
    requires a <= b && (Fits(hz, b) || hz == 0)
    ensures TicksToNs(hz, a) <= TicksToNs(hz, b)
  {
    if hz > 0 {
      MulMono(a, b, NS_PER_S);
      CutIsHarmlessExactly(hz, a);
      CutIsHarmlessExactly(hz, b);
      DivMono(a * NS_PER_S, b * NS_PER_S, hz);
    }
  }

  lemma SplittingCostsOneNanosecond(hz: u64, a: u64, b: u64)
    requires a + b < U64_MODULUS && (Fits(hz, a + b) || hz == 0)
    ensures TicksToNs(hz, a) + TicksToNs(hz, b) <= TicksToNs(hz, a + b)
    ensures TicksToNs(hz, a + b) <= TicksToNs(hz, a) + TicksToNs(hz, b) + 1
  {
    if hz > 0 {
      MulMono(a, a + b, NS_PER_S);
      MulMono(b, a + b, NS_PER_S);
      CutIsHarmlessExactly(hz, a);
      CutIsHarmlessExactly(hz, b);
      CutIsHarmlessExactly(hz, a + b);
      DivSplits(a * NS_PER_S, b * NS_PER_S, hz);
      assert a * NS_PER_S + b * NS_PER_S == (a + b) * NS_PER_S;
    }
  }

  // The first interval that does not fit, with the one before it, which does.
  lemma FirstUnfit(hz: u64, b: u64) returns (t: u64)
    requires hz > 0 && !Fits(hz, b)
    ensures 0 < t <= b && Fits(hz, t - 1) && U64_MODULUS * hz <= t * NS_PER_S < U64_MODULUS * hz + NS_PER_S
  {
    MulMono(1, hz, U64_MODULUS);
    var first := CeilDiv(U64_MODULUS * hz, NS_PER_S);
    CeilDivIs(U64_MODULUS * hz, NS_PER_S);
    t := first;
    Distributes(t - 1, 1, NS_PER_S);
  }

  // What remains of a quotient once 2^64 is taken off it.
  lemma CutQuotient(n: nat, hz: nat)
    requires hz > 0 && U64_MODULUS * hz <= n < U64_MODULUS * hz + NS_PER_S
    ensures U64_MODULUS <= n / hz <= U64_MODULUS + NS_PER_S
    ensures n / hz % U64_MODULUS == n / hz - U64_MODULUS
  {
    DivBelow(n, hz, U64_MODULUS);
    MulMono(1, hz, NS_PER_S);
    Distributes(U64_MODULUS, NS_PER_S, hz);
    DivBelow(n, hz, U64_MODULUS + NS_PER_S);
  }

  lemma DropsAtFirstUnfit(hz: u64, t: u64)
    requires hz > 0 && t > 0 && Fits(hz, t - 1) && U64_MODULUS * hz <= t * NS_PER_S < U64_MODULUS * hz + NS_PER_S
    ensures TicksToNs(hz, t) < TicksToNs(hz, t - 1)
  {
    CutQuotient(t * NS_PER_S, hz);
    CutIsHarmlessExactly(hz, t - 1);
    Distributes(t - 1, 1, NS_PER_S);
    DivSplits((t - 1) * NS_PER_S, NS_PER_S, hz);
    MulMono(1, hz, NS_PER_S);
    DivMono(NS_PER_S, NS_PER_S * hz, hz);
    DivIs(NS_PER_S * hz, hz, NS_PER_S);
  }

  /** Up to `b` no interval reads longer than a longer one exactly when `b` fits; the first that does not drops. */
  lemma OrderHoldsExactlyWhileFits(hz: u64, b: u64)
    requires hz > 0
    ensures Fits(hz, b) <==> forall a: u64, c: u64 :: a <= c <= b ==> TicksToNs(hz, a) <= TicksToNs(hz, c)
  {
    if Fits(hz, b) {
      forall a: u64, c: u64 | a <= c <= b ensures TicksToNs(hz, a) <= TicksToNs(hz, c) {
        MulMono(c, b, NS_PER_S);
        ConversionIsMonotone(hz, a, c);
      }
    } else {
      var t := FirstUnfit(hz, b);
      DropsAtFirstUnfit(hz, t);
    }
  }

  // ------------------------------------------------------------------------
  // There and back
  // ------------------------------------------------------------------------

  lemma BackIs(x: nat, num: nat, den: nat, y: nat, rem: nat, loss: nat)
    requires num > 0 && x * num == y * den + rem && rem <= loss * num < rem + num
    ensures loss <= x && y * den / num == x - loss
  {
    Distributes(x, 1, num);
    if loss > x {
      MulMono(x + 1, loss, num);
    }
    Distributes(x - loss, loss, num);
    DivIs(y * den, num, x - loss);
  }

  /**
   `x` scaled by `num / den` and then by `den / num`: what is lost is the remainder of the first
   division, in whole units of the first scale.
   */
  lemma ThereAndBack(x: nat, num: nat, den: nat)
    requires num > 0 && den > 0
    ensures var back := x * num / den * den / num;
            back <= x && x - back == CeilDiv(x * num % den, num)
  {
    DivBounds(x * num, den);
    CeilDivIs(x * num % den, num);
    BackIs(x, num, den, x * num / den, x * num % den, CeilDiv(x * num % den, num));
  }

  lemma BackFits(hz: u64, ticks: u64)
    requires Fits(hz, ticks)
    ensures hz > 0 && NsToTicks(hz, TicksToNs(hz, ticks)) == ticks * NS_PER_S / hz * hz / NS_PER_S
  {
    CutIsHarmlessExactly(hz, ticks);
    ThereAndBack(ticks, NS_PER_S, hz);
  }

  /**
   Ticks to nanoseconds and back never exceeds the original; what is lost is exactly the ticks' worth of
   the remainder, so at most the ceiling of hz over 10^9, and nothing when the conversion was exact.
   */
  lemma RoundTripLosesTheRemainder(hz: u64, ticks: u64)
    requires Fits(hz, ticks)
    ensures hz > 0
    ensures var back := NsToTicks(hz, TicksToNs(hz, ticks));
            && back <= ticks && ticks - back == CeilDiv(ticks * NS_PER_S % hz, NS_PER_S)
            && ticks - back <= CeilDiv(hz, NS_PER_S)
            && (back == ticks <==> ticks * NS_PER_S % hz == 0)
  {
    BackFits(hz, ticks);
    ThereAndBack(ticks, NS_PER_S, hz);
    CeilDivMono(ticks * NS_PER_S % hz, hz, NS_PER_S);
  }

  lemma DeadlineTicks(hz: u64, ns: u64)
    requires ns * hz < U64_MODULUS * NS_PER_S
    ensures NsToTicks(hz, ns) == ns * hz / NS_PER_S
  {
    DivBelow(ns * hz, NS_PER_S, U64_MODULUS);
    CutKeeps(ns * hz / NS_PER_S);
  }

  lemma DeadlineBack(hz: u64, ns: u64)
    requires hz > 0 && ns * hz < U64_MODULUS * NS_PER_S
    ensures TicksToNs(hz, NsToTicks(hz, ns)) == ns * hz / NS_PER_S * NS_PER_S / hz
  {
    DeadlineTicks(hz, ns);
    ThereAndBack(ns, hz, NS_PER_S);
    CutKeeps(ns * hz / NS_PER_S * NS_PER_S / hz);
  }

  /** A deadline turned into ticks is never late: read back, it is at most the duration asked for. */
  lemma DeadlineIsNeverLate(hz: u64, ns: u64)
    requires hz > 0 && ns * hz < U64_MODULUS * NS_PER_S
    ensures var back := TicksToNs(hz, NsToTicks(hz, ns));
            back <= ns && ns - back == CeilDiv(ns * hz % NS_PER_S, hz) && ns - back <= CeilDiv(NS_PER_S, hz)
  {
    DeadlineBack(hz, ns);
    ThereAndBack(ns, hz, NS_PER_S);
    CeilDivMono(ns * hz % NS_PER_S, NS_PER_S, hz);
  }

  /** Converting straight to a coarser unit is converting to nanoseconds and dropping the rest. */
  lemma CoarserUnitsAgree(hz: u64, ticks: u64, perSecond: nat, each: nat)
    requires Fits(hz, ticks) && each > 0 && perSecond > 0 && perSecond * each == NS_PER_S
    ensures perSecond <= NS_PER_S && TicksToUnits(hz, ticks, perSecond) == TicksToNs(hz, ticks) / each
  {
    MulMono(1, each, perSecond);
    CutIsHarmlessExactly(hz, ticks);
    DivDiv(ticks * NS_PER_S, hz, each);
    DivDiv(ticks * NS_PER_S, each, hz);
    assert ticks * NS_PER_S == ticks * perSecond * each;
    DivIs(ticks * NS_PER_S, each, ticks * perSecond);
    assert hz * each == each * hz;
    assert ticks * perSecond / hz == TicksToNs(hz, ticks) / each;
    DivBounds(TicksToNs(hz, ticks), each);
    MulMono(1, each, TicksToNs(hz, ticks) / each);
  }

  // ------------------------------------------------------------------------
  // The wall clock
  // ------------------------------------------------------------------------

  // The second of the day at start, and the nanoseconds since.
  function WallNs(origin: nat, elapsed: u64): nat {
    (origin * NS_PER_S + elapsed) % U64_MODULUS % DAY_NS
  }

  /**
   It starts at the origin's second and reads a time of day, and between two readings it advances by what
   has elapsed, around midnight.
   */
  lemma WallClockAdvances(origin: nat, before: u64, after: u64)
    requires origin < 86_400 && before <= after && origin * NS_PER_S + after < U64_MODULUS
    ensures WallNs(origin, 0) == origin * 1_000_000_000
    ensures WallNs(origin, after) == (origin * 1_000_000_000 + after) % 86_400_000_000_000
    ensures WallNs(origin, after) < DAY_NS
    ensures WallNs(origin, after) == (WallNs(origin, before) + (after - before)) % DAY_NS
    ensures WallNs(origin, before) + (after - before) < DAY_NS ==>
              WallNs(origin, after) - WallNs(origin, before) == after - before
  {
    CutKeeps(origin * NS_PER_S);
    DivIs(origin * NS_PER_S, DAY_NS, 0);
    DivBounds(origin * NS_PER_S, DAY_NS);
    CutKeeps(origin * NS_PER_S + before);
    CutKeeps(origin * NS_PER_S + after);
    ModAdvances(origin * NS_PER_S + before, after - before, DAY_NS);
    DivBounds(origin * NS_PER_S + after, DAY_NS);
  }
}
