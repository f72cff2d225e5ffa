/** PS/2 pointer packets: three or four bytes collected one at a time, with one bit to find the start by. */
module PointerModel {
  import opened Common

  // ------------------------------------------------------------------------
  // One packet
  // ------------------------------------------------------------------------

  datatype Motion = Motion(dx: int, dy: int, wheel: int, left: bool, right: bool, middle: bool)

  predicate Starts(b: byte) {
    b / 8 % 2 == 1
  }

  function SignExtend(value: byte, negative: bool): int {
    if negative then value - 256 else value
  }

  function Nibble(z: nat): int {
    if z % 16 >= 8 then z % 16 - 16 else z % 16
  }

  // A movement past what nine bits can carry drops the packet.
  function Decode(p: seq<byte>): Option<Motion>
    requires 3 <= |p| <= 4
  {
    var flags := p[0];
    if flags / 64 != 0 then None
    else
      Some(Motion(SignExtend(p[1], flags / 16 % 2 == 1), -SignExtend(p[2], flags / 32 % 2 == 1),
                  if |p| == 4 then Nibble(p[3]) else 0, flags % 2 == 1, flags / 2 % 2 == 1, flags / 4 % 2 == 1))
  }

  // What a packet of `len` bytes can carry.
  predicate Fits(m: Motion, len: nat) {
    && -256 <= m.dx < 256 && -256 <= -m.dy < 256
    && if len == 4 then -8 <= m.wheel < 8 else m.wheel == 0
  }

  function Flag(yes: bool, value: nat): nat {
    if yes then value else 0
  }

  // What a device sends for `m`; `high` is whatever it has in the fourth byte's upper half.
  function Packet(m: Motion, len: nat, high: nat): seq<byte>
    requires Fits(m, len) && high < 16
  {
    var dy := -m.dy;
    [Flag(m.left, 1) + Flag(m.right, 2) + Flag(m.middle, 4) + 8 + Flag(m.dx < 0, 16) + Flag(dy < 0, 32),
     m.dx % 256, dy % 256] + if len == 4 then [m.wheel % 16 + 16 * high] else []
  }

  lemma FlagsReadBack(a: bool, b: bool, c: bool, d: bool, e: bool)
    ensures var f := Flag(a, 1) + Flag(b, 2) + Flag(c, 4) + 8 + Flag(d, 16) + Flag(e, 32);
            && f < 64 && Starts(f) && (f % 2 == 1) == a && (f / 2 % 2 == 1) == b && (f / 4 % 2 == 1) == c
            && (f / 16 % 2 == 1) == d && (f / 32 % 2 == 1) == e
  {
  }

  /** Every motion a packet can carry reads back as itself, signs, buttons and wheel. */
  lemma PacketReadsBack(m: Motion, len: nat, high: nat)
    requires (len == 3 || len == 4) && Fits(m, len) && high < 16
    ensures |Packet(m, len, high)| == len && Starts(Packet(m, len, high)[0])
    ensures Decode(Packet(m, len, high)) == Some(m)
  {
    FlagsReadBack(m.left, m.right, m.middle, m.dx < 0, -m.dy < 0);
    assert (m.wheel % 16 + 16 * high) % 16 == m.wheel % 16;
  }

  // ------------------------------------------------------------------------
  // The stream
  // ------------------------------------------------------------------------

  // A packet being collected, and what has come out.
  datatype Fed = Fed(collected: seq<byte>, motions: seq<Motion>)

  function Accumulated(len: nat, collected: seq<byte>, b: byte): (seq<byte>, Option<Motion>)
    requires 3 <= len <= 4 && |collected| < len
  {
    if collected == [] && !Starts(b) then ([], None)
    else if |collected| + 1 < len then (collected + [b], None)
    else ([], Decode(collected + [b]))
  }

  function Feed(len: nat, collected: seq<byte>, bytes: seq<byte>): (fed: Fed)
    requires 3 <= len <= 4 && |collected| < len
    ensures |fed.collected| < len
    decreases |bytes|
  {
    if bytes == [] then Fed(collected, [])
    else
      var (next, motion) := Accumulated(len, collected, bytes[0]);
      Before(motion, Feed(len, next, bytes[1..]))
  }

  function Before(motion: Option<Motion>, rest: Fed): (fed: Fed)
    ensures fed.collected == rest.collected
  {
    Fed(rest.collected, (if motion.Some? then [motion.value] else []) + rest.motions)
  }

  function Then(first: Fed, second: Fed): Fed {
    Fed(second.collected, first.motions + second.motions)
  }

  lemma BeforeThen(motion: Option<Motion>, first: Fed, second: Fed)
    ensures Then(Before(motion, first), second) == Before(motion, Then(first, second))
  {
  }

  lemma {:induction false} FeedSplits(len: nat, collected: seq<byte>, a: seq<byte>, b: seq<byte>)
    requires 3 <= len <= 4 && |collected| < len
    ensures var first := Feed(len, collected, a);
            var second := Feed(len, first.collected, b);
            Feed(len, collected, a + b) == Then(first, second)
    decreases |a|
  {
    if a == [] {
      assert a + b == b;
    } else {
      var (next, motion) := Accumulated(len, collected, a[0]);
      FeedSplits(len, next, a[1..], b);
      assert (a + b)[1..] == a[1..] + b;
      var first := Feed(len, next, a[1..]);
      BeforeThen(motion, first, Feed(len, first.collected, b));
    }
  }

  /** Bytes that cannot start a packet, having bit 3 clear, leave no trace before one that can. */
  lemma {:induction false} StraysAreSkipped(len: nat, strays: seq<byte>, rest: seq<byte>)
    requires 3 <= len <= 4 && forall i :: 0 <= i < |strays| ==> strays[i] % 16 < 8
    ensures Feed(len, [], strays + rest) == Feed(len, [], rest)
    decreases |strays|
  {
    if strays == [] {
      assert [] + rest == rest;
    } else {
      assert (strays + rest)[1..] == strays[1..] + rest;
      StraysAreSkipped(len, strays[1..], rest);
    }
  }

  /** A whole packet gives a motion exactly when neither overflow bit is set, and ends collecting either way. */
  lemma OverflowIsDropped(len: nat, packet: seq<byte>)
    requires 3 <= len <= 4 && |packet| == len && packet[0] % 16 >= 8
    ensures var fed := Feed(len, [], packet);
            fed.collected == [] && |fed.motions| == if packet[0] < 64 then 1 else 0
  {
    FeedCompletes(len, [], packet);
    assert [] + packet == packet;
  }

  // Bytes that do not complete the packet being collected are kept.
  lemma {:induction false} FeedKeeps(len: nat, collected: seq<byte>, bytes: seq<byte>)
    requires 3 <= len <= 4 && |collected| + |bytes| < len
    requires bytes != [] && collected == [] ==> Starts(bytes[0])
    ensures Feed(len, collected, bytes) == Fed(collected + bytes, [])
    decreases |bytes|
  {
    if bytes != [] {
      assert collected + bytes == collected + [bytes[0]] + bytes[1..];
      FeedKeeps(len, collected + [bytes[0]], bytes[1..]);
    }
  }

  // The bytes that do complete it turn it into a motion, or into nothing.
  lemma FeedCompletes(len: nat, collected: seq<byte>, bytes: seq<byte>)
    requires 3 <= len <= 4 && |collected| + |bytes| == len && bytes != []
    requires collected == [] ==> Starts(bytes[0])
    ensures Feed(len, collected, bytes) ==
              Fed([], if Decode(collected + bytes).Some? then [Decode(collected + bytes).value] else [])
  {
    var front, last := bytes[..|bytes| - 1], bytes[|bytes| - 1];
    FeedKeeps(len, collected, front);
    FeedSplits(len, collected, front, [last]);
    assert front + [last] == bytes;
    assert collected + front + [last] == collected + bytes;
    FeedOne(len, collected + front, last);
  }

  lemma FeedOne(len: nat, collected: seq<byte>, b: byte)
    requires 3 <= len <= 4 && |collected| < len
    ensures var (next, motion) := Accumulated(len, collected, b);
            Feed(len, collected, [b]) == Fed(next, if motion.Some? then [motion.value] else [])
  {
  }

  function Sent(len: nat, ms: seq<Motion>, high: nat): seq<byte>
    requires high < 16 && forall i :: 0 <= i < |ms| ==> Fits(ms[i], len)
    decreases |ms|
  {
    if ms == [] then [] else Packet(ms[0], len, high) + Sent(len, ms[1..], high)
  }

  /** A stream of packets gives exactly the motions sent, in order, with nothing left over. */
  lemma {:induction false} StreamReadsBack(len: nat, ms: seq<Motion>, high: nat)
    requires 3 <= len <= 4 && high < 16 && forall i :: 0 <= i < |ms| ==> Fits(ms[i], len)
    ensures Feed(len, [], Sent(len, ms, high)) == Fed([], ms)
    decreases |ms|
  {
    if ms != [] {
      var p := Packet(ms[0], len, high);
      PacketReadsBack(ms[0], len, high);
      FeedCompletes(len, [], p);
      assert [] + p == p;
      FeedSplits(len, [], p, Sent(len, ms[1..], high));
      StreamReadsBack(len, ms[1..], high);
      assert [ms[0]] + ms[1..] == ms;
    }
  }

  // ------------------------------------------------------------------------
  // After a lost byte
  // ------------------------------------------------------------------------

  predicate NoneStart(bytes: seq<byte>) {
    forall i :: 0 <= i < |bytes| ==> !Starts(bytes[i])
  }

  // How much is kept of bytes among which a start is looked for: all from the first that looks like one.
  function Kept(bytes: seq<byte>): (n: nat)
    ensures n <= |bytes| && (n == 0 <==> NoneStart(bytes))
    decreases |bytes|
  {
    if bytes == [] then 0
    else if Starts(bytes[0]) then |bytes|
    else
      assert NoneStart(bytes) <==> NoneStart(bytes[1..]);
      Kept(bytes[1..])
  }

  lemma {:induction false} SearchKeepsSuffix(len: nat, bytes: seq<byte>)
    requires 3 <= len <= 4 && |bytes| < len
    ensures var fed := Feed(len, [], bytes); fed.motions == [] && |fed.collected| == Kept(bytes)
    decreases |bytes|
  {
    if bytes != [] {
      if Starts(bytes[0]) {
        FeedKeeps(len, [], bytes);
        assert [] + bytes == bytes;
      } else {
        SearchKeepsSuffix(len, bytes[1..]);
      }
    }
  }

  // How many bytes into the next packet a receiver is, that was `lag` bytes into this one when it began.
  function LagAfter(len: nat, lag: nat, packet: seq<byte>): (after: nat)
    requires lag <= len == |packet|
    ensures after <= lag
  {
    Kept(packet[len - lag..])
  }

  /**
   A receiver `k` bytes into a packet when another begins takes the end of that one as a start again. How
   far it is out never grows, and it is back in step exactly when none of the last `k` bytes look like a start.
   */
  lemma LagNeverGrows(len: nat, collected: seq<byte>, packet: seq<byte>)
    requires 3 <= len <= 4 && 0 < |collected| < len && |packet| == len
    ensures var fed := Feed(len, collected, packet);
            && |fed.collected| == LagAfter(len, |collected|, packet) <= |collected| && |fed.motions| <= 1
            && (fed.collected == [] <==> NoneStart(packet[len - |collected|..]))
  {
    var a, b := packet[..len - |collected|], packet[len - |collected|..];
    assert a + b == packet;
    FeedCompletes(len, collected, a);
    SearchKeepsSuffix(len, b);
    FeedSplits(len, collected, a, b);
  }

  function Stream(packets: seq<seq<byte>>): seq<byte> {
    if packets == [] then [] else packets[0] + Stream(packets[1..])
  }

  function LagAfterAll(len: nat, lag: nat, packets: seq<seq<byte>>): (after: nat)
    requires lag <= len && forall i :: 0 <= i < |packets| ==> |packets[i]| == len
    ensures after <= lag
    decreases |packets|
  {
    if packets == [] then lag else LagAfterAll(len, LagAfter(len, lag, packets[0]), packets[1..])
  }

  // A receiver in step stays in step.
  lemma InStepStays(len: nat, packet: seq<byte>)
    requires 3 <= len <= 4 && |packet| == len && Starts(packet[0])
    ensures Feed(len, [], packet).collected == []
  {
    FeedCompletes(len, [], packet);
  }

  /**
   Over a whole stream of packets: where the receiver ends up depends on how far into one it began, and
   on which trailing bytes look like a start; it is back in step exactly when the lag runs out.
   */
  lemma {:induction false} StreamLag(len: nat, collected: seq<byte>, packets: seq<seq<byte>>)
    requires 3 <= len <= 4 && |collected| < len
    requires forall i :: 0 <= i < |packets| ==> |packets[i]| == len && Starts(packets[i][0])
    ensures var fed := Feed(len, collected, Stream(packets));
            && |fed.collected| == LagAfterAll(len, |collected|, packets)
            && (fed.collected == [] <==> LagAfterAll(len, |collected|, packets) == 0)
    decreases |packets|
  {
    if packets != [] {
      var p := packets[0];
      if collected == [] { InStepStays(len, p); } else { LagNeverGrows(len, collected, p); }
      assert |Feed(len, collected, p).collected| == LagAfter(len, |collected|, p);
      FeedSplits(len, collected, p, Stream(packets[1..]));
      StreamLag(len, Feed(len, collected, p).collected, packets[1..]);
    }
  }

  /** Once back in step, everything sent from there on arrives. */
  lemma BackInStep(len: nat, collected: seq<byte>, packet: seq<byte>, ms: seq<Motion>, high: nat)
    requires 3 <= len <= 4 && 0 < |collected| < len && |packet| == len
    requires high < 16 && forall i :: 0 <= i < |ms| ==> Fits(ms[i], len)
    requires NoneStart(packet[len - |collected|..])
    ensures var fed := Feed(len, collected, packet + Sent(len, ms, high));
            fed.collected == [] && fed.motions == Feed(len, collected, packet).motions + ms
  {
    LagNeverGrows(len, collected, packet);
    StreamReadsBack(len, ms, high);
    FeedSplits(len, collected, packet, Sent(len, ms, high));
  }

  function Repeated(packet: seq<byte>, n: nat): seq<byte> {
    if n == 0 then [] else packet + Repeated(packet, n - 1)
  }

  function Motions(m: Motion, n: nat): seq<Motion> {
    if n == 0 then [] else [m] + Motions(m, n - 1)
  }

  /**
   The bit is no guarantee: with its first byte lost, this stream of plain motions reads as a held left
   button until the stream ends.
   */
  lemma {:induction false} LostByteCanHoldAButton(n: nat)
    ensures Packet(Motion(9, -8, 0, false, false, false), 3, 0) == [8, 9, 8]
    ensures Feed(3, [9, 8], Repeated([8, 9, 8], n)) == Fed([9, 8], Motions(Motion(8, -8, 0, true, false, false), n))
  {
    if n > 0 {
      LostByteCanHoldAButton(n - 1);
      OutOfStep(8, 9, 8, Motion(8, -8, 0, true, false, false));
      FeedSplits(3, [9, 8], [8, 9, 8], Repeated([8, 9, 8], n - 1));
    }
  }

  lemma OutOfStep(x: byte, y: byte, z: byte, m: Motion)
    requires Starts(y) && Decode([y, z, x]) == Some(m)
    ensures Feed(3, [y, z], [x, y, z]) == Fed([y, z], [m])
  {
    assert [y, z] + [x] == [y, z, x];
    FeedCompletes(3, [y, z], [x]);
    assert [] + [y, z] == [y, z];
    FeedKeeps(3, [], [y, z]);
    FeedSplits(3, [y, z], [x], [y, z]);
    assert [x] + [y, z] == [x, y, z];
  }

  // ------------------------------------------------------------------------
  // The receiver
  // ------------------------------------------------------------------------

  class Receiver {
    // Zero for a pointer that is not on this port.
    const len: nat
    const packet: array<byte>
    var packetLen: nat

    ghost predicate Valid()
      reads this
    {
      packet.Length == 4 && (len == 0 || 3 <= len <= 4) && (if len == 0 then packetLen == 0 else packetLen < len)
    }

    ghost function Collected(): seq<byte>
      requires Valid()
      reads this, packet
    {
      packet[..packetLen]
    }

    constructor (len: nat)
      requires len == 0 || 3 <= len <= 4
      ensures Valid() && fresh(packet) && this.len == len && Collected() == []
    {
      this.len := len;
      packet := new byte[4](_ => 0);
      packetLen := 0;
    }

    method Accumulate(b: byte) returns (motion: Option<Motion>)
      requires Valid()
      modifies this`packetLen, packet
      ensures Valid()
      ensures len == 0 ==> motion == None && Collected() == old(Collected())
      ensures len != 0 ==> (Collected(), motion) == Accumulated(len, old(Collected()), b)
    {
      if len == 0 {
        return None;
      }
      if packetLen == 0 && b / 8 % 2 == 0 {
        return None;
      }
      ghost var all := Collected() + [b];
      packet[packetLen] := b;
      packetLen := packetLen + 1;
      assert packet[..packetLen] == all;
      if packetLen < len {
        return None;
      }
      packetLen := 0;
      var flags := packet[0];
      if flags / 64 != 0 {
        return None;
      }
      var dx := SignExtend(packet[1], flags / 16 % 2 == 1);
      var dy := SignExtend(packet[2], flags / 32 % 2 == 1);
      var wheel: int := 0;
      if len == 4 {
        var z: int := packet[3] % 16;
        wheel := if z / 8 % 2 == 1 then z - 16 else z;
      }
      return Some(Motion(dx, -dy, wheel, flags % 2 == 1, flags / 2 % 2 == 1, flags / 4 % 2 == 1));
    }
  }
}
