/**
 One I2C transaction as a polled loop over two FIFOs, against a controller and a device that do what
 they like in between: carry out any number of queued commands, run slow, or give up.
 */
module I2cMaster {
  import opened Common

  const FIFO_DEPTH: nat := 16
  const DATA_RESTART: nat := 0x0400
  const DATA_STOP: nat := 0x0200
  const DATA_COMMAND_RD: nat := 0x0100
  // No slave has this address, so the first transfer always aims.
  const NO_TARGET: nat := 0xFFFF

  predicate IsRead(command: nat) {
    command / DATA_COMMAND_RD % 2 == 1
  }

  function Reads(commands: seq<nat>): nat {
    if commands == [] then 0 else Reads(commands[..|commands| - 1]) + if IsRead(commands[|commands| - 1]) then 1 else 0
  }

  // ------------------------------------------------------------------------
  // What the transaction should put on the bus
  // ------------------------------------------------------------------------

  function WriteCommand(out: seq<byte>, k: nat, wanted: nat): nat
    requires k < |out|
  {
    out[k] + if k + 1 == |out| && wanted == 0 then DATA_STOP else 0
  }

  function ReadCommand(k: nat, wanted: nat, afterWrite: bool): nat {
    DATA_COMMAND_RD + (if k == 0 && afterWrite then DATA_RESTART else 0) + (if k + 1 == wanted then DATA_STOP else 0)
  }

  // Every byte out, then one read command per byte wanted.
  function Script(out: seq<byte>, wanted: nat): seq<nat> {
    seq(|out|, k requires 0 <= k < |out| => WriteCommand(out, k, wanted))
    + seq(wanted, k requires 0 <= k < wanted => ReadCommand(k, wanted, |out| > 0))
  }

  predicate Stops(command: nat) {
    command / DATA_STOP % 2 == 1
  }

  predicate Restarts(command: nat) {
    command / DATA_RESTART % 2 == 1
  }

  /**
   The script is one transaction: the bytes out and then exactly as many reads as are wanted, STOP on
   the final command alone, and RESTART exactly on a first read that follows a write.
   */
  lemma ScriptIsOneTransaction(out: seq<byte>, wanted: nat, k: nat)
    requires k < |out| + wanted
    ensures |Script(out, wanted)| == |out| + wanted
    ensures var c := Script(out, wanted)[k];
            && (IsRead(c) <==> k >= |out|) && (!IsRead(c) ==> c % 256 == out[k])
            && (Stops(c) <==> k + 1 == |out| + wanted)
            && (Restarts(c) <==> k == |out| && |out| > 0)
            && c == (if k < |out| then out[k] as nat else 0x100) + (if k + 1 == |out| + wanted then 0x200 else 0)
                    + (if k == |out| > 0 then 0x400 else 0)
  {
    if k < |out| {
      CommandBits(out[k], false, false, k + 1 == |out| && wanted == 0);
    } else {
      assert Script(out, wanted)[k] == ReadCommand(k - |out|, wanted, |out| > 0);
      CommandBits(0, true, k == |out| && |out| > 0, k + 1 == |out| + wanted);
    }
  }

  lemma CommandBits(value: byte, read: bool, restart: bool, stop: bool)
    ensures var c := value + (if read then DATA_COMMAND_RD else 0) + (if restart then DATA_RESTART else 0)
                     + (if stop then DATA_STOP else 0);
            c % 256 == value && IsRead(c) == read && Restarts(c) == restart && Stops(c) == stop
  {
  }

  lemma ReadCommandIsRead(k: nat, wanted: nat, afterWrite: bool)
    ensures IsRead(ReadCommand(k, wanted, afterWrite))
  {
    CommandBits(0, true, k == 0 && afterWrite, k + 1 == wanted);
  }

  lemma WriteCommandIsNoRead(out: seq<byte>, k: nat, wanted: nat)
    requires k < |out|
    ensures !IsRead(WriteCommand(out, k, wanted))
  {
    CommandBits(out[k], false, false, k + 1 == |out| && wanted == 0);
  }

  // The script, one command at a time.
  lemma ScriptGrowsByWrite(out: seq<byte>, wanted: nat, k: nat)
    requires k < |out|
    ensures k + 1 <= |Script(out, wanted)|
    ensures Script(out, wanted)[..k + 1] == Script(out, wanted)[..k] + [WriteCommand(out, k, wanted)]
  {
  }

  lemma ScriptGrowsByRead(out: seq<byte>, wanted: nat, k: nat)
    requires k < wanted
    ensures |out| + k + 1 <= |Script(out, wanted)|
    ensures Script(out, wanted)[..|out| + k + 1] ==
            Script(out, wanted)[..|out| + k] + [ReadCommand(k, wanted, |out| > 0)]
  {
  }

  // ------------------------------------------------------------------------
  // What passed through the data register
  // ------------------------------------------------------------------------

  datatype Access = Wrote(command: nat) | Popped(value: byte)

  function Commands(trace: seq<Access>): seq<nat> {
    if trace == [] then []
    else
      var before, last := trace[..|trace| - 1], trace[|trace| - 1];
      Commands(before) + if last.Wrote? then [last.command] else []
  }

  function Values(trace: seq<Access>): seq<byte> {
    if trace == [] then []
    else
      var before, last := trace[..|trace| - 1], trace[|trace| - 1];
      Values(before) + if last.Popped? then [last.value] else []
  }

  // Reads asked for and not yet taken out.
  function InFlight(trace: seq<Access>): int {
    Reads(Commands(trace)) - |Values(trace)|
  }

  // In every prefix, the reads not yet answered to the driver fit one FIFO.
  ghost predicate NeverOverfull(trace: seq<Access>) {
    forall n :: 0 <= n <= |trace| ==> InFlight(trace[..n]) <= FIFO_DEPTH
  }

  lemma TraceAppends(trace: seq<Access>, a: Access)
    ensures Commands(trace + [a]) == Commands(trace) + if a.Wrote? then [a.command] else []
    ensures Values(trace + [a]) == Values(trace) + if a.Popped? then [a.value] else []
    ensures InFlight(trace + [a]) == InFlight(trace) +
              if a.Popped? then -1 else if IsRead(a.command) then 1 else 0
  {
    assert (trace + [a])[..|trace + [a]| - 1] == trace;
    if a.Wrote? {
      ReadsAppends(Commands(trace), a.command);
    } else {
      assert Commands(trace) + [] == Commands(trace);
    }
    assert a.Wrote? ==> Values(trace) + [] == Values(trace);
  }

  lemma ReadsAppends(commands: seq<nat>, c: nat)
    ensures Reads(commands + [c]) == Reads(commands) + if IsRead(c) then 1 else 0
  {
    assert (commands + [c])[..|commands + [c]| - 1] == commands;
  }

  lemma OverfullAppends(trace: seq<Access>, a: Access)
    requires NeverOverfull(trace) && InFlight(trace + [a]) <= FIFO_DEPTH
    ensures NeverOverfull(trace + [a])
  {
    var t := trace + [a];
    forall n | 0 <= n <= |t| ensures InFlight(t[..n]) <= FIFO_DEPTH {
      if n <= |trace| { assert t[..n] == trace[..n]; } else { assert t[..n] == t; }
    }
  }

  // ------------------------------------------------------------------------
  // The controller
  // ------------------------------------------------------------------------

  datatype Status = Status(txNotFull: bool, txEmpty: bool, rxNotEmpty: bool, activity: bool)

  /** The controller's state at one moment, as far as a transfer depends on it. */
  datatype Moment = Moment(asked: nat, coming: seq<byte>, lost: nat, abort: bool, rx: seq<byte>)

  // As many of the bytes on their way as the receive FIFO is sure to hold.
  function First(coming: seq<byte>): seq<byte> {
    if |coming| <= FIFO_DEPTH then coming else coming[..FIFO_DEPTH]
  }

  // What the controller may have done meanwhile: moved bytes along, losing none of the first sixteen,
  // and none at all if there were no more than that; or given up.
  predicate Later(was: Moment, now: Moment) {
    && was.rx <= now.rx && (was.abort ==> now.abort)
    && (!now.abort ==>
          && now.asked == was.asked && First(was.coming) <= now.coming
          && (|was.coming| <= FIFO_DEPTH ==> now.coming == was.coming && now.lost == was.lost))
  }

  lemma LaterStill(a: Moment, b: Moment, c: Moment)
    requires Later(a, b) && Later(b, c)
    ensures Later(a, c)
  {
  }

  lemma WroteIsLater(was: Moment, before: Moment, now: Moment, read: bool)
    requires Later(was, before) && now.rx == before.rx && now.abort == before.abort && now.lost == before.lost
    requires !read && !now.abort ==> now.asked == before.asked && now.coming == before.coming
    ensures !read ==> Later(was, now)
  {
  }

  class Port {
    // The byte the device sends for its `k`th read command.
    const device: nat -> byte
    // A controller that has stopped: it carries nothing out and gives nothing up.
    const stalled: bool
    var tx: seq<nat>
    var rx: seq<byte>
    // Read commands the device has answered.
    var answered: nat
    // Bytes that arrived with the receive FIFO full.
    var lost: nat
    var abort: bool
    // A bounded wait of the current transfer ran out.
    var expired: bool
    var slave: nat
    var trace: seq<Access>

    constructor (device: nat -> byte, stalled: bool)
      ensures this.device == device && this.stalled == stalled
      ensures Valid() && tx == [] && rx == [] && !abort && lost == 0 && trace == []
    {
      this.device, this.stalled := device, stalled;
      tx, rx, answered, lost, abort, expired, slave, trace := [], [], 0, 0, false, false, 0, [];
    }

    predicate Valid()
      reads this
    {
      |tx| <= FIFO_DEPTH && |rx| <= FIFO_DEPTH
    }

    // The index of the next byte a new read command will ask for.
    function Asked(): nat
      reads this
    {
      answered + Reads(tx)
    }

    // The bytes on their way to the driver: those in the receive FIFO, then those still to be read.
    function Coming(): seq<byte>
      reads this
    {
      rx + Sent(device, answered, Reads(tx))
    }

    function Now(): Moment
      reads this
    {
      Moment(Asked(), Coming(), lost, abort, rx)
    }

    // Stopped with the transmit FIFO full: neither FIFO will ever have anything to offer.
    predicate Choked()
      reads this
    {
      stalled && !abort && |tx| == FIFO_DEPTH && rx == []
    }

    // Whatever the controller gets done before the driver looks again.
    method Advance()
      requires Valid()
      modifies this`tx, this`rx, this`answered, this`lost, this`abort
      ensures Valid() && |tx| <= |old(tx)| && Later(old(Now()), Now())
      ensures stalled ==> tx == old(tx) && Now() == old(Now())
    {
      ghost var was := Now();
      var go: bool := *;
      while go && !stalled && tx != []
        invariant Valid() && |tx| <= |old(tx)| && Later(was, Now())
        invariant stalled ==> tx == old(tx) && Now() == was
        decreases |tx|
      {
        ghost var before := Now();
        CarryOut();
        LaterStill(was, before, Now());
        go := *;
      }
      var gaveUp: bool := *;
      if gaveUp && !stalled {
        abort, tx := true, [];
      }
    }

    // One command leaves the transmit FIFO for the bus; a read brings a byte back.
    method CarryOut()
      requires Valid() && tx != []
      modifies this`tx, this`rx, this`answered, this`lost
      ensures Valid() && |tx| == |old(tx)| - 1 && Later(old(Now()), Now())
    {
      var c := tx[0];
      ReadsSplit(tx);
      tx := tx[1..];
      if IsRead(c) {
        ArrivalIsLater(device, rx, answered, Reads(tx));
        if |rx| < FIFO_DEPTH { rx := rx + [device(answered)]; } else { lost := lost + 1; }
        answered := answered + 1;
      }
    }

    method ReadStatus() returns (s: Status)
      requires Valid()
      modifies this`tx, this`rx, this`answered, this`lost, this`abort
      ensures Valid() && |tx| <= |old(tx)| && Later(old(Now()), Now())
      ensures stalled ==> tx == old(tx) && Now() == old(Now())
      ensures s.txNotFull == (|tx| < FIFO_DEPTH) && s.txEmpty == (tx == []) && s.rxNotEmpty == (rx != [])
    {
      Advance();
      var activity: bool := *;
      s := Status(|tx| < FIFO_DEPTH, tx == [], rx != [], activity);
    }

    method Aborted() returns (yes: bool)
      requires Valid()
      modifies this`tx, this`rx, this`answered, this`lost, this`abort
      ensures Valid() && |tx| <= |old(tx)| && Later(old(Now()), Now())
      ensures stalled ==> tx == old(tx) && Now() == old(Now())
      ensures yes == abort
    {
      Advance();
      yes := abort;
    }

    // The first thing any wait does: the abort flag, then the FIFOs if it is clear.
    method Peek() returns (aborted: bool, s: Status)
      requires Valid()
      modifies this`tx, this`rx, this`answered, this`lost, this`abort
      ensures Valid() && Later(old(Now()), Now())
      ensures stalled ==> tx == old(tx) && Now() == old(Now())
      ensures if aborted then abort
              else s.txNotFull == (|tx| < FIFO_DEPTH) && s.txEmpty == (tx == []) && s.rxNotEmpty == (rx != [])
    {
      ghost var was := Now();
      aborted := Aborted();
      s := Status(false, false, false, false);
      if !aborted {
        ghost var before := Now();
        s := ReadStatus();
        LaterStill(was, before, Now());
      }
    }

    // While an abort is held the transmit FIFO is held in reset, and swallows what is written.
    method Write(command: nat)
      requires Valid() && |tx| < FIFO_DEPTH
      modifies this`tx, this`trace
      ensures Valid() && trace == old(trace) + [Wrote(command)]
      ensures !abort ==> Asked() == old(Asked()) + if IsRead(command) then 1 else 0
      ensures !abort ==> Coming() == old(Coming()) + if IsRead(command) then [device(old(Asked()))] else []
      ensures !abort ==> tx == old(tx) + [command]
    {
      trace := trace + [Wrote(command)];
      if !abort {
        ReadsAppends(tx, command);
        SentGrows(device, answered, Reads(tx));
        tx := tx + [command];
      }
    }

    method Pop() returns (value: byte)
      requires Valid() && rx != []
      modifies this`rx, this`trace
      ensures Valid() && trace == old(trace) + [Popped(value)]
      ensures Asked() == old(Asked()) && old(Coming()) == [value] + Coming() && old(rx) == [value] + rx
    {
      value := rx[0];
      rx := rx[1..];
      trace := trace + [Popped(value)];
    }

    method ClearAbort()
      modifies this`abort
      ensures !abort
    {
      abort := false;
    }

    // The two reasons a transfer has to fail.
    predicate GaveUp()
      reads this
    {
      abort || expired
    }
  }

  function Sent(device: nat -> byte, from: nat, count: nat): seq<byte> {
    seq(count, i requires 0 <= i < count => device(from + i))
  }

  lemma SentSplit(device: nat -> byte, from: nat, count: nat)
    ensures Sent(device, from, count + 1) == [device(from)] + Sent(device, from + 1, count)
  {
  }

  lemma SentGrows(device: nat -> byte, from: nat, count: nat)
    ensures Sent(device, from, count + 1) == Sent(device, from, count) + [device(from + count)]
  {
  }

  // A byte arriving is the next on its way, or, with the FIFO full, one beyond the first sixteen.
  lemma ArrivalIsLater(device: nat -> byte, rx: seq<byte>, answered: nat, left: nat)
    requires |rx| <= FIFO_DEPTH
    ensures var was := rx + Sent(device, answered, left + 1);
            var now := (if |rx| < FIFO_DEPTH then rx + [device(answered)] else rx) + Sent(device, answered + 1, left);
            && First(was) <= now && (|was| <= FIFO_DEPTH ==> |rx| < FIFO_DEPTH && now == was)
  {
    SentSplit(device, answered, left);
    assert rx + Sent(device, answered, left + 1) == rx + [device(answered)] + Sent(device, answered + 1, left);
  }

  lemma {:induction false} ReadsSplit(commands: seq<nat>)
    requires commands != []
    ensures Reads(commands) == (if IsRead(commands[0]) then 1 else 0) + Reads(commands[1..])
    decreases |commands|
  {
    if |commands| > 1 {
      ReadsSplit(commands[..|commands| - 1]);
      assert commands[..|commands| - 1][1..] == commands[1..][..|commands[1..]| - 1];
    }
  }

  // ------------------------------------------------------------------------
  // The driver
  // ------------------------------------------------------------------------

  datatype Outcome = Finished(ok: bool) | StillRunning

  class Master {
    const port: Port
    var target: nat

    constructor (port: Port)
      ensures this.port == port && target == NO_TARGET
    {
      this.port := port;
      target := NO_TARGET;
    }

    // The cached target is what the controller was last pointed at.
    predicate Aimed()
      reads this, port
    {
      target == NO_TARGET || port.slave == target % 1024
    }

    method Aim(address: nat) returns (ok: bool)
      requires Aimed() && address < NO_TARGET
      modifies this`target, port`slave, port`expired
      ensures !ok ==> port.expired && old(target) != address
      ensures Aimed() && (ok ==> target == address && port.slave == address % 1024)
      ensures !ok ==> target == old(target) && port.slave == old(port.slave)
    {
      if target == address {
        return true;
      }
      var disabled: bool := *;
      if !disabled {
        port.expired := true;
        return false;
      }
      port.slave := address % 1024;
      target := address;
      return true;
    }

    // What this call has put through the data register.
    ghost function Session(start: nat): seq<Access>
      requires start <= |port.trace|
      reads this, port
    {
      port.trace[start..]
    }

    /** Queues the command once, into a FIFO with room for it, or not at all and for a reason. */
    method Push(command: nat) returns (ok: bool)
      requires port.Valid()
      modifies port`tx, port`rx, port`answered, port`lost, port`abort, port`expired, port`trace
      ensures !ok ==> port.GaveUp() && port.trace == old(port.trace) && Later(old(port.Now()), port.Now())
      ensures port.Valid() && old(port.rx) <= port.rx && (old(port.abort) ==> port.abort)
      ensures ok ==> port.trace == old(port.trace) + [Wrote(command)]
      ensures ok && !IsRead(command) ==> Later(old(port.Now()), port.Now())
    {
      ghost var was := port.Now();
      // How often the deadline lets this look.
      var polls: int := *;
      while polls > 0
        invariant port.Valid() && port.trace == old(port.trace) && Later(was, port.Now())
      {
        polls := polls - 1;
        ghost var before := port.Now();
        var aborted, status := port.Peek();
        LaterStill(was, before, port.Now());
        if aborted {
          return false;
        }
        if status.txNotFull {
          before := port.Now();
          port.Write(command);
          WroteIsLater(was, before, port.Now(), IsRead(command));
          return true;
        }
      }
      port.expired := true;
      return false;
    }

    /** Sees the transmit FIFO out, or gives a reason not to; no byte coming in is disturbed. */
    method Drain() returns (ok: bool)
      requires port.Valid()
      modifies port`tx, port`rx, port`answered, port`lost, port`abort, port`expired
      ensures if ok then port.tx == [] else port.GaveUp()
      ensures port.Valid() && Later(old(port.Now()), port.Now())
    {
      ghost var was := port.Now();
      // How often the deadline lets this look.
      var polls: int := *;
      while polls > 0
        invariant port.Valid() && Later(was, port.Now())
      {
        polls := polls - 1;
        ghost var before := port.Now();
        var aborted, status := port.Peek();
        LaterStill(was, before, port.Now());
        if aborted {
          return false;
        }
        if status.txEmpty && !status.activity {
          return true;
        }
      }
      port.expired := true;
      return false;
    }

    /** A bounded pause: true as soon as either FIFO has something to offer. */
    method Settle() returns (ok: bool)
      requires port.Valid()
      modifies port`tx, port`rx, port`answered, port`lost, port`abort, port`expired
      ensures if ok then port.rx != [] || |port.tx| < FIFO_DEPTH else port.GaveUp()
      ensures port.Valid() && Later(old(port.Now()), port.Now())
      ensures old(port.Choked()) ==> !ok && port.Choked()
    {
      ghost var was := port.Now();
      // How often the deadline lets this look.
      var polls: int := *;
      while polls > 0
        invariant port.Valid() && Later(was, port.Now()) && (old(port.Choked()) ==> port.Choked())
      {
        polls := polls - 1;
        ghost var before := port.Now();
        var aborted, status := port.Peek();
        LaterStill(was, before, port.Now());
        if aborted {
          return false;
        }
        if status.rxNotEmpty || status.txNotFull {
          return true;
        }
      }
      port.expired := true;
      return false;
    }

    // How far a call has got.
    ghost predicate Progress(call: Call, into: seq<byte>, queued: nat, taken: nat)
      reads this, port
    {
      && call.start <= |port.trace| && port.Valid()
      && Told(call, Session(call.start), into, queued, taken)
      && Held(call, port.device, port.Now(), into, queued, taken)
    }

    // A status read changes nothing about how far a call has got.
    method Look(ghost call: Call, ghost into: seq<byte>, ghost queued: nat, ghost taken: nat) returns (status: Status)
      requires Progress(call, into, queued, taken)
      modifies port`tx, port`rx, port`answered, port`lost, port`abort
      ensures Progress(call, into, queued, taken)
      ensures status.txNotFull == (|port.tx| < FIFO_DEPTH) && status.rxNotEmpty == (port.rx != [])
      ensures port.stalled ==> port.tx == old(port.tx) && port.rx == old(port.rx) && port.abort == old(port.abort)
    {
      ghost var was := port.Now();
      status := port.ReadStatus();
      HeldLater(call, port.device, was, port.Now(), into, queued, taken);
    }

    /** Queues read commands while there is room for them and for what they will bring back. */
    method QueueReads(ghost call: Call, afterWrite: bool, wanted: nat, ghost into: seq<byte>, from: nat, taken: nat)
      returns (queued: nat)
      requires Progress(call, into, from, taken) && wanted == call.wanted && afterWrite == (call.out != [])
      modifies port`tx, port`rx, port`answered, port`lost, port`abort, port`trace
      ensures Progress(call, into, queued, taken)
      ensures old(WillChoke(call, 1)) && from == taken == 0 ==> queued == FIFO_DEPTH && port.Choked()
    {
      queued := from;
      ghost var stuck := WillChoke(call, 1) && from == 0 && taken == 0;
      var more := true;
      while more
        invariant Progress(call, into, queued, taken) && queued <= wanted
        invariant stuck ==> port.stalled && !port.abort && |port.tx| == queued && port.rx == []
        invariant stuck && !more ==> queued == wanted || queued == FIFO_DEPTH
        decreases wanted - queued, more
      {
        more := QueueNext(call, afterWrite, wanted, into, queued, taken);
        queued := if more then queued + 1 else queued;
      }
    }

    // One turn of that loop: false when there is nothing more to queue, or no room to queue it.
    method QueueNext(ghost call: Call, afterWrite: bool, wanted: nat, ghost into: seq<byte>, queued: nat, taken: nat)
      returns (more: bool)
      requires Progress(call, into, queued, taken) && wanted == call.wanted && afterWrite == (call.out != [])
      modifies port`tx, port`rx, port`answered, port`lost, port`abort, port`trace
      ensures Progress(call, into, if more then queued + 1 else queued, taken)
      ensures port.stalled && !old(port.abort) ==>
                && !port.abort && port.rx == old(port.rx)
                && |port.tx| == |old(port.tx)| + (if more then 1 else 0)
                && (more <==> queued < wanted && queued - taken < FIFO_DEPTH && |old(port.tx)| < FIFO_DEPTH)
    {
      if queued >= wanted || queued - taken >= FIFO_DEPTH {
        return false;
      }
      var status := Look(call, into, queued, taken);
      if !status.txNotFull {
        return false;
      }
      var command := DATA_COMMAND_RD;
      if queued == 0 && afterWrite {
        command := command + DATA_RESTART;
      }
      if queued + 1 == wanted {
        command := command + DATA_STOP;
      }
      assert command == ReadCommand(queued, call.wanted, call.out != []);
      QueueOne(call, into, queued, taken, command);
      return true;
    }

    method QueueOne(ghost call: Call, ghost into: seq<byte>, ghost queued: nat, ghost taken: nat, command: nat)
      requires Progress(call, into, queued, taken) && queued < call.wanted && queued < taken + FIFO_DEPTH
      requires |port.tx| < FIFO_DEPTH && command == ReadCommand(queued, call.wanted, call.out != [])
      modifies port`tx, port`trace
      ensures Progress(call, into, queued + 1, taken)
      ensures !port.abort ==> |port.tx| == |old(port.tx)| + 1
    {
      ghost var before, was := Session(call.start), port.Now();
      ReadCommandIsRead(queued, call.wanted, call.out != []);
      port.Write(command);
      assert Session(call.start) == before + [Wrote(command)];
      ToldQueued(call, before, into, queued, taken);
      HeldQueued(call, port.device, was, port.Now(), into, queued, taken);
    }

    /** Takes out whatever has arrived. */
    method TakeBytes(ghost call: Call, into: array<byte>, queued: nat, from: nat) returns (taken: nat)
      requires Progress(call, into[..], queued, from)
      modifies port`tx, port`rx, port`answered, port`lost, port`abort, port`trace, into
      ensures Progress(call, into[..], queued, taken) && from <= taken
      ensures old(port.Choked()) ==> port.Choked() && taken == from
    {
      taken := from;
      var more := true;
      while more
        invariant Progress(call, into[..], queued, taken) && from <= taken <= queued
        invariant old(port.Choked()) ==> port.Choked() && taken == from
        decreases queued - taken, more
      {
        more := TakeNext(call, into, queued, taken);
        taken := if more then taken + 1 else taken;
      }
    }

    // One turn of that loop: false when everything queued is here, or nothing more has arrived yet.
    method TakeNext(ghost call: Call, into: array<byte>, queued: nat, taken: nat) returns (more: bool)
      requires Progress(call, into[..], queued, taken)
      modifies port`tx, port`rx, port`answered, port`lost, port`abort, port`trace, into
      ensures Progress(call, into[..], queued, if more then taken + 1 else taken)
      ensures more ==> taken < queued
      ensures old(port.Choked()) ==> !more && port.Choked()
    {
      if taken >= queued {
        return false;
      }
      var status := Look(call, into[..], queued, taken);
      if !status.rxNotEmpty {
        return false;
      }
      TakeOne(call, into, queued, taken);
      return true;
    }

    method TakeOne(ghost call: Call, into: array<byte>, ghost queued: nat, taken: nat)
      requires Progress(call, into[..], queued, taken) && taken < queued && port.rx != []
      modifies port`rx, port`trace, into
      ensures Progress(call, into[..], queued, taken + 1)
    {
      ghost var before, was, had := Session(call.start), port.Now(), into[..];
      var value := port.Pop();
      into[taken] := value;
      assert Session(call.start) == before + [Popped(value)];
      assert into[..] == had[taken := value];
      ToldTook(call, before, had, queued, taken, value);
      HeldTook(call, port.device, was, port.Now(), had, queued, taken, value);
    }

    /** The write half: every byte in order, the last with STOP if nothing is read back. */
    method WriteBytes(ghost call: Call, out: seq<byte>, wanted: nat) returns (ok: bool, ghost n: nat)
      requires out == call.out && wanted == call.wanted && Written(call, 0)
      modifies port`tx, port`rx, port`answered, port`lost, port`abort, port`expired, port`trace
      ensures Written(call, n) && (ok ==> n == |out|)
      ensures !ok ==> port.GaveUp()
      ensures out == [] ==> ok && port.tx == old(port.tx) && port.rx == old(port.rx) && port.abort == old(port.abort)
    {
      n := 0;
      for index := 0 to |out|
        invariant Written(call, n) && n == index
        invariant index == 0 ==> port.tx == old(port.tx) && port.rx == old(port.rx) && port.abort == old(port.abort)
      {
        ok := WriteByte(call, out, wanted, index);
        if !ok {
          return;
        }
        n := n + 1;
      }
      return true, n;
    }

    method WriteByte(ghost call: Call, out: seq<byte>, wanted: nat, index: nat) returns (ok: bool)
      requires out == call.out && wanted == call.wanted && Written(call, index) && index < |out|
      modifies port`tx, port`rx, port`answered, port`lost, port`abort, port`expired, port`trace
      ensures Written(call, if ok then index + 1 else index)
      ensures !ok ==> port.GaveUp()
    {
      var last := index + 1 == |out|;
      var command := out[index] + if last && wanted == 0 then DATA_STOP else 0;
      assert command == WriteCommand(call.out, index, call.wanted);
      ghost var before, was := Session(call.start), port.Now();
      WroteOneMore(call, before, index);
      ok := Push(command);
      BeforeReadsLater(call, was, port.Now());
      if ok {
        assert Session(call.start) == before + [Wrote(command)];
      } else {
        assert Session(call.start) == before;
      }
    }

    // How far the write half has got.
    ghost predicate Written(call: Call, n: nat)
      reads this, port
    {
      && call.start <= |port.trace| && port.Valid()
      && WroteUpTo(call, Session(call.start), n) && BeforeReads(call, port.Now())
    }

    /**
     One transaction: `out` written, then `into` read. `passes` bounds the turns of the outer loop,
     which the driver itself does not bound.
     */
    method WriteRead(address: nat, out: seq<byte>, into: array<byte>, passes: nat) returns (outcome: Outcome, idle: nat)
      requires port.Valid() && Aimed() && address < NO_TARGET
      modifies this`target, port`slave, port`tx, port`rx, port`answered, port`lost
      modifies port`abort, port`expired, port`trace, into
      ensures port.Valid() && Aimed() && |old(port.trace)| <= |port.trace|
      // Whatever happens, nothing but a beginning of the script was queued, and never too much of it.
      ensures Commands(Session(|old(port.trace)|)) <= Script(out, into.Length)
      ensures NeverOverfull(Session(|old(port.trace)|))
      // A success queued the whole script, to the right slave, and took out one value per byte wanted.
      ensures outcome == Finished(true) && (out != [] || into.Length > 0) ==>
                && !port.abort && target == address && port.slave == address % 1024
                && Commands(Session(|old(port.trace)|)) == Script(out, into.Length)
                && Values(Session(|old(port.trace)|)) == into[..]
                && (into.Length == 0 ==> port.tx == [])
      // Begun with nothing on its way, those values are the device's answers in order, and none was lost.
      ensures outcome == Finished(true) && old(port.Coming()) == [] ==>
                into[..] == Sent(port.device, old(port.Asked()), into.Length) && port.lost == old(port.lost)
      // Begun with bytes on their way, the first values are those, up to sixteen of them.
      ensures outcome == Finished(true) ==>
                forall k :: 0 <= k < into.Length && k < |First(old(port.Coming()))| ==> into[k] == old(port.Coming())[k]
      // It is still running only if that many passes moved no byte at all.
      ensures outcome == StillRunning ==> passes <= idle + into.Length
      // A failure is the controller's abort, or a bounded wait that ran out.
      ensures outcome == Finished(false) ==> port.GaveUp()
      // With the controller stopped, a read of sixteen or more fails and leaves sixteen bytes on their way.
      ensures port.stalled && old(target) == address && old(port.tx == [] && port.rx == []) && out == []
              && into.Length >= FIFO_DEPTH && passes > 0 ==>
                && outcome == Finished(false) && target == address
                && port.Choked() && port.Coming() == Sent(port.device, old(port.Asked()), FIFO_DEPTH)
    {
      idle := 0;
      ghost var coming := port.Coming();
      ghost var call := Call(out, into.Length, |port.trace|, coming == [], port.Asked(), port.lost, First(coming));
      assert Session(call.start) == [];
      if out == [] && into.Length == 0 {
        return Finished(true), 0;
      }
      port.expired := false;
      var aimed := Aim(address);
      if !aimed {
        return Finished(false), 0;
      }
      port.ClearAbort();
      assert Session(call.start) == [];
      outcome, idle := Transact(call, out, into, passes);
    }

    // A stopped controller, at the start of a read that will choke it.
    predicate WillChoke(call: Call, passes: nat)
      reads this, port
    {
      && port.stalled && !port.abort && port.tx == [] && port.rx == [] && call.clean && call.base == port.Asked()
      && call.out == [] && call.wanted >= FIFO_DEPTH && passes > 0
    }

    predicate HasChoked(call: Call)
      reads this, port
    {
      port.Choked() && port.Coming() == Sent(port.device, call.base, FIFO_DEPTH)
    }

    /** Both halves of the transaction, once the controller is aimed and its abort cleared. */
    method Transact(ghost call: Call, out: seq<byte>, into: array<byte>, passes: nat)
      returns (outcome: Outcome, idle: nat)
      requires call.out == out && call.wanted == into.Length && Written(call, 0)
      modifies port`tx, port`rx, port`answered, port`lost, port`abort, port`expired, port`trace, into
      ensures Kept(call) && (outcome == Finished(true) ==> Succeeded(call, into[..]))
      ensures outcome == StillRunning ==> passes <= idle + into.Length
      ensures outcome == Finished(false) ==> port.GaveUp()
      ensures old(WillChoke(call, passes)) ==> outcome == Finished(false) && HasChoked(call)
    {
      var written;
      ghost var n;
      written, n := WriteBytes(call, out, into.Length);
      WrittenIsKept(call, Session(call.start), n);
      if !written {
        return Finished(false), 0;
      }
      ReadsBegin(call, Session(call.start), port.device, port.Now(), into[..]);
      outcome, idle := ReadHalf(call, out != [], into, passes);
    }

    // What any call leaves behind, and what a successful one does.
    ghost predicate Kept(call: Call)
      reads this, port
    {
      && port.Valid() && call.start <= |port.trace|
      && Commands(Session(call.start)) <= Script(call.out, call.wanted) && NeverOverfull(Session(call.start))
    }

    ghost predicate Succeeded(call: Call, into: seq<byte>)
      requires Kept(call)
      reads this, port
    {
      && !port.abort && Complete(call, port.device, Session(call.start), port.lost, into)
      && (call.wanted == 0 ==> port.tx == [])
    }

    /** The read half, and how the call ends. */
    method ReadHalf(ghost call: Call, afterWrite: bool, into: array<byte>, passes: nat)
      returns (outcome: Outcome, idle: nat)
      requires Progress(call, into[..], 0, 0) && afterWrite == (call.out != [])
      modifies port`tx, port`rx, port`answered, port`lost, port`abort, port`expired, port`trace, into
      ensures Kept(call) && (outcome == Finished(true) ==> Succeeded(call, into[..]))
      ensures outcome == StillRunning ==> passes <= idle + into.Length
      ensures outcome == Finished(false) ==> port.GaveUp()
      ensures old(WillChoke(call, passes)) ==> outcome == Finished(false) && HasChoked(call)
    {
      ghost var queued, taken;
      outcome, idle, queued, taken := ReadBytes(call, afterWrite, into, passes);
      ToldIsKept(call, Session(call.start), into[..], queued, taken);
      if outcome == Finished(true) {
        var ok := Finish(call, into, queued, taken);
        outcome := Finished(ok);
      }
    }

    // True only if nothing was aborted, and, with nothing to read, the last command has left the FIFO.
    method Finish(ghost call: Call, into: array<byte>, ghost queued: nat, ghost taken: nat) returns (ok: bool)
      requires Progress(call, into[..], queued, taken) && taken == into.Length
      modifies port`tx, port`rx, port`answered, port`lost, port`abort, port`expired
      ensures port.Valid() && port.trace == old(port.trace)
      ensures ok ==> !port.abort && Complete(call, port.device, Session(call.start), port.lost, into[..])
      ensures ok && into.Length == 0 ==> port.tx == []
      ensures !ok ==> port.GaveUp()
    {
      ghost var was := port.Now();
      if into.Length == 0 {
        ok := Drain();
        if !ok {
          return;
        }
        HeldLater(call, port.device, was, port.Now(), into[..], queued, taken);
        was := port.Now();
      }
      var aborted := port.Aborted();
      HeldLater(call, port.device, was, port.Now(), into[..], queued, taken);
      CompleteWhenTaken(call, port.device, Session(call.start), port.Now(), into[..], queued);
      return !aborted;
    }

    /** The read half, queuing and taking out in turn until every byte has been taken. */
    method ReadBytes(ghost call: Call, afterWrite: bool, into: array<byte>, passes: nat)
      returns (outcome: Outcome, idle: nat, ghost queued': nat, ghost taken': nat)
      requires Progress(call, into[..], 0, 0) && afterWrite == (call.out != [])
      modifies port`tx, port`rx, port`answered, port`lost, port`abort, port`expired, port`trace, into
      ensures Progress(call, into[..], queued', taken')
      ensures outcome == Finished(true) ==> taken' == into.Length
      ensures outcome == StillRunning ==> passes <= idle + into.Length
      ensures outcome == Finished(false) ==> port.GaveUp()
      ensures old(WillChoke(call, passes)) ==> outcome == Finished(false) && HasChoked(call)
    {
      var wanted := into.Length;
      var queued, taken, turns := 0, 0, 0;
      idle, queued', taken' := 0, 0, 0;
      ghost var chokes := WillChoke(call, passes);
      while taken < wanted
        invariant Progress(call, into[..], queued, taken) && turns <= idle + taken
        invariant chokes ==> turns == queued == taken == 0 && WillChoke(call, passes)
        decreases passes - turns
      {
        if turns >= passes {
          return StillRunning, idle, queued, taken;
        }
        turns := turns + 1;
        var ok, before := true, taken;
        ok, queued, taken := Pass(call, afterWrite, into, queued, taken);
        if !ok {
          return Finished(false), idle, queued, taken;
        }
        if taken == before {
          idle := idle + 1;
        }
      }
      return Finished(true), idle, queued, taken;
    }

    /** One turn of the outer loop; false if the controller gave up or nothing moved in time. */
    method Pass(ghost call: Call, afterWrite: bool, into: array<byte>, wasQueued: nat, wasTaken: nat)
      returns (ok: bool, queued: nat, taken: nat)
      requires Progress(call, into[..], wasQueued, wasTaken) && afterWrite == (call.out != [])
      modifies port`tx, port`rx, port`answered, port`lost, port`abort, port`expired, port`trace, into
      ensures Progress(call, into[..], queued, taken) && wasTaken <= taken
      ensures !ok ==> port.GaveUp()
      ensures old(WillChoke(call, 1)) && wasQueued == wasTaken == 0 ==> !ok && HasChoked(call)
    {
      queued := QueueReads(call, afterWrite, into.Length, into[..], wasQueued, wasTaken);
      taken := wasTaken;
      ghost var was := port.Now();
      var aborted := port.Aborted();
      HeldLater(call, port.device, was, port.Now(), into[..], queued, taken);
      if aborted {
        return false, queued, taken;
      }
      taken := TakeBytes(call, into, queued, wasTaken);
      ok := true;
      if taken == wasTaken {
        ok := Wait(call, into[..], queued, taken);
      }
    }

    method Wait(ghost call: Call, ghost into: seq<byte>, ghost queued: nat, ghost taken: nat) returns (ok: bool)
      requires Progress(call, into, queued, taken)
      modifies port`tx, port`rx, port`answered, port`lost, port`abort, port`expired
      ensures Progress(call, into, queued, taken)
      ensures !ok ==> port.GaveUp()
      ensures old(port.Choked()) ==> !ok && port.Choked()
    {
      ghost var was := port.Now();
      ok := Settle();
      HeldLater(call, port.device, was, port.Now(), into, queued, taken);
    }
  }

  /** The leftovers are real: with its controller stopped, a driver's read fails and sixteen bytes are still to come. */
  method StalledReadLeavesBytes(master: Master, into: array<byte>)
    requires master.port.Valid() && master.Aimed() && master.target < NO_TARGET
    requires master.port.stalled && master.port.tx == [] && master.port.rx == [] && into.Length >= FIFO_DEPTH
    modifies master, master.port, into
    ensures !master.port.abort && |master.port.Coming()| == FIFO_DEPTH
    ensures master.port.Coming() == Sent(master.port.device, old(master.port.Asked()), FIFO_DEPTH)
  {
    var outcome, _ := master.WriteRead(master.target, [], into, 1);
    assert outcome == Finished(false);
  }

  // ------------------------------------------------------------------------
  // The invariants of a call, on values
  // ------------------------------------------------------------------------

  /** What a call is for, and what it began with. */
  datatype Call = Call(out: seq<byte>, wanted: nat, start: nat, clean: bool, base: nat, lost: nat, stale: seq<byte>)

  // What has passed through the data register: all of the writes, `queued` reads, `taken` values.
  ghost predicate Told(call: Call, session: seq<Access>, into: seq<byte>, queued: nat, taken: nat) {
    && taken <= queued <= call.wanted == |into| && queued <= taken + FIFO_DEPTH
    && |Script(call.out, call.wanted)| == |call.out| + call.wanted
    && Commands(session) == Script(call.out, call.wanted)[..|call.out| + queued]
    && Values(session) == into[..taken]
    && NeverOverfull(session) && InFlight(session) == queued - taken
  }

  // Whose bytes are where, if the call began with nothing left over and nothing has been aborted.
  // And the bytes already on their way when it began, up to sixteen, come first.
  ghost predicate Held(call: Call, device: nat -> byte, now: Moment, into: seq<byte>, queued: nat, taken: nat) {
    && taken <= queued && taken <= |into| && |call.stale| <= FIFO_DEPTH
    && (call.clean && !now.abort ==>
          && now.lost == call.lost && now.asked == call.base + queued
          && now.coming == Sent(device, call.base + taken, queued - taken)
          && into[..taken] == Sent(device, call.base, taken))
    && (!now.abort ==> forall k :: 0 <= k < taken && k < |call.stale| ==> into[k] == call.stale[k])
    && (!now.abort && taken < |call.stale| ==> call.stale[taken..] <= now.coming)
  }

  // The write half of the script, as far as command `n`.
  ghost predicate WroteUpTo(call: Call, session: seq<Access>, n: nat) {
    && n <= |call.out| && |Script(call.out, call.wanted)| == |call.out| + call.wanted
    && Commands(session) == Script(call.out, call.wanted)[..n] && Values(session) == []
    && NeverOverfull(session) && InFlight(session) == 0
  }

  ghost predicate BeforeReads(call: Call, now: Moment) {
    && |call.stale| <= FIFO_DEPTH
    && (call.clean && !now.abort ==> now.lost == call.lost && now.asked == call.base && now.coming == [])
    && (!now.abort ==> call.stale <= now.coming)
  }

  lemma BeforeReadsLater(call: Call, was: Moment, now: Moment)
    requires BeforeReads(call, was) && Later(was, now)
    ensures BeforeReads(call, now)
  {
  }

  lemma WroteOneMore(call: Call, session: seq<Access>, n: nat)
    requires WroteUpTo(call, session, n) && n < |call.out|
    ensures var command := WriteCommand(call.out, n, call.wanted);
            !IsRead(command) && WroteUpTo(call, session + [Wrote(command)], n + 1)
  {
    var command := WriteCommand(call.out, n, call.wanted);
    WriteCommandIsNoRead(call.out, n, call.wanted);
    ScriptGrowsByWrite(call.out, call.wanted, n);
    TraceAppends(session, Wrote(command));
    OverfullAppends(session, Wrote(command));
  }

  // What a success amounts to.
  ghost predicate Complete(call: Call, device: nat -> byte, session: seq<Access>, lost: nat, into: seq<byte>) {
    && Commands(session) == Script(call.out, call.wanted) && Values(session) == into
    && (call.clean ==> into == Sent(device, call.base, call.wanted) && lost == call.lost)
    && (forall k :: 0 <= k < |into| && k < |call.stale| ==> into[k] == call.stale[k])
  }

  lemma WrittenIsKept(call: Call, session: seq<Access>, n: nat)
    requires WroteUpTo(call, session, n)
    ensures Commands(session) <= Script(call.out, call.wanted) && NeverOverfull(session)
  {
  }

  lemma ToldIsKept(call: Call, session: seq<Access>, into: seq<byte>, queued: nat, taken: nat)
    requires Told(call, session, into, queued, taken)
    ensures Commands(session) <= Script(call.out, call.wanted) && NeverOverfull(session)
  {
  }

  lemma CompleteWhenTaken(
      call: Call, device: nat -> byte, session: seq<Access>, now: Moment, into: seq<byte>, queued: nat)
    requires Told(call, session, into, queued, |into|) && Held(call, device, now, into, queued, |into|)
    ensures !now.abort ==> Complete(call, device, session, now.lost, into)
  {
    assert into[..|into|] == into;
    assert Script(call.out, call.wanted)[..|call.out| + queued] == Script(call.out, call.wanted);
  }

  lemma ReadsBegin(call: Call, session: seq<Access>, device: nat -> byte, now: Moment, into: seq<byte>)
    requires WroteUpTo(call, session, |call.out|) && BeforeReads(call, now) && |into| == call.wanted
    ensures Told(call, session, into, 0, 0) && Held(call, device, now, into, 0, 0)
  {
  }

  lemma ToldQueued(call: Call, session: seq<Access>, into: seq<byte>, queued: nat, taken: nat)
    requires Told(call, session, into, queued, taken) && queued < call.wanted && queued < taken + FIFO_DEPTH
    ensures Told(call, session + [Wrote(ReadCommand(queued, call.wanted, call.out != []))], into, queued + 1, taken)
  {
    var command := ReadCommand(queued, call.wanted, call.out != []);
    ReadCommandIsRead(queued, call.wanted, call.out != []);
    ScriptGrowsByRead(call.out, call.wanted, queued);
    TraceAppends(session, Wrote(command));
    assert Commands(session + [Wrote(command)]) == Script(call.out, call.wanted)[..|call.out| + queued + 1];
    OverfullAppends(session, Wrote(command));
  }

  lemma ToldTook(call: Call, session: seq<Access>, into: seq<byte>, queued: nat, taken: nat, value: byte)
    requires Told(call, session, into, queued, taken) && taken < queued
    ensures Told(call, session + [Popped(value)], into[taken := value], queued, taken + 1)
  {
    TraceAppends(session, Popped(value));
    OverfullAppends(session, Popped(value));
    assert into[taken := value][..taken + 1] == into[..taken] + [value];
  }

  lemma HeldQueued(call: Call, device: nat -> byte, was: Moment, now: Moment, into: seq<byte>, queued: nat, taken: nat)
    requires Held(call, device, was, into, queued, taken)
    requires now.rx == was.rx && now.abort == was.abort && now.lost == was.lost
    requires !now.abort ==> now.asked == was.asked + 1 && now.coming == was.coming + [device(was.asked)]
    ensures Held(call, device, now, into, queued + 1, taken)
  {
    SentGrows(device, call.base + taken, queued - taken);
  }

  lemma HeldTook(
      call: Call, device: nat -> byte, was: Moment, now: Moment, into: seq<byte>, queued: nat, taken: nat, value: byte)
    requires Held(call, device, was, into, queued, taken) && taken < queued && taken < |into|
    requires was.rx == [value] + now.rx && now.abort == was.abort && now.lost == was.lost
    requires now.asked == was.asked && was.coming == [value] + now.coming
    ensures Held(call, device, now, into[taken := value], queued, taken + 1)
  {
    SentSplit(device, call.base + taken, queued - taken - 1);
    SentGrows(device, call.base, taken);
    assert into[taken := value][..taken + 1] == into[..taken] + [value];
    if call.clean && !now.abort {
      var all := [device(call.base + taken)] + Sent(device, call.base + taken + 1, queued - taken - 1);
      assert all == [value] + now.coming;
      assert all[0] == value && all[1..] == now.coming;
    }
    if !now.abort && taken < |call.stale| {
      assert was.coming[0] == call.stale[taken..][0] == value;
      assert call.stale[taken..][1..] == call.stale[taken + 1..];
      assert was.coming[1..] == now.coming;
    }
  }

  // The controller getting on with it moves bytes along, and loses none while they all fit.
  lemma HeldLater(call: Call, device: nat -> byte, was: Moment, now: Moment, into: seq<byte>, queued: nat, taken: nat)
    requires Held(call, device, was, into, queued, taken) && queued <= taken + FIFO_DEPTH && Later(was, now)
    ensures Held(call, device, now, into, queued, taken)
  {
  }
}
