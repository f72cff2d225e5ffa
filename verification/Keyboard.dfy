/**
 Keyboard input: PS/2 bytes in whichever of two scan code sets arrives, and the events recovered from
 reports that only say which keys are held.
 */
module KeyboardModel {
  import opened Common
  import opened ScanCodes

  // A key and what happened to it: by scan code in an event, by the sender's own number before that.
  datatype Key = Key(code: byte, pressed: bool)

  const SET2_BREAK: byte := 0xF0

  // ------------------------------------------------------------------------
  // Scan codes
  // ------------------------------------------------------------------------

  datatype Latches = Latches(set2: bool, breaking: bool)

  function Stroke(s: Latches, b: byte): (Latches, Option<Key>) {
    if s.breaking then (s.(breaking := false), Some(Key(TranslateSet2(b), false)))
    else if b == SET2_BREAK then (Latches(true, true), None)
    else if s.set2 then (s, Some(Key(TranslateSet2(b), true)))
    else (s, Some(Key(b % 128, b < 128)))
  }

  datatype Typed = Typed(latches: Latches, keys: seq<Key>)

  function Type(s: Latches, bytes: seq<byte>): Typed
    decreases |bytes|
  {
    if bytes == [] then Typed(s, [])
    else
      var (next, key) := Stroke(s, bytes[0]);
      var rest := Type(next, bytes[1..]);
      Typed(rest.latches, (if key.Some? then [key.value] else []) + rest.keys)
  }

  const Unknown := Latches(false, false)

  /** The set is taken to be the second exactly when a break prefix has been seen, and never given up again. */
  lemma {:induction false} SetIsObserved(s: Latches, bytes: seq<byte>)
    requires s.breaking ==> s.set2
    ensures Type(s, bytes).latches.set2 <==> s.set2 || SET2_BREAK in bytes
    decreases |bytes|
  {
    if bytes != [] {
      SetIsObserved(Stroke(s, bytes[0]).0, bytes[1..]);
      assert bytes == [bytes[0]] + bytes[1..];
    }
  }

  // What a keyboard in the second set sends.
  function Set2Bytes(keys: seq<Key>): seq<byte>
    decreases |keys|
  {
    if keys == [] then []
    else Set2Byte(keys[0]) + Set2Bytes(keys[1..])
  }

  function Set2Byte(key: Key): seq<byte> {
    if key.pressed then [key.code] else [SET2_BREAK, key.code]
  }

  function Translated(keys: seq<Key>): seq<Key>
    decreases |keys|
  {
    if keys == [] then [] else [Key(TranslateSet2(keys[0].code), keys[0].pressed)] + Translated(keys[1..])
  }

  lemma Set2Unfolds(keys: seq<Key>)
    requires keys != []
    ensures keys[0].pressed ==> Set2Bytes(keys) == [keys[0].code] + Set2Bytes(keys[1..])
    ensures !keys[0].pressed ==> Set2Bytes(keys) == [SET2_BREAK] + ([keys[0].code] + Set2Bytes(keys[1..]))
  {
    Regroup(SET2_BREAK, keys[0].code, Set2Bytes(keys[1..]));
  }

  lemma Regroup(a: byte, b: byte, rest: seq<byte>)
    ensures [a, b] + rest == [a] + ([b] + rest)
  {
  }

  lemma TypeUnfolds(s: Latches, b: byte, rest: seq<byte>)
    ensures var (next, key) := Stroke(s, b);
            Type(s, [b] + rest) ==
            Typed(Type(next, rest).latches, (if key.Some? then [key.value] else []) + Type(next, rest).keys)
  {
    assert ([b] + rest)[1..] == rest;
  }

  /** Once the second set is known, every press and release comes back as it was sent, translated. */
  lemma {:induction false} Set2ReadsBack(keys: seq<Key>)
    requires forall i :: 0 <= i < |keys| && keys[i].pressed ==> keys[i].code != SET2_BREAK
    ensures Type(Latches(true, false), Set2Bytes(keys)) == Typed(Latches(true, false), Translated(keys))
    decreases |keys|
  {
    if keys != [] {
      Set2ReadsBack(keys[1..]);
      Set2Unfolds(keys);
      var rest := Set2Bytes(keys[1..]);
      TypeUnfolds(Latches(true, false), keys[0].code, rest);
      TypeUnfolds(Latches(true, false), SET2_BREAK, [keys[0].code] + rest);
      TypeUnfolds(Latches(true, true), keys[0].code, rest);
    }
  }

  // A press read as if it were a byte of the first set.
  function Misread(key: Key): Key {
    Key(key.code % 128, key.code < 128)
  }

  function ReadUnknowing(keys: seq<Key>): seq<Key>
    decreases |keys|
  {
    if keys == [] then []
    else if keys[0].pressed then [Misread(keys[0])] + ReadUnknowing(keys[1..])
    else Translated(keys)
  }

  /** Before its first release a keyboard in the second set is misread; from that release on it comes back as sent. */
  lemma {:induction false} Set2StartsMisread(keys: seq<Key>)
    requires forall i :: 0 <= i < |keys| && keys[i].pressed ==> keys[i].code != SET2_BREAK
    ensures Type(Unknown, Set2Bytes(keys)).keys == ReadUnknowing(keys)
    decreases |keys|
  {
    if keys != [] {
      Set2Unfolds(keys);
      var rest := Set2Bytes(keys[1..]);
      if keys[0].pressed {
        Set2StartsMisread(keys[1..]);
        TypeUnfolds(Unknown, keys[0].code, rest);
      } else {
        Set2ReadsBack(keys);
        TypeUnfolds(Unknown, SET2_BREAK, [keys[0].code] + rest);
        TypeUnfolds(Latches(true, false), SET2_BREAK, [keys[0].code] + rest);
      }
    }
  }

  // How many presses come before the first release.
  function LeadingPresses(keys: seq<Key>): (n: nat)
    ensures n <= |keys|
    decreases |keys|
  {
    if keys == [] || !keys[0].pressed then 0 else 1 + LeadingPresses(keys[1..])
  }

  predicate AllShared(keys: seq<Key>, n: nat)
    requires n <= |keys|
  {
    forall i :: 0 <= i < n ==> keys[i].code < 128 && TranslateSet2(keys[i].code) == keys[i].code
  }

  lemma SharedReadsBack(key: Key)
    requires key.pressed
    ensures Misread(key) == Key(TranslateSet2(key.code), true) <==>
            key.code < 128 && TranslateSet2(key.code) == key.code
  {
  }

  lemma SamePair(a: Key, x: seq<Key>, b: Key, y: seq<Key>)
    ensures [a] + x == [b] + y <==> a == b && x == y
  {
    if [a] + x == [b] + y {
      assert a == ([a] + x)[0] == ([b] + y)[0] == b;
      assert x == ([a] + x)[1..] == ([b] + y)[1..] == y;
    }
  }

  lemma {:induction false} UnknowingReadsBack(keys: seq<Key>)
    ensures ReadUnknowing(keys) == Translated(keys) <==> AllShared(keys, LeadingPresses(keys))
    decreases |keys|
  {
    if keys != [] && keys[0].pressed {
      UnknowingReadsBack(keys[1..]);
      SharedReadsBack(keys[0]);
      SamePair(Misread(keys[0]), ReadUnknowing(keys[1..]),
               Key(TranslateSet2(keys[0].code), true), Translated(keys[1..]));
      FirstShared(keys);
    }
  }

  lemma FirstShared(keys: seq<Key>)
    requires keys != [] && keys[0].pressed
    ensures AllShared(keys, LeadingPresses(keys)) <==>
            && keys[0].code < 128 && TranslateSet2(keys[0].code) == keys[0].code
            && AllShared(keys[1..], LeadingPresses(keys[1..]))
  {
    var n := LeadingPresses(keys);
    if AllShared(keys, n) {
      forall i | 0 <= i < n - 1
        ensures keys[1..][i].code < 128 && TranslateSet2(keys[1..][i].code) == keys[1..][i].code
      {
        assert keys[1..][i] == keys[i + 1];
      }
    }
    if AllShared(keys[1..], n - 1) {
      forall i | 1 <= i < n ensures keys[i].code < 128 && TranslateSet2(keys[i].code) == keys[i].code {
        assert keys[1..][i - 1] == keys[i];
      }
    }
  }

  /**
   From the start a keyboard in the second set comes back as sent, translated, exactly when every press
   before its first release is of a code that means the same in both sets.
   */
  lemma Set2ReadsBackExactly(keys: seq<Key>)
    requires forall i :: 0 <= i < |keys| && keys[i].pressed ==> keys[i].code != SET2_BREAK
    ensures Type(Unknown, Set2Bytes(keys)).keys == Translated(keys) <==> AllShared(keys, LeadingPresses(keys))
  {
    Set2StartsMisread(keys);
    UnknowingReadsBack(keys);
  }

  // What a keyboard in the first set sends.
  function Set1Bytes(keys: seq<Key>): seq<byte>
    requires forall i :: 0 <= i < |keys| ==> keys[i].code < 128
    decreases |keys|
  {
    if keys == [] then [] else [Set1Byte(keys[0])] + Set1Bytes(keys[1..])
  }

  function Set1Byte(key: Key): byte
    requires key.code < 128
  {
    if key.pressed then key.code else key.code + 128
  }

  // The one release whose byte is the other set's break prefix.
  const AMBIGUOUS := Key(0x70, false)

  /** A keyboard in the first set comes back as sent exactly until it releases the one key that looks like a prefix. */
  lemma {:induction false} Set1ReadsBackExactly(keys: seq<Key>)
    requires forall i :: 0 <= i < |keys| ==> keys[i].code < 128
    ensures Type(Unknown, Set1Bytes(keys)).keys == keys <==> AMBIGUOUS !in keys
    decreases |keys|
  {
    if keys != [] {
      var rest := Set1Bytes(keys[1..]);
      TypeUnfolds(Unknown, Set1Byte(keys[0]), rest);
      FirstAndRest(keys);
      if keys[0] == AMBIGUOUS {
        NeverMoreKeysThanBytes(Latches(true, true), rest);
        Set1Length(keys[1..]);
      } else {
        Set1ReadsBackExactly(keys[1..]);
        OneSet1Byte(keys[0]);
        SameRest(keys[0], Type(Unknown, rest).keys, keys[1..]);
      }
    }
  }

  lemma OneSet1Byte(key: Key)
    requires key.code < 128 && key != AMBIGUOUS
    ensures Stroke(Unknown, Set1Byte(key)) == (Unknown, Some(key))
  {
    if key.pressed {
      assert key.code % 128 == key.code && key.code / 128 == 0;
    } else {
      assert (key.code + 128) % 128 == key.code && (key.code + 128) / 128 == 1;
    }
  }

  lemma FirstAndRest(keys: seq<Key>)
    requires keys != []
    ensures keys == [keys[0]] + keys[1..]
    ensures AMBIGUOUS in keys <==> keys[0] == AMBIGUOUS || AMBIGUOUS in keys[1..]
  {
    assert keys == [keys[0]] + keys[1..];
  }

  lemma SameRest(key: Key, a: seq<Key>, b: seq<Key>)
    ensures [key] + a == [key] + b <==> a == b
  {
    if [key] + a == [key] + b {
      assert a == ([key] + a)[1..] == ([key] + b)[1..] == b;
    }
  }

  lemma {:induction false} Set1Length(keys: seq<Key>)
    requires forall i :: 0 <= i < |keys| ==> keys[i].code < 128
    ensures |Set1Bytes(keys)| == |keys|
    decreases |keys|
  {
    if keys != [] {
      Set1Length(keys[1..]);
    }
  }

  lemma {:induction false} NeverMoreKeysThanBytes(s: Latches, bytes: seq<byte>)
    ensures |Type(s, bytes).keys| <= |bytes|
    decreases |bytes|
  {
    if bytes != [] {
      NeverMoreKeysThanBytes(Stroke(s, bytes[0]).0, bytes[1..]);
    }
  }

  class Decoder {
    var set2: bool
    var set2Break: bool

    function Now(): Latches
      reads this
    {
      Latches(set2, set2Break)
    }

    constructor ()
      ensures Now() == Unknown
    {
      set2, set2Break := false, false;
    }

    method Keystroke(b: byte) returns (key: Option<Key>)
      modifies this
      ensures (Now(), key) == Stroke(old(Now()), b)
    {
      if set2Break {
        set2Break := false;
        return Some(Key(TranslateSet2(b), false));
      }
      if b == SET2_BREAK {
        set2 := true;
        set2Break := true;
        return None;
      }
      if set2 {
        return Some(Key(TranslateSet2(b), true));
      }
      return Some(Key(b % 128, b / 128 == 0));
    }
  }

  // ------------------------------------------------------------------------
  // Held keys
  // ------------------------------------------------------------------------

  // The key codes of a boot report; zero is an empty place.
  type Codes = seq<byte>

  function Held(codes: Codes): set<byte> {
    set c | c in codes && c != 0
  }

  function FirstBeyond(codes: Codes, others: Codes): Option<byte> {
    if codes == [] then None
    else if codes[0] != 0 && codes[0] !in others then Some(codes[0])
    else FirstBeyond(codes[1..], others)
  }

  // A press if there is one, otherwise a release if there is one.
  function Change(previous: Codes, current: Codes): Option<Key> {
    var down, up := FirstBeyond(current, previous), FirstBeyond(previous, current);
    if down.Some? then Some(Key(down.value, true))
    else if up.Some? then Some(Key(up.value, false))
    else None
  }

  // The event the interface sees: the usage turned into a scan code.
  function Scanned(event: Option<Key>): Option<Key> {
    match event
    case None => None
    case Some(key) => Some(Key(HidToScancode(key.code), key.pressed))
  }

  function Apply(held: set<byte>, event: Option<Key>): set<byte> {
    match event
    case None => held
    case Some(key) => if key.pressed then held + {key.code} else held - {key.code}
  }

  // The keys that went down or came up.
  function Changed(previous: Codes, current: Codes): set<byte> {
    (Held(current) - Held(previous)) + (Held(previous) - Held(current))
  }

  lemma {:induction false} FirstBeyondIsNew(codes: Codes, others: Codes)
    ensures FirstBeyond(codes, others) == None <==> Held(codes) <= Held(others)
    ensures FirstBeyond(codes, others).Some? ==> FirstBeyond(codes, others).value in Held(codes) - Held(others)
    decreases |codes|
  {
    if codes != [] {
      FirstBeyondIsNew(codes[1..], others);
      assert codes == [codes[0]] + codes[1..];
      assert codes[0] != 0 ==> codes[0] in Held(codes);
    }
  }

  /** There is no event exactly when nothing changed, and otherwise it is a true change, a press before any release. */
  lemma ChangeIsTrue(previous: Codes, current: Codes)
    ensures Change(previous, current) == None <==> Held(previous) == Held(current)
    ensures Change(previous, current).Some? ==>
              var key := Change(previous, current).value;
              && (key.pressed ==> key.code in Held(current) - Held(previous))
              && (!key.pressed ==> key.code in Held(previous) - Held(current) && Held(current) <= Held(previous))
  {
    FirstBeyondIsNew(current, previous);
    FirstBeyondIsNew(previous, current);
  }

  // The event itself: a press exactly if some key is held now that was not, and the scan code of one such key.
  lemma EventIsTrue(previous: Codes, current: Codes)
    ensures var event := Scanned(Change(previous, current));
            && (event == None <==> Held(previous) == Held(current))
            && (event.Some? ==>
                  && (event.value.pressed <==> exists c :: c in Held(current) - Held(previous))
                  && exists c :: HidToScancode(c) == event.value.code
                                 && c in if event.value.pressed then Held(current) - Held(previous)
                                         else Held(previous) - Held(current))
  {
    ChangeIsTrue(previous, current);
    var event := Change(previous, current);
    if event.Some? {
      var c := event.value.code;
      assert c in if event.value.pressed then Held(current) - Held(previous) else Held(previous) - Held(current);
    }
  }

  /** Replaying the event gives the new report's keys exactly when at most one key changed. */
  lemma ReplayHoldsExactly(previous: Codes, current: Codes)
    ensures Apply(Held(previous), Change(previous, current)) == Held(current) <==> |Changed(previous, current)| <= 1
  {
    ChangeIsTrue(previous, current);
    var event := Change(previous, current);
    if event.Some? {
      OneElement(Changed(previous, current), event.value.code);
      OneChange(Held(previous), Held(current), event.value);
    } else {
      assert Changed(previous, current) == {};
    }
  }

  lemma OneElement(s: set<byte>, x: byte)
    requires x in s
    ensures |s| <= 1 <==> s == {x}
  {
    assert |s - {x}| == |s| - 1;
    assert s == s - {x} + {x};
  }

  lemma OneChange(was: set<byte>, now: set<byte>, key: Key)
    requires if key.pressed then key.code in now - was else key.code in was - now
    ensures Apply(was, Some(key)) == now <==> (now - was) + (was - now) == {key.code}
  {
    var changed := (now - was) + (was - now);
    if changed == {key.code} {
      forall c ensures c in Apply(was, Some(key)) <==> c in now {
        assert c in changed <==> c == key.code;
      }
    }
  }

  // One event a report.
  function Events(previous: Codes, reports: seq<Codes>): seq<Option<Key>>
    decreases |reports|
  {
    if reports == [] then [] else [Change(previous, reports[0])] + Events(reports[0], reports[1..])
  }

  function Replay(held: set<byte>, events: seq<Option<Key>>): set<byte>
    decreases |events|
  {
    if events == [] then held else Replay(Apply(held, events[0]), events[1..])
  }

  predicate OneAtATime(previous: Codes, reports: seq<Codes>)
    decreases |reports|
  {
    reports == [] || (|Changed(previous, reports[0])| <= 1 && OneAtATime(reports[0], reports[1..]))
  }

  lemma ReplayUnfolds(held: set<byte>, event: Option<Key>, rest: seq<Option<Key>>)
    ensures Replay(held, [event] + rest) == Replay(Apply(held, event), rest)
  {
    assert ([event] + rest)[1..] == rest;
  }

  // The report a run ends on.
  function Final(previous: Codes, reports: seq<Codes>): Codes {
    if reports == [] then previous else reports[|reports| - 1]
  }

  /** Over a run of reports that each change one key at most, the events rebuild what is held. */
  lemma {:induction false} RunReplays(previous: Codes, reports: seq<Codes>)
    requires OneAtATime(previous, reports)
    ensures Replay(Held(previous), Events(previous, reports)) == Held(Final(previous, reports))
    decreases |reports|
  {
    if reports != [] {
      ReplayHoldsExactly(previous, reports[0]);
      RunReplays(reports[0], reports[1..]);
      assert Final(previous, reports) == Final(reports[0], reports[1..]);
      ReplayUnfolds(Held(previous), Change(previous, reports[0]), Events(reports[0], reports[1..]));
    }
  }

  class Keyboard {
    var previous: Codes

    constructor ()
      ensures Held(previous) == {}
    {
      previous := [0, 0, 0, 0, 0, 0];
    }

    /** One poll: nothing without a report, and otherwise one event at most. */
    method PollKeyboard(report: Option<Codes>) returns (event: Option<Key>)
      modifies this
      ensures report.None? ==> event == None && previous == old(previous)
      ensures report.Some? ==> event == Scanned(Change(old(previous), report.value)) && previous == report.value
    {
      if report.None? {
        return None;
      }
      event := KeysChanged(previous, report.value);
      previous := report.value;
    }
  }

  /** One event for two reports, a press before any release. */
  method KeysChanged(previous: Codes, current: Codes) returns (event: Option<Key>)
    ensures event == Scanned(Change(previous, current))
    ensures event == None <==> Held(previous) == Held(current)
    ensures event.Some? ==> (event.value.pressed <==> exists c :: c in Held(current) - Held(previous))
    ensures event.Some? ==>
              exists c :: HidToScancode(c) == event.value.code
                          && c in if event.value.pressed then Held(current) - Held(previous)
                                  else Held(previous) - Held(current)
  {
    EventIsTrue(previous, current);
    for i := 0 to |current|
      invariant FirstBeyond(current, previous) == FirstBeyond(current[i..], previous)
    {
      assert current[i..][1..] == current[i + 1..];
      if current[i] != 0 && current[i] !in previous {
        return Some(Key(HidToScancode(current[i]), true));
      }
    }
    for i := 0 to |previous|
      invariant FirstBeyond(current, previous) == None
      invariant FirstBeyond(previous, current) == FirstBeyond(previous[i..], current)
    {
      assert previous[i..][1..] == previous[i + 1..];
      if previous[i] != 0 && previous[i] !in current {
        return Some(Key(HidToScancode(previous[i]), false));
      }
    }
    return None;
  }
}
