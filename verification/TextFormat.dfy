/**
 Decimal text in a fixed buffer that drops what does not fit, and reading it back.
 */
module TextFormat {
  import opened Common
  import opened Words
  import opened FloorDivision

  const SCRATCH: nat := 20
  const DURATION_CAPACITY: nat := 24
  const HOUR_NS: nat := 3_600_000_000_000

  // ------------------------------------------------------------------------
  // Decimal digits
  // ------------------------------------------------------------------------

  function Digit(d: nat): char
    requires d < 10
  {
    ('0' as int + d) as char
  }

  predicate IsDigit(c: char) {
    '0' <= c <= '9'
  }

  function Decimal(value: nat): string {
    if value < 10 then [Digit(value)] else Decimal(value / 10) + [Digit(value % 10)]
  }

  function Zeros(count: int): string {
    if count <= 0 then "" else Zeros(count - 1) + "0"
  }

  function Padded(value: nat, width: nat): string {
    Zeros(width - |Decimal(value)|) + Decimal(value)
  }

  function Pow10(n: nat): nat {
    if n == 0 then 1 else 10 * Pow10(n - 1)
  }

  predicate AllDigits(s: string) {
    forall i :: 0 <= i < |s| ==> IsDigit(s[i])
  }

  // The number a string of digits stands for.
  function Number(s: string): nat
    requires AllDigits(s)
    decreases |s|
  {
    if s == "" then 0 else 10 * Number(s[..|s| - 1]) + (s[|s| - 1] as int - '0' as int)
  }

  lemma NumberAppends(s: string, d: nat)
    requires AllDigits(s) && d < 10
    ensures AllDigits(s + [Digit(d)]) && Number(s + [Digit(d)]) == 10 * Number(s) + d
  {
    assert (s + [Digit(d)])[..|s + [Digit(d)]| - 1] == s;
  }

  lemma {:induction false} ZerosAreNothing(count: int, value: nat)
    ensures |Zeros(count)| == (if count <= 0 then 0 else count)
    ensures AllDigits(Zeros(count)) && Number(Zeros(count)) == 0
  {
    if count > 0 {
      ZerosAreNothing(count - 1, value);
      NumberAppends(Zeros(count - 1), 0);
      assert "0" == [Digit(0)];
    }
  }

  lemma {:induction false} PaddingIsInvisible(zeros: nat, value: nat)
    ensures AllDigits(Zeros(zeros) + Decimal(value)) && Number(Zeros(zeros) + Decimal(value)) == value
    decreases value
  {
    ZerosAreNothing(zeros, value);
    if value < 10 {
      NumberAppends(Zeros(zeros), value);
    } else {
      PaddingIsInvisible(zeros, value / 10);
      NumberAppends(Zeros(zeros) + Decimal(value / 10), value % 10);
      assert Zeros(zeros) + Decimal(value) == Zeros(zeros) + Decimal(value / 10) + [Digit(value % 10)];
    }
  }

  // Exactly as many digits as the value needs.
  lemma {:induction false} DecimalLength(value: nat, n: nat)
    ensures |Decimal(value)| >= 1
    ensures n > 0 ==> (|Decimal(value)| <= n <==> value < Pow10(n))
    decreases value
  {
    if value < 10 {
      if n > 0 { Pow10Positive(n - 1); }
    } else {
      DecimalLength(value / 10, if n > 0 then n - 1 else 0);
    }
  }

  lemma {:induction false} Pow10Positive(n: nat)
    ensures Pow10(n) >= 1
  {
    if n > 0 { Pow10Positive(n - 1); }
  }

  /** A padded number is all digits, reads back as itself, and is `width` long exactly when it fits in that many. */
  lemma PaddedReadsBack(value: nat, width: nat)
    requires width > 0
    ensures AllDigits(Padded(value, width)) && Number(Padded(value, width)) == value
    ensures |Padded(value, width)| == if value < Pow10(width) then width else |Decimal(value)|
    ensures value >= Pow10(width) ==> |Padded(value, width)| > width
  {
    var zeros: int := width - |Decimal(value)|;
    DecimalLength(value, width);
    ZerosAreNothing(zeros, value);
    PaddingIsInvisible(if zeros > 0 then zeros else 0, value);
    assert Zeros(zeros) == Zeros(if zeros > 0 then zeros else 0);
  }

  // ------------------------------------------------------------------------
  // Colon-separated fields
  // ------------------------------------------------------------------------

  function Split(s: string): seq<string>
    ensures |Split(s)| >= 1
    decreases |s|
  {
    if s == "" then [""]
    else
      var before, c := Split(s[..|s| - 1]), s[|s| - 1];
      if c == ':' then before + [""] else before[..|before| - 1] + [before[|before| - 1] + [c]]
  }

  lemma {:induction false} SplitAtLastColon(a: string, b: string)
    requires AllDigits(b)
    ensures Split(a + ":" + b) == Split(a) + [b]
    decreases |b|
  {
    if b == "" {
      assert (a + ":" + b)[..|a + ":" + b| - 1] == a;
    } else {
      var front, c := b[..|b| - 1], b[|b| - 1];
      SplitAtLastColon(a, front);
      SplitAppends(a + ":" + front, c);
      assert a + ":" + b == a + ":" + front + [c];
      assert front + [c] == b;
      LastOf(Split(a), front, b);
    }
  }

  lemma SplitAppends(s: string, c: char)
    requires c != ':'
    ensures Split(s + [c]) == Split(s)[..|Split(s)| - 1] + [Split(s)[|Split(s)| - 1] + [c]]
  {
    assert (s + [c])[..|s + [c]| - 1] == s;
  }

  lemma LastOf(before: seq<string>, last: string, next: string)
    ensures (before + [last])[..|before + [last]| - 1] + [next] == before + [next]
  {
  }

  lemma {:induction false} SplitWithoutColon(b: string)
    requires AllDigits(b)
    ensures Split(b) == [b]
    decreases |b|
  {
    if b != "" {
      SplitWithoutColon(b[..|b| - 1]);
      assert b[..|b| - 1] + [b[|b| - 1]] == b;
    }
  }

  // ------------------------------------------------------------------------
  // Durations
  // ------------------------------------------------------------------------

  // What a duration is made of.
  datatype Fields = Fields(hours: nat, minutes: nat, seconds: nat, millis: nat, micros: nat, nanos: nat)

  predicate InRange(f: Fields) {
    f.minutes < 60 && f.seconds < 60 && f.millis < 1_000 && f.micros < 1_000 && f.nanos < 1_000
  }

  // As `format_elapsed_nano` takes it apart.
  function FieldsOf(ns: nat): Fields {
    Fields(ns / HOUR_NS, ns / 60_000_000_000 % 60, ns / 1_000_000_000 % 60,
           ns / 1_000_000 % 1_000, ns / 1_000 % 1_000, ns % 1_000)
  }

  function Total(f: Fields): nat {
    ((((f.hours * 60 + f.minutes) * 60 + f.seconds) * 1_000 + f.millis) * 1_000 + f.micros) * 1_000 + f.nanos
  }

  // `hh:mm:ss:mmm`, the part both forms share.
  function Milliseconds(f: Fields): string {
    Padded(f.hours, 2) + ":" + Padded(f.minutes, 2) + ":" + Padded(f.seconds, 2) + ":" + Padded(f.millis, 3)
  }

  function Nanoseconds(f: Fields): string {
    Milliseconds(f) + ":" + Padded(f.micros, 3) + ":" + Padded(f.nanos, 3)
  }

  /** The allocating formatter: `hh:mm:ss:mmm:uuu:nnn`, hours not wrapped. */
  function FormatElapsedNano(ns: nat): string {
    Nanoseconds(FieldsOf(ns))
  }

  // Reading one back, given nothing but the text.
  function ParseElapsed(s: string): Option<nat> {
    FromFields(Split(s))
  }

  function FromFields(f: seq<string>): Option<nat> {
    if |f| == 6 && forall i :: 0 <= i < 6 ==> AllDigits(f[i]) then
      Some(Total(Fields(Number(f[0]), Number(f[1]), Number(f[2]), Number(f[3]), Number(f[4]), Number(f[5]))))
    else None
  }

  // A field below `10^width` is `width` digits long, and reads back.
  lemma FieldReadsBack(value: nat, width: nat)
    requires 2 <= width <= 3 && value < if width == 2 then 100 else 1_000
    ensures |Padded(value, width)| == width
    ensures AllDigits(Padded(value, width)) && Number(Padded(value, width)) == value
  {
    assert Pow10(2) == 100 && Pow10(3) == 1_000;
    PaddedReadsBack(value, width);
  }

  lemma SplitMilliseconds(f: Fields)
    requires InRange(f)
    ensures Split(Milliseconds(f)) ==
              [Padded(f.hours, 2), Padded(f.minutes, 2), Padded(f.seconds, 2), Padded(f.millis, 3)]
    ensures |Milliseconds(f)| == |Padded(f.hours, 2)| + 10
  {
    var h, m, s, ms := Padded(f.hours, 2), Padded(f.minutes, 2), Padded(f.seconds, 2), Padded(f.millis, 3);
    PaddedReadsBack(f.hours, 2);
    FieldReadsBack(f.minutes, 2);
    FieldReadsBack(f.seconds, 2);
    FieldReadsBack(f.millis, 3);
    SplitFour(h, m, s, ms);
  }

  lemma SplitFour(a: string, b: string, c: string, d: string)
    requires AllDigits(a) && AllDigits(b) && AllDigits(c) && AllDigits(d)
    ensures Split(a + ":" + b + ":" + c + ":" + d) == [a, b, c, d]
  {
    SplitWithoutColon(a);
    SplitAtLastColon(a, b);
    SplitAtLastColon(a + ":" + b, c);
    SplitAtLastColon(a + ":" + b + ":" + c, d);
  }

  lemma SplitNanoseconds(f: Fields)
    requires InRange(f)
    ensures Split(Nanoseconds(f)) ==
              [Padded(f.hours, 2), Padded(f.minutes, 2), Padded(f.seconds, 2), Padded(f.millis, 3),
               Padded(f.micros, 3), Padded(f.nanos, 3)]
    ensures |Nanoseconds(f)| == |Padded(f.hours, 2)| + 18
  {
    SplitMilliseconds(f);
    FieldReadsBack(f.micros, 3);
    FieldReadsBack(f.nanos, 3);
    SplitAtLastColon(Milliseconds(f), Padded(f.micros, 3));
    SplitAtLastColon(Milliseconds(f) + ":" + Padded(f.micros, 3), Padded(f.nanos, 3));
  }

  lemma ReadsFields(f: Fields, h: string, m: string, s: string, ms: string, us: string, n: string)
    requires AllDigits(h) && AllDigits(m) && AllDigits(s) && AllDigits(ms) && AllDigits(us) && AllDigits(n)
    requires f == Fields(Number(h), Number(m), Number(s), Number(ms), Number(us), Number(n))
    ensures FromFields([h, m, s, ms, us, n]) == Some(Total(f))
  {
  }

  lemma ParsesBack(f: Fields)
    requires InRange(f)
    ensures ParseElapsed(Nanoseconds(f)) == Some(Total(f))
  {
    SplitNanoseconds(f);
    PaddedReadsBack(f.hours, 2);
    FieldReadsBack(f.minutes, 2);
    FieldReadsBack(f.seconds, 2);
    FieldReadsBack(f.millis, 3);
    FieldReadsBack(f.micros, 3);
    FieldReadsBack(f.nanos, 3);
    ReadsFields(f, Padded(f.hours, 2), Padded(f.minutes, 2), Padded(f.seconds, 2), Padded(f.millis, 3),
                Padded(f.micros, 3), Padded(f.nanos, 3));
  }

  lemma FieldsRecompose(ns: nat)
    ensures InRange(FieldsOf(ns)) && Total(FieldsOf(ns)) == ns
  {
    DivDiv(ns, 1_000, 1_000);
    DivDiv(ns, 1_000_000, 1_000);
    DivDiv(ns, 1_000_000_000, 60);
    DivDiv(ns, 60_000_000_000, 60);
  }

  /** `format_elapsed_nano` says exactly which duration it was given, whatever that was. */
  lemma ElapsedRoundTrips(ns: nat)
    ensures ParseElapsed(FormatElapsedNano(ns)) == Some(ns)
  {
    FieldsRecompose(ns);
    ParsesBack(FieldsOf(ns));
  }

  // ------------------------------------------------------------------------
  // The buffer
  // ------------------------------------------------------------------------

  // What of `s` a buffer of `capacity` bytes keeps.
  function Clip(capacity: nat, s: string): string {
    if |s| <= capacity then s else s[..capacity]
  }

  // Clipping as one goes is clipping at the end.
  lemma ClipContinues(capacity: nat, s: string, more: string)
    ensures Clip(capacity, Clip(capacity, s) + more) == Clip(capacity, s + more)
  {
  }

  class Text {
    const buf: array<char>
    var len: nat

    ghost predicate Valid()
      reads this
    {
      len <= buf.Length
    }

    ghost function Contents(): string
      requires Valid()
      reads this, buf
    {
      buf[..len]
    }

    constructor (capacity: nat)
      ensures Valid() && fresh(buf) && buf.Length == capacity && Contents() == ""
    {
      buf := new char[capacity](_ => '\0');
      len := 0;
    }

    method Push(c: char)
      requires Valid()
      modifies this`len, buf
      ensures Valid() && Contents() == Clip(buf.Length, old(Contents()) + [c])
    {
      if len < buf.Length {
        buf[len] := c;
        len := len + 1;
        assert Contents() == old(Contents()) + [c];
      } else {
        assert (old(Contents()) + [c])[..buf.Length] == old(Contents());
      }
    }

    /** The contents grow by the padded decimal, as far as the buffer reaches. */
    method Pad(value: u64, width: nat)
      requires Valid()
      modifies this`len, buf
      ensures Valid() && Contents() == Clip(buf.Length, old(Contents()) + Padded(value, width))
    {
      var scratch, digits := Digits(value);
      PushZeros(width - digits);
      ClipContinues(buf.Length, old(Contents()) + Zeros(width - digits), Decimal(value));
      PushReversed(scratch, digits);
      Regroup(old(Contents()), Zeros(width - digits), Decimal(value), "");
      assert Decimal(value) + "" == Decimal(value);
    }

    method PushZeros(count: int)
      requires Valid()
      modifies this`len, buf
      ensures Valid() && Contents() == Clip(buf.Length, old(Contents()) + Zeros(count))
    {
      ghost var base := old(Contents());
      var k := 0;
      while k < count
        invariant Valid() && (k <= count || k == 0)
        invariant Contents() == Clip(buf.Length, base + Zeros(k))
      {
        ClipContinues(buf.Length, base + Zeros(k), "0");
        assert base + Zeros(k) + "0" == base + Zeros(k + 1);
        Push('0');
        k := k + 1;
      }
    }

    method PushReversed(scratch: array<char>, digits: nat)
      requires Valid() && digits <= scratch.Length && scratch != buf
      modifies this`len, buf
      ensures Valid() && Contents() == Clip(buf.Length, old(Contents()) + Reversed(scratch[..digits]))
    {
      ghost var base, all := old(Contents()), Reversed(scratch[..digits]);
      var i := digits;
      while i > 0
        invariant Valid() && i <= digits
        invariant Contents() == Clip(buf.Length, base + all[..digits - i])
      {
        i := i - 1;
        ReversedNext(scratch[..digits], i);
        ClipContinues(buf.Length, base + all[..digits - i - 1], [scratch[i]]);
        assert base + all[..digits - i] == base + all[..digits - i - 1] + [scratch[i]];
        Push(scratch[i]);
      }
    }

    /** The contents grow by the fixed-point text, as far as the buffer reaches. */
    method Fixed(scaled: u64, decimals: nat)
      requires Valid() && decimals < 20
      modifies this`len, buf
      ensures Valid() && Contents() == Clip(buf.Length, old(Contents()) + FixedPoint(scaled, decimals))
    {
      var divisor := Scale(decimals);
      QuotientIsBelow(scaled, divisor);
      WithPoint(scaled / divisor, scaled % divisor, decimals);
    }

    method WithPoint(whole: u64, part: u64, decimals: nat)
      requires Valid()
      modifies this`len, buf
      ensures Valid() && Contents() == Clip(buf.Length, old(Contents()) + Pointed(whole, part, decimals))
    {
      ghost var shown := old(Contents()) + Padded(whole, 1);
      Pad(whole, 1);
      if decimals > 0 {
        ClipContinues(buf.Length, shown, ".");
        Push('.');
        ClipContinues(buf.Length, shown + ".", Padded(part, decimals));
        Pad(part, decimals);
        Regroup(old(Contents()), Padded(whole, 1), ".", Padded(part, decimals));
      } else {
        assert Padded(whole, 1) + "" == Padded(whole, 1);
      }
    }
  }

  lemma QuotientIsBelow(a: nat, b: nat)
    requires b > 0
    ensures 0 <= a / b <= a && 0 <= a % b <= a && a / b * b + a % b == a
  {
    DivBounds(a, b);
    MulMono(1, b, a / b);
  }

  function Scale(decimals: nat): nat
    ensures Scale(decimals) > 0
  {
    Pow10Positive(decimals);
    Pow10(decimals)
  }

  lemma Regroup(a: string, b: string, c: string, d: string)
    ensures a + b + c + d == a + (b + (c + d)) && b + c + d == b + (c + d)
  {
  }

  function Pointed(whole: nat, part: nat, decimals: nat): string {
    Padded(whole, 1) + if decimals > 0 then "." + Padded(part, decimals) else ""
  }

  function FixedPoint(scaled: nat, decimals: nat): string {
    QuotientIsBelow(scaled, Scale(decimals));
    Pointed(scaled / Scale(decimals), scaled % Scale(decimals), decimals)
  }

  function Reversed(s: string): string
    ensures |Reversed(s)| == |s|
  {
    if s == "" then "" else [s[|s| - 1]] + Reversed(s[..|s| - 1])
  }

  lemma {:induction false} ReversedNext(s: string, i: nat)
    requires i < |s|
    ensures Reversed(s)[..|s| - i] == Reversed(s)[..|s| - i - 1] + [s[i]]
    decreases |s|
  {
    if i < |s| - 1 {
      ReversedNext(s[..|s| - 1], i);
    }
    ReversedAt(s, i);
  }

  lemma {:induction false} ReversedAt(s: string, i: nat)
    requires i < |s|
    ensures Reversed(s)[|s| - i - 1] == s[i]
    decreases |s|
  {
    if i < |s| - 1 {
      ReversedAt(s[..|s| - 1], i);
    }
  }

  lemma DecimalPeels(rest: nat, shown: string)
    ensures Decimal(rest) + shown ==
            if rest < 10 then [Digit(rest % 10)] + shown else Decimal(rest / 10) + ([Digit(rest % 10)] + shown)
  {
    if rest >= 10 {
      Regroup("", Decimal(rest / 10), [Digit(rest % 10)], shown);
    }
  }

  /** The digits of `value`, least significant first. */
  method Digits(value: u64) returns (scratch: array<char>, digits: nat)
    ensures fresh(scratch) && scratch.Length == SCRATCH && 1 <= digits <= SCRATCH
    ensures Reversed(scratch[..digits]) == Decimal(value) && digits == |Decimal(value)|
  {
    scratch := new char[SCRATCH](_ => '\0');
    digits := 0;
    var rest: nat := value;
    ghost var shown := "";
    DigitsFit(value);
    var more := true;
    while more
      invariant digits <= SCRATCH && |shown| == digits && shown == Reversed(scratch[..digits])
      invariant Decimal(value) == if more then Decimal(rest) + shown else shown
      invariant digits == 0 ==> more
      decreases more, rest
    {
      DecimalLength(rest, 0);
      ghost var before, c := scratch[..digits], Digit(rest % 10);
      scratch[digits] := Digit(rest % 10);
      assert scratch[..digits + 1] == before + [c];
      ReversedPrepends(before, c);
      DecimalPeels(rest, shown);
      shown := [c] + shown;
      more := rest / 10 != 0;
      rest := rest / 10;
      digits := digits + 1;
    }
  }

  lemma ReversedPrepends(s: string, c: char)
    ensures Reversed(s + [c]) == [c] + Reversed(s)
  {
    assert (s + [c])[..|s + [c]| - 1] == s;
  }

  lemma DigitsFit(value: u64)
    ensures |Decimal(value)| <= SCRATCH
  {
    Pow10Of20();
    DecimalLength(value, SCRATCH);
  }

  lemma Pow10Of20()
    ensures Pow10(20) == 100_000_000_000_000_000_000
  {
    assert Pow10(10) == 10_000_000_000;
  }

  // As `duration` takes a duration apart.
  function DurationFields(ns: nat): Fields {
    var seconds, fraction := ns / 1_000_000_000, ns % 1_000_000_000;
    Fields(seconds / 3600, seconds / 60 % 60, seconds % 60,
           fraction / 1_000_000, fraction / 1_000 % 1_000, fraction % 1_000)
  }

  lemma RemainderSplits(ns: nat, big: nat, small: nat, ratio: nat)
    requires big > 0 && small > 0 && big == ratio * small
    ensures ratio > 0 && ns % big / small == ns / small % ratio
  {
    DivBounds(ns, big);
    DivBounds(ns % big, small);
    var q, a, b := ns / big, ns % big / small, ns % big % small;
    Distributes(q * ratio, a, small);
    assert q * ratio * small == q * big;
    Distributes(q * ratio + a, 1, small);
    DivIs(ns, small, q * ratio + a);
    DivBelow(ns % big, small, ratio);
    Distributes(q, 1, ratio);
    DivIs(q * ratio + a, ratio, q);
    DivBounds(q * ratio + a, ratio);
  }

  lemma DurationFieldsAgree(ns: nat)
    ensures DurationFields(ns) == FieldsOf(ns)
  {
    DivDiv(ns, 1_000_000_000, 3600);
    DivDiv(ns, 1_000_000_000, 60);
    RemainderSplits(ns, 1_000_000_000, 1_000_000, 1_000);
    RemainderSplits(ns, 1_000_000_000, 1_000, 1_000_000);
    RemainderSplits(ns / 1_000, 1_000_000, 1, 1_000_000);
    ModMod(ns / 1_000, 1_000_000, 1_000, 1_000);
    ModMod(ns, 1_000_000_000, 1_000, 1_000_000);
  }

  /** The allocator-free form of a duration, with or without the last two fields. */
  method Duration(ns: u64, nanoseconds: bool) returns (out: Text)
    ensures fresh(out) && fresh(out.buf) && out.Valid() && out.buf.Length == DURATION_CAPACITY
    ensures out.Contents() ==
              Clip(DURATION_CAPACITY, if nanoseconds then FormatElapsedNano(ns) else Milliseconds(FieldsOf(ns)))
  {
    out := new Text(DURATION_CAPACITY);
    var seconds, fraction := ns / 1_000_000_000, ns % 1_000_000_000;
    ghost var f := FieldsOf(ns);
    DurationFieldsAgree(ns);
    out.Pad(seconds / 3600, 2);
    Field(out, Padded(f.hours, 2), seconds / 60 % 60, 2);
    Field(out, Padded(f.hours, 2) + ":" + Padded(f.minutes, 2), seconds % 60, 2);
    Field(out, Padded(f.hours, 2) + ":" + Padded(f.minutes, 2) + ":" + Padded(f.seconds, 2), fraction / 1_000_000, 3);
    if nanoseconds {
      Field(out, Milliseconds(f), fraction / 1_000 % 1_000, 3);
      Field(out, Milliseconds(f) + ":" + Padded(f.micros, 3), fraction % 1_000, 3);
    }
  }

  // A colon and the field after it.
  method Field(out: Text, ghost shown: string, value: u64, width: nat)
    requires out.Valid() && out.Contents() == Clip(out.buf.Length, shown)
    modifies out`len, out.buf
    ensures out.Valid() && out.Contents() == Clip(out.buf.Length, shown + ":" + Padded(value, width))
  {
    ClipContinues(out.buf.Length, shown, ":");
    out.Push(':');
    ClipContinues(out.buf.Length, shown + ":", Padded(value, width));
    out.Pad(value, width);
  }

  // ------------------------------------------------------------------------
  // What a label shows
  // ------------------------------------------------------------------------

  /**
   Twenty-four bytes hold the whole duration exactly below a million hours, and then the label reads
   back as the duration. From there on exactly the last digit is missing.
   */
  lemma DurationFitsExactly(ns: u64)
    ensures var shown := Clip(DURATION_CAPACITY, FormatElapsedNano(ns));
            && (shown == FormatElapsedNano(ns) <==> ns < 1_000_000 * HOUR_NS)
            && (ns < 1_000_000 * HOUR_NS ==> ParseElapsed(shown) == Some(ns))
            && (ns >= 1_000_000 * HOUR_NS ==> FormatElapsedNano(ns) == shown + [Digit(ns % 10)])
  {
    ElapsedRoundTrips(ns);
    NanoLength(ns);
    ClipDropsOne(DURATION_CAPACITY, FormatElapsedNano(ns));
  }

  // At most one byte over, and that byte is the last digit.
  lemma NanoLength(ns: u64)
    ensures var s := FormatElapsedNano(ns);
            && 0 < |s| <= DURATION_CAPACITY + 1 && s[|s| - 1] == Digit(ns % 10)
            && (|s| <= DURATION_CAPACITY <==> ns < 1_000_000 * HOUR_NS)
  {
    FieldsRecompose(ns);
    SplitNanoseconds(FieldsOf(ns));
    HoursDigits(ns);
    LastOfNanoseconds(FieldsOf(ns));
    ModMod(ns, 1_000, 10, 100);
  }

  lemma ClipDropsOne(capacity: nat, s: string)
    requires 0 < |s| <= capacity + 1
    ensures Clip(capacity, s) == s <==> |s| <= capacity
    ensures |s| > capacity ==> s == Clip(capacity, s) + [s[|s| - 1]]
  {
  }

  lemma LastOfNanoseconds(f: Fields)
    ensures |Nanoseconds(f)| > 0 && Nanoseconds(f)[|Nanoseconds(f)| - 1] == Digit(f.nanos % 10)
  {
    LastDigit(f.nanos, 3);
  }

  // Hours take two digits, up to seven, and more than six exactly from a million on.
  lemma HoursDigits(ns: u64)
    ensures |Padded(FieldsOf(ns).hours, 2)| <= 7
    ensures |Padded(FieldsOf(ns).hours, 2)| <= 6 <==> ns < 1_000_000 * HOUR_NS
  {
    PaddedReadsBack(ns / HOUR_NS, 2);
    DecimalLength(ns / HOUR_NS, 6);
    DecimalLength(ns / HOUR_NS, 7);
    assert Pow10(2) == 100 && Pow10(6) == 1_000_000 && Pow10(7) == 10_000_000;
  }

  lemma LastDigit(value: nat, width: nat)
    ensures |Padded(value, width)| > 0
    ensures Padded(value, width)[|Padded(value, width)| - 1] == Digit(value % 10)
  {
  }

  /** Without the nanosecond fields nothing is ever cut. */
  lemma MillisecondsAlwaysFit(ns: u64)
    ensures Clip(DURATION_CAPACITY, Milliseconds(FieldsOf(ns))) == Milliseconds(FieldsOf(ns))
  {
    FieldsRecompose(ns);
    SplitMilliseconds(FieldsOf(ns));
    HoursDigits(ns);
  }

  /** Two labels are the same only for the same duration, below a million hours; above, a whole decade shares one. */
  lemma LabelsTellDurationsApart(a: u64, b: u64)
    requires a < 1_000_000 * HOUR_NS && b < 1_000_000 * HOUR_NS
    ensures Clip(DURATION_CAPACITY, FormatElapsedNano(a)) == Clip(DURATION_CAPACITY, FormatElapsedNano(b)) <==> a == b
  {
    DurationFitsExactly(a);
    DurationFitsExactly(b);
  }

  /** The point of a fixed-point number goes where the scale says, and both sides read back. */
  lemma FixedPointReadsBack(scaled: nat, decimals: nat) returns (whole: string, part: string)
    requires decimals > 0
    ensures FixedPoint(scaled, decimals) == whole + "." + part
    ensures AllDigits(whole) && AllDigits(part) && |part| == decimals
    ensures Number(whole) * Pow10(decimals) + Number(part) == scaled
  {
    var divisor := Scale(decimals);
    QuotientIsBelow(scaled, divisor);
    whole, part := Padded(scaled / divisor, 1), Padded(scaled % divisor, decimals);
    Regroup("", whole, ".", part);
    PaddedReadsBack(scaled / divisor, 1);
    PaddedReadsBack(scaled % divisor, decimals);
  }
}
