/**
 * Reading a rendered offset back. `ParseOffset` inverts `FormatOffset`, which
 * shows that the compact string loses nothing: distinct deltas never share a
 * rendering.
 */
module OffsetReadback {
  import opened Options
  import opened Decimal
  import opened Offset

  /** `String.prototype.split` with a one-character separator. */
  function SplitOn(s: string, sep: char): (r: seq<string>)
    ensures |r| >= 1
  {
    if s == [] then [""]
    else if s[0] == sep then [""] + SplitOn(s[1..], sep)
    else
      var rest := SplitOn(s[1..], sep);
      [[s[0]] + rest[0]] + rest[1..]
  }

  lemma {:induction false} SplitWithoutSeparator(a: string, sep: char)
    requires sep !in a
    ensures SplitOn(a, sep) == [a]
    decreases |a|
  {
    if a != [] {
      SplitWithoutSeparator(a[1..], sep);
      assert [a[0]] + a[1..] == a;
    }
  }

  lemma {:induction false} SplitAtFirst(a: string, b: string, sep: char)
    requires sep !in a
    ensures SplitOn(a + [sep] + b, sep) == [a] + SplitOn(b, sep)
    decreases |a|
  {
    if a == [] {
      assert a + [sep] + b == [sep] + b;
      assert ([sep] + b)[1..] == b;
    } else {
      assert (a + [sep] + b)[1..] == a[1..] + [sep] + b;
      SplitAtFirst(a[1..], b, sep);
      assert [a[0]] + a[1..] == a;
    }
  }

  /** Splitting a join of separator-free fields gives the fields back. */
  lemma {:induction false} SplitJoin(parts: seq<string>, sep: char)
    requires |parts| >= 1
    requires forall i :: 0 <= i < |parts| ==> sep !in parts[i]
    ensures SplitOn(Join(parts, sep), sep) == parts
    decreases |parts|
  {
    if |parts| == 1 {
      SplitWithoutSeparator(parts[0], sep);
    } else {
      SplitAtFirst(parts[0], Join(parts[1..], sep), sep);
      SplitJoin(parts[1..], sep);
      assert [parts[0]] + parts[1..] == parts;
    }
  }

  /** A non-empty run of decimal digits. */
  predicate IsNumeral(s: string)
  {
    |s| > 0 && AllDigits(s)
  }

  /** "<seconds>" or "<seconds>.<three digits>", as milliseconds. */
  function ParseSecondsField(s: string): Option<nat>
  {
    var f := SplitOn(s, '.');
    if |f| == 1 && IsNumeral(f[0]) then
      Some(ParseDecimal(f[0]) * 1000)
    else if |f| == 2 && IsNumeral(f[0]) && IsNumeral(f[1]) && |f[1]| == 3 then
      Some(ParseDecimal(f[0]) * 1000 + ParseDecimal(f[1]))
    else
      None
  }

  /** Minutes (and hours) fields before the seconds field, as milliseconds. */
  function ParseClockFields(f: seq<string>): Option<nat>
    requires |f| == 2 || |f| == 3
  {
    var seconds := ParseSecondsField(f[|f| - 1]);
    if seconds.None? || !IsNumeral(f[|f| - 2]) then None
    else if |f| == 2 then Some(ParseDecimal(f[0]) * 60000 + seconds.value)
    else if IsNumeral(f[0]) then Some(ParseDecimal(f[0]) * 3600000 + ParseDecimal(f[1]) * 60000 + seconds.value)
    else None
  }

  /** The magnitude of a rendering without its sign, in milliseconds. */
  function ParseMagnitude(body: string): Option<nat>
  {
    if |body| > 0 && body[|body| - 1] == 's' then ParseSecondsField(body[..|body| - 1])
    else
      var f := SplitOn(body, ':');
      if |f| == 2 || |f| == 3 then ParseClockFields(f) else None
  }

  function ParseOffset(s: string): Option<int>
  {
    if |s| == 0 then None
    else
      match ParseMagnitude(s[1..])
      case None => None
      case Some(m) =>
        if s[0] == '+' then Some(m)
        else if s[0] == '-' then Some(-(m as int))
        else None
  }

  lemma SplitWholeSeconds(digits: string)
    requires AllDigits(digits)
    ensures SplitOn(digits + MillisSuffix(0), '.') == [digits]
  {
    assert digits + MillisSuffix(0) == digits;
    DigitsHaveNoSeparators(digits);
    SplitWithoutSeparator(digits, '.');
  }

  /** Digits, a `.` and more digits split into the two digit runs. */
  lemma SplitDotted(digits: string, tail: string)
    requires AllDigits(digits) && AllDigits(tail)
    ensures SplitOn(digits + ['.'] + tail, '.') == [digits, tail]
  {
    DigitsHaveNoSeparators(digits);
    DigitsHaveNoSeparators(tail);
    SplitAtFirst(digits, tail, '.');
    SplitWithoutSeparator(tail, '.');
  }

  lemma SplitFractionalSeconds(digits: string, ms: nat)
    requires AllDigits(digits) && 0 < ms < 1000
    ensures SplitOn(digits + MillisSuffix(ms), '.') == [digits, MillisSuffix(ms)[1..]]
    ensures IsNumeral(MillisSuffix(ms)[1..]) && |MillisSuffix(ms)[1..]| == 3
    ensures ParseDecimal(MillisSuffix(ms)[1..]) == ms
  {
    MillisSuffixShape(ms);
    var m := MillisSuffix(ms);
    var tail := m[1..];
    assert m == ['.'] + tail;
    assert digits + m == digits + ['.'] + tail;
    SplitDotted(digits, tail);
  }

  lemma ReadSplitSeconds(s: string, digits: string, tail: string, ms: nat)
    requires IsNumeral(digits) && IsNumeral(tail) && |tail| == 3 && ParseDecimal(tail) == ms
    requires SplitOn(s, '.') == [digits, tail]
    ensures ParseSecondsField(s) == Some(ParseDecimal(digits) * 1000 + ms)
  {
  }

  /** A digit string with the milliseconds suffix reads back as seconds and milliseconds. */
  lemma ReadSecondsField(digits: string, ms: nat)
    requires 1 <= |digits| && AllDigits(digits) && ms < 1000
    ensures ParseSecondsField(digits + MillisSuffix(ms)) == Some(ParseDecimal(digits) * 1000 + ms)
  {
    if ms == 0 {
      SplitWholeSeconds(digits);
    } else {
      SplitFractionalSeconds(digits, ms);
      ReadSplitSeconds(digits + MillisSuffix(ms), digits, MillisSuffix(ms)[1..], ms);
    }
  }

  lemma ReadUnderMinute(magnitude: nat)
    requires 0 < magnitude < 60000
    ensures ParseMagnitude(FormatMagnitude(magnitude)) == Some(magnitude)
  {
    var secs, ms := magnitude / 1000, magnitude % 1000;
    MagnitudeUnderMinute(magnitude);
    var field := NatToString(secs) + MillisSuffix(ms);
    var body := field + "s";
    assert body[..|body| - 1] == field;
    ReadSecondsField(NatToString(secs), ms);
    ParseNatToString(secs);
  }

  /** The fields of a rendering from one minute up read back as the decomposition's total. */
  lemma ReadMinuteFields(d: Decomposition)
    requires InRange(d) && (d.hrs > 0 || d.mins > 0)
    ensures ParseClockFields(MinuteFields(d)) == Some(Total(d))
  {
    var f := MinuteFields(d);
    ReadSecondsField(Pad(d.secs), d.ms);
    assert ParseSecondsField(f[|f| - 1]) == Some(d.secs * 1000 + d.ms);
    assert ParseDecimal(f[|f| - 2]) == d.mins;
    if d.hrs > 0 {
      ParseNatToString(d.hrs);
      assert ParseDecimal(f[0]) == d.hrs;
    }
  }

  lemma ReadFromMinute(magnitude: nat)
    requires magnitude >= 60000
    ensures ParseMagnitude(FormatMagnitude(magnitude)) == Some(magnitude)
  {
    var d := Decompose(magnitude);
    DecomposeTotal(magnitude);
    MagnitudeFromMinute(magnitude);
    var parts := MinuteFields(d);
    var body := Join(parts, ':');
    SecondsFieldShape(Pad(d.secs), d.ms);
    DigitsHaveNoSeparators(Pad(d.mins));
    DigitsHaveNoSeparators(NatToString(d.hrs));
    SplitJoin(parts, ':');
    ReadMinuteFields(d);
    assert body[|body| - 1] != 's';
  }

  lemma ReadMagnitude(magnitude: nat)
    ensures ParseMagnitude(FormatMagnitude(magnitude)) == Some(magnitude)
  {
    if magnitude == 0 {
      FormatZero();
      assert FormatMagnitude(0) == "0s";
      assert "0s"[..1] == "0";
      SplitWithoutSeparator("0", '.');
      assert ParseDecimal("0") == 0;
    } else if magnitude < 60000 {
      ReadUnderMinute(magnitude);
    } else {
      ReadFromMinute(magnitude);
    }
  }

  /** A sign character in front of a readable magnitude. */
  lemma ReadSigned(deltaMs: int, body: string)
    requires ParseMagnitude(body) == Some(Abs(deltaMs))
    ensures ParseOffset([SignChar(deltaMs)] + body) == Some(deltaMs)
  {
    assert ([SignChar(deltaMs)] + body)[1..] == body;
  }

  /** Reading a rendered offset gives back the delta it was rendered from. */
  lemma ParseFormatOffset(deltaMs: int)
    ensures ParseOffset(FormatOffset(deltaMs)) == Some(deltaMs)
  {
    ReadMagnitude(Abs(deltaMs));
    ReadSigned(deltaMs, FormatMagnitude(Abs(deltaMs)));
  }

  /** No two deltas share a rendering. */
  lemma FormatOffsetInjective(a: int, b: int)
    requires FormatOffset(a) == FormatOffset(b)
    ensures a == b
  {
    ParseFormatOffset(a);
    ParseFormatOffset(b);
  }
}
