/**
 * `formatOffset` of main.js: a signed millisecond delta rendered as a compact
 * string such as "+1.500s", "-01:05" or "+1:01:01".
 */
module Offset {
  import opened Decimal

  /** `Math.abs` on a whole number of milliseconds. */
  function Abs(x: int): (a: nat)
    ensures a == x || a == -x
  {
    if x < 0 then -x else x
  }

  /** The four segments a magnitude is split into before rendering. */
  datatype Decomposition = Decomposition(hrs: nat, mins: nat, secs: nat, ms: nat)

  predicate InRange(d: Decomposition)
  {
    d.ms < 1000 && d.secs < 60 && d.mins < 60
  }

  function Total(d: Decomposition): nat
  {
    d.hrs * 3600000 + d.mins * 60000 + d.secs * 1000 + d.ms
  }

  /** Floor and remainder by 1000, 60 and 60, as lines 116-121 of main.js do. */
  function Decompose(magnitude: nat): (d: Decomposition)
    ensures InRange(d)
  {
    var ms := magnitude % 1000;
    var totalSec := magnitude / 1000;
    var secs := totalSec % 60;
    var totalMin := totalSec / 60;
    var mins := totalMin % 60;
    var hrs := totalMin / 60;
    Decomposition(hrs, mins, secs, ms)
  }

  lemma DivModThousand(n: nat, q: nat, r: nat)
    requires r < 1000 && n == q * 1000 + r
    ensures n / 1000 == q && n % 1000 == r
  {
  }

  lemma DivModSixty(n: nat, q: nat, r: nat)
    requires r < 60 && n == q * 60 + r
    ensures n / 60 == q && n % 60 == r
  {
  }

  /** The segments add back up to the magnitude they were taken from. */
  lemma DecomposeTotal(magnitude: nat)
    ensures Total(Decompose(magnitude)) == magnitude
  {
  }

  /** The in-range decomposition of a magnitude is unique, so `Decompose` is determined by its contract. */
  lemma DecomposeUnique(magnitude: nat, d: Decomposition)
    requires InRange(d) && Total(d) == magnitude
    ensures d == Decompose(magnitude)
  {
    var totalMin := d.hrs * 60 + d.mins;
    var totalSec := totalMin * 60 + d.secs;
    assert magnitude == totalSec * 1000 + d.ms;
    DivModThousand(magnitude, totalSec, d.ms);
    DivModSixty(totalSec, totalMin, d.secs);
    DivModSixty(totalMin, d.hrs, d.mins);
  }

  /** `.` and three zero-padded digits when milliseconds remain, nothing otherwise. */
  function MillisSuffix(ms: nat): string
  {
    if ms > 0 then "." + PadStart(NatToString(ms), 3, '0') else ""
  }

  function SecondsSegment(d: Decomposition): string
  {
    var secStr := if d.hrs > 0 || d.mins > 0 then PadStart(NatToString(d.secs), 2, '0') else NatToString(d.secs);
    secStr + MillisSuffix(d.ms)
  }

  /** The `parts` array of main.js: hours, minutes and seconds, each only when shown. */
  function Segments(d: Decomposition): seq<string>
  {
    (if d.hrs > 0 then [NatToString(d.hrs)] else [])
    + (if d.mins > 0 || d.hrs > 0 then [PadStart(NatToString(d.mins), 2, '0')] else [])
    + (if d.hrs > 0 || d.mins > 0 || d.secs > 0 || d.ms > 0 then [SecondsSegment(d)] else [])
  }

  /**
   * Leading zero groups are omitted: no part for a zero duration, three when
   * there are hours, two from a minute, one below a minute.
   */
  lemma SegmentsOmitLeadingZeros(d: Decomposition)
    ensures var n := |Segments(d)|;
      (n == 0 <==> d.hrs == 0 && d.mins == 0 && d.secs == 0 && d.ms == 0) &&
      (n == 3 <==> d.hrs > 0) &&
      (n == 2 <==> d.hrs == 0 && d.mins > 0) &&
      (n == 1 <==> d.hrs == 0 && d.mins == 0 && (d.secs > 0 || d.ms > 0))
  {
  }

  /** `Array.prototype.join` with a one-character separator. */
  function Join(parts: seq<string>, sep: char): string
  {
    if |parts| == 0 then ""
    else if |parts| == 1 then parts[0]
    else parts[0] + [sep] + Join(parts[1..], sep)
  }

  lemma JoinCons(head: string, rest: seq<string>, sep: char)
    requires |rest| >= 1
    ensures Join([head] + rest, sep) == head + [sep] + Join(rest, sep)
  {
    assert ([head] + rest)[1..] == rest;
  }

  function Body(parts: seq<string>): string
  {
    if |parts| > 0 then Join(parts, ':') else "0s"
  }

  /** Appends the unit `s` to a body without `:` that does not already end in `s`. */
  function WithUnit(body: string): string
  {
    if ':' in body then body
    else body + (if |body| > 0 && body[|body| - 1] == 's' then "" else "s")
  }

  function SignChar(deltaMs: int): char
  {
    if deltaMs >= 0 then '+' else '-'
  }

  /** Everything after the sign: it depends on the magnitude only. */
  function FormatMagnitude(magnitude: nat): string
  {
    WithUnit(Body(Segments(Decompose(magnitude))))
  }

  function FormatOffset(deltaMs: int): (r: string)
    ensures 2 <= |r| && r[0] == (if deltaMs >= 0 then '+' else '-')
  {
    [SignChar(deltaMs)] + FormatMagnitude(Abs(deltaMs))
  }

  // ---------------------------------------------------------------------------
  // What the rendering looks like

  predicate EndsWithDigit(s: string)
  {
    |s| > 0 && IsDigit(s[|s| - 1])
  }

  lemma DigitsHaveNoSeparators(s: string)
    requires AllDigits(s)
    ensures ':' !in s && '.' !in s && 's' !in s
  {
  }

  /** The milliseconds suffix is empty or `.` followed by exactly three digits worth `ms`. */
  lemma MillisSuffixShape(ms: nat)
    requires ms < 1000
    ensures var m := MillisSuffix(ms);
      ':' !in m && 's' !in m &&
      (ms == 0 <==> m == "") &&
      (ms > 0 ==> |m| == 4 && m[0] == '.' && AllDigits(m[1..]) && ParseDecimal(m[1..]) == ms)
  {
    if ms > 0 {
      var m := MillisSuffix(ms);
      ZeroPaddedValue(ms, 3);
      assert Pow10(3) == 1000;
      assert m[1..] == PadStart(NatToString(ms), 3, '0');
      DigitsHaveNoSeparators(m[1..]);
      assert m == ['.'] + m[1..];
    }
  }

  /** A digit string followed by the milliseconds suffix has no `:` and ends in a digit. */
  lemma SecondsFieldShape(digits: string, ms: nat)
    requires 1 <= |digits| && AllDigits(digits) && ms < 1000
    ensures var f := digits + MillisSuffix(ms);
      ':' !in f && EndsWithDigit(f)
  {
    var f := digits + MillisSuffix(ms);
    DigitsHaveNoSeparators(digits);
    MillisSuffixShape(ms);
    if ms == 0 {
      assert f == digits;
    } else {
      assert f[|f| - 1] == MillisSuffix(ms)[1..][2];
    }
  }

  /** With no hours and no minutes only the unpadded seconds segment is kept. */
  lemma SegmentsUnderMinute(d: Decomposition)
    requires d.hrs == 0 && d.mins == 0 && (d.secs > 0 || d.ms > 0)
    ensures Segments(d) == [NatToString(d.secs) + MillisSuffix(d.ms)]
  {
  }

  /** With hours or minutes present, minutes and seconds are both `pad`ded. */
  lemma SegmentsFromMinute(d: Decomposition)
    requires d.hrs > 0 || d.mins > 0
    ensures Segments(d) == (if d.hrs > 0 then [NatToString(d.hrs)] else []) + [Pad(d.mins), Pad(d.secs) + MillisSuffix(d.ms)]
  {
  }

  lemma UnitAppended(body: string)
    requires ':' !in body && EndsWithDigit(body)
    ensures WithUnit(body) == body + "s"
  {
  }

  /** Joining two or three fields puts a `:` in the body and keeps the last field's end. */
  lemma JoinedFields(parts: seq<string>)
    requires 2 <= |parts| <= 3 && EndsWithDigit(parts[|parts| - 1])
    ensures ':' in Join(parts, ':') && EndsWithDigit(Join(parts, ':'))
  {
    var last := parts[|parts| - 1];
    var pair := Join(parts[|parts| - 2..], ':');
    JoinCons(parts[|parts| - 2], [last], ':');
    assert [parts[|parts| - 2]] + [last] == parts[|parts| - 2..];
    assert pair == parts[|parts| - 2] + [':'] + last;
    assert pair[|parts[|parts| - 2]|] == ':';
    if |parts| == 3 {
      JoinCons(parts[0], parts[1..], ':');
      assert [parts[0]] + parts[1..] == parts;
      assert Join(parts, ':') == parts[0] + [':'] + pair;
    }
  }

  /** Zero is rendered as "+0s": an empty `parts` gives the body `0s` and no second `s`. */
  lemma FormatZero()
    ensures FormatOffset(0) == "+0s"
  {
    assert Decompose(0) == Decomposition(0, 0, 0, 0);
    assert Segments(Decompose(0)) == [];
    assert Body([]) == "0s";
    assert WithUnit("0s") == "0s";
  }

  lemma {:induction false} MagnitudeUnderMinute(magnitude: nat)
    requires 0 < magnitude < 60000
    ensures FormatMagnitude(magnitude) == NatToString(magnitude / 1000) + MillisSuffix(magnitude % 1000) + "s"
  {
    var d := Decompose(magnitude);
    DecomposeTotal(magnitude);
    assert d.hrs == 0 && d.mins == 0;
    assert d.secs == magnitude / 1000 && d.ms == magnitude % 1000;
    SegmentsUnderMinute(d);
    var seg := NatToString(d.secs) + MillisSuffix(d.ms);
    SecondsFieldShape(NatToString(d.secs), d.ms);
    UnitAppended(seg);
  }

  /**
   * Under a minute (and not zero): the unpadded seconds, the milliseconds
   * suffix when milliseconds remain, and the unit `s`.
   */
  lemma FormatUnderMinute(deltaMs: int)
    requires 0 < Abs(deltaMs) < 60000
    ensures var secs, ms := Abs(deltaMs) / 1000, Abs(deltaMs) % 1000;
      secs < 60 &&
      FormatOffset(deltaMs) == [SignChar(deltaMs)] + (NatToString(secs) + MillisSuffix(ms) + "s")
  {
    MagnitudeUnderMinute(Abs(deltaMs));
  }

  function MinuteFields(d: Decomposition): seq<string>
  {
    (if d.hrs > 0 then [NatToString(d.hrs)] else []) + [Pad(d.mins), Pad(d.secs) + MillisSuffix(d.ms)]
  }

  lemma {:induction false} MagnitudeFromMinute(magnitude: nat)
    requires magnitude >= 60000
    ensures var body := Join(MinuteFields(Decompose(magnitude)), ':');
      FormatMagnitude(magnitude) == body && ':' in body && EndsWithDigit(body)
  {
    var d := Decompose(magnitude);
    DecomposeTotal(magnitude);
    assert d.hrs > 0 || d.mins > 0;
    SegmentsFromMinute(d);
    var parts := MinuteFields(d);
    assert Segments(d) == parts;
    SecondsFieldShape(Pad(d.secs), d.ms);
    JoinedFields(parts);
  }

  /**
   * From one minute up: optional unpadded hours, then `pad`ded minutes and
   * seconds joined by `:`, the milliseconds suffix, and no unit.
   */
  lemma FormatFromMinute(deltaMs: int)
    requires Abs(deltaMs) >= 60000
    ensures var r := FormatOffset(deltaMs);
      r == [SignChar(deltaMs)] + Join(MinuteFields(Decompose(Abs(deltaMs))), ':') &&
      ':' in r && IsDigit(r[|r| - 1])
  {
    MagnitudeFromMinute(Abs(deltaMs));
  }

  /**
   * The output contains `:` exactly when the magnitude is at least a minute,
   * and ends with the unit `s` exactly when it is below a minute.
   */
  lemma ColonExactlyFromMinute(deltaMs: int)
    ensures var r := FormatOffset(deltaMs);
      (':' in r <==> Abs(deltaMs) >= 60000) &&
      (r[|r| - 1] == 's' <==> Abs(deltaMs) < 60000)
  {
    var m := Abs(deltaMs);
    if m == 0 {
      FormatZero();
    } else if m < 60000 {
      MagnitudeUnderMinute(m);
      SecondsFieldShape(NatToString(m / 1000), m % 1000);
      assert ':' !in [SignChar(deltaMs)];
    } else {
      MagnitudeFromMinute(m);
    }
  }

  /** A delta and its negation render identically after the sign. */
  lemma SignOnlyDiffers(d: int)
    requires d > 0
    ensures FormatOffset(d)[0] == '+' && FormatOffset(-d)[0] == '-'
    ensures FormatOffset(d)[1..] == FormatOffset(-d)[1..]
  {
    assert Abs(d) == Abs(-d);
  }

  lemma SecondsExampleText()
    ensures NatToString(1) + MillisSuffix(500) + "s" == "1.500s"
  {
    assert NatToString(1) == "1";
    assert NatToString(500) == "500";
    assert MillisSuffix(500) == ".500";
  }

  /** Sub-second remainder shown after unpadded seconds: 1500 ms is "1.500s" after the sign. */
  lemma FormatSecondsExample(deltaMs: int)
    requires Abs(deltaMs) == 1500
    ensures FormatOffset(deltaMs) == [SignChar(deltaMs)] + "1.500s"
  {
    var m := Abs(deltaMs);
    MagnitudeUnderMinute(m);
    assert m / 1000 == 1 && m % 1000 == 500;
    SecondsExampleText();
  }

  lemma MinutesExampleText()
    ensures Join(MinuteFields(Decomposition(0, 1, 5, 0)), ':') == "01:05"
  {
    assert Pad(1) == "01" && Pad(5) == "05" && MillisSuffix(0) == "";
    assert Pad(5) + MillisSuffix(0) == "05";
    assert MinuteFields(Decomposition(0, 1, 5, 0)) == ["01", "05"];
    JoinCons("01", ["05"], ':');
  }

  /** Minutes are always padded, even without hours: 65000 ms is "01:05" after the sign. */
  lemma FormatMinutesExample(deltaMs: int)
    requires Abs(deltaMs) == 65000
    ensures FormatOffset(deltaMs) == [SignChar(deltaMs)] + "01:05"
  {
    var m := Abs(deltaMs);
    MagnitudeFromMinute(m);
    DecomposeUnique(m, Decomposition(0, 1, 5, 0));
    MinutesExampleText();
  }

  lemma HoursExampleText()
    ensures Join(MinuteFields(Decomposition(1, 1, 1, 0)), ':') == "1:01:01"
  {
    assert NatToString(1) == "1" && Pad(1) == "01" && MillisSuffix(0) == "";
    assert Pad(1) + MillisSuffix(0) == "01";
    assert MinuteFields(Decomposition(1, 1, 1, 0)) == ["1", "01", "01"];
    JoinCons("1", ["01", "01"], ':');
    JoinCons("01", ["01"], ':');
  }

  /** Hours are unpadded, lower units padded: 3661000 ms is "1:01:01" after the sign. */
  lemma FormatHoursExample(deltaMs: int)
    requires Abs(deltaMs) == 3661000
    ensures FormatOffset(deltaMs) == [SignChar(deltaMs)] + "1:01:01"
  {
    var m := Abs(deltaMs);
    MagnitudeFromMinute(m);
    DecomposeUnique(m, Decomposition(1, 1, 1, 0));
    HoursExampleText();
  }
}
