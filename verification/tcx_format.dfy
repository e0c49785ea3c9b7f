/** `formatDuration` and `formatDistance` of the TCX viewer: how totals are
    shown. Durations are whole seconds; distances are real numbers of
    metres (JavaScript numbers without NaN or infinities). */
module TcxFormat {
  import opened Wrappers
  import opened Strings

  // ---------------------------------------------------------------------
  // Durations
  // ---------------------------------------------------------------------

  /** `s.padStart(width, c)`. */
  function PadStart(s: string, width: nat, c: char): (r: string)
    ensures |r| == if |s| >= width then |s| else width
    ensures r[|r| - |s|..] == s
    ensures forall i :: 0 <= i < |r| - |s| ==> r[i] == c
    decreases width - |s|
  {
    if |s| >= width then s else PadStart([c] + s, width, c)
  }

  /** A number padded with zeros to two characters. */
  function Pad2(n: nat): string {
    PadStart(NatToString(n), 2, '0')
  }

  /** `formatDuration(seconds)` for whole seconds: "0:00" for nothing,
      `H:MM:SS` from one hour on, `M:SS` below. The display loses nothing:
      it reads back as the same number of seconds. */
  function FormatDuration(total: nat): (r: string)
    ensures ParseDuration(r) == Some(total)
    ensures |Split(r, ':')| == if total >= 3600 then 3 else 2
    // the leading field is the plain decimal of the hours, or of the minutes
    ensures Split(r, ':')[0] == NatToString(if total >= 3600 then total / 3600 else total / 60)
    ensures total == 0 ==> r == "0:00"
  {
    if total == 0 then
      ZeroRoundTrip();
      "0:00"
    else
      if total >= 3600 then HoursDuration(total); FormatClock(total / 3600, (total % 3600) / 60, total % 60)
      else MinutesDuration(total); FormatClock(total / 3600, (total % 3600) / 60, total % 60)
  }

  /** The display of hours, minutes and seconds. */
  function FormatClock(h: nat, m: nat, s: nat): string {
    if h > 0 then NatToString(h) + ":" + Pad2(m) + ":" + Pad2(s)
    else NatToString(m) + ":" + Pad2(s)
  }

  /** Reading a displayed duration back: `M:SS` or `H:MM:SS` with a
      positive hour count, two-digit fields below 60. */
  function ParseDuration(text: string): Option<nat> {
    ParseFields(Split(text, ':'))
  }

  function ParseFields(parts: seq<string>): Option<nat> {
    if |parts| == 2 then MinutesValue(ParseNat(parts[0]), ParseTwoDigits(parts[1]))
    else if |parts| == 3 then HoursValue(ParseNat(parts[0]), ParseTwoDigits(parts[1]), ParseTwoDigits(parts[2]))
    else None
  }

  function MinutesValue(m: Option<nat>, s: Option<nat>): Option<nat> {
    if m.Some? && s.Some? && m.value < 60 then Some(m.value * 60 + s.value) else None
  }

  function HoursValue(h: Option<nat>, m: Option<nat>, s: Option<nat>): Option<nat> {
    if h.Some? && m.Some? && s.Some? && h.value > 0 then Some(h.value * 3600 + m.value * 60 + s.value) else None
  }

  /** A two-digit field below 60. */
  function ParseTwoDigits(text: string): (r: Option<nat>)
    ensures r.Some? ==> r.value < 60
  {
    if |text| == 2 then
      match ParseNat(text)
      case Some(v) => if v < 60 then Some(v) else None
      case None => None
    else None
  }

  /** Hours, minutes and seconds split a duration exactly. */
  lemma ClockFieldsOf(total: nat)
    ensures (total % 3600) / 60 < 60 && total % 60 < 60
    ensures (total / 3600) * 3600 + ((total % 3600) / 60) * 60 + total % 60 == total
  {
    var r := total % 3600;
    assert total == (total / 3600) * 3600 + r;
    assert r == (r / 60) * 60 + r % 60;
    assert r % 60 == total % 60;
  }

  /** Two digits, the first a zero below ten. */
  lemma Pad2Digits(n: nat)
    requires n < 60
    ensures Pad2(n) == [DigitChar(n / 10), DigitChar(n % 10)]
  {
    if n < 10 {
      assert NatToString(n) == [DigitChar(n)];
      assert ['0'] + [DigitChar(n)] == [DigitChar(0), DigitChar(n)];
    } else {
      assert NatToString(n / 10) == [DigitChar(n / 10)];
    }
  }

  lemma TwoDigitsValue(a: nat, b: nat)
    requires a < 6 && b < 10
    ensures ParseTwoDigits([DigitChar(a), DigitChar(b)]) == Some(a * 10 + b)
  {
    var s := [DigitChar(a), DigitChar(b)];
    assert DigitsValue(s[..1]) == a by {
      assert s[..1][..0] == [];
      assert s[..1][0] == DigitChar(a);
    }
    assert s[1] == DigitChar(b);
    assert DigitsValue(s) == a * 10 + b;
  }

  /** A two-digit field reads back as its number. */
  lemma Pad2RoundTrip(n: nat)
    requires n < 60
    ensures ParseTwoDigits(Pad2(n)) == Some(n)
    ensures ':' !in Pad2(n)
  {
    var q, r := n / 10, n % 10;
    assert n == q * 10 + r && q < 6;
    Pad2Digits(n);
    TwoDigitsValue(q, r);
  }

  lemma DigitsHaveNoColon(s: string)
    requires AllDigits(s)
    ensures ':' !in s
  {
  }

  lemma SplitTwo(a: string, b: string)
    requires ':' !in a && ':' !in b
    ensures Split(a + ":" + b, ':') == [a, b]
  {
    assert a + ":" + b == a + [':'] + b;
    SplitOfJoin(a, ':', b);
    SplitWithoutSeparator(b, ':');
  }

  lemma SplitThree(a: string, b: string, c: string)
    requires ':' !in a && ':' !in b && ':' !in c
    ensures Split(a + ":" + b + ":" + c, ':') == [a, b, c]
  {
    assert a + ":" + b + ":" + c == a + [':'] + (b + ":" + c);
    SplitOfJoin(a, ':', b + ":" + c);
    SplitTwo(b, c);
  }

  lemma ParseViaSplit(text: string, fields: seq<string>)
    requires Split(text, ':') == fields
    ensures ParseDuration(text) == ParseFields(fields)
  {
  }

  lemma ThreeFieldsValue(a: string, b: string, d: string, h: nat, m: nat, s: nat)
    requires h > 0 && ParseNat(a) == Some(h) && ParseTwoDigits(b) == Some(m) && ParseTwoDigits(d) == Some(s)
    ensures ParseFields([a, b, d]) == Some(h * 3600 + m * 60 + s)
  {
  }

  lemma TwoFieldsValue(a: string, b: string, m: nat, s: nat)
    requires m < 60 && ParseNat(a) == Some(m) && ParseTwoDigits(b) == Some(s)
    ensures ParseFields([a, b]) == Some(m * 60 + s)
  {
  }

  /** `H:MM:SS` splits into its three fields. */
  lemma HoursSplit(h: nat, m: nat, s: nat)
    requires h > 0 && m < 60 && s < 60
    ensures Split(FormatClock(h, m, s), ':') == [NatToString(h), Pad2(m), Pad2(s)]
  {
    Pad2RoundTrip(m);
    Pad2RoundTrip(s);
    DigitsHaveNoColon(NatToString(h));
    SplitThree(NatToString(h), Pad2(m), Pad2(s));
  }

  /** `M:SS` splits into its two fields. */
  lemma MinutesSplit(m: nat, s: nat)
    requires m < 60 && s < 60
    ensures Split(FormatClock(0, m, s), ':') == [NatToString(m), Pad2(s)]
  {
    Pad2RoundTrip(s);
    DigitsHaveNoColon(NatToString(m));
    SplitTwo(NatToString(m), Pad2(s));
  }

  lemma HoursFieldsValue(h: nat, m: nat, s: nat)
    requires h > 0 && m < 60 && s < 60
    ensures ParseFields([NatToString(h), Pad2(m), Pad2(s)]) == Some(h * 3600 + m * 60 + s)
  {
    Pad2RoundTrip(s);
    Pad2RoundTrip(m);
    NatToStringRoundTrip(h);
    ThreeFieldsValue(NatToString(h), Pad2(m), Pad2(s), h, m, s);
  }

  lemma MinutesFieldsValue(m: nat, s: nat)
    requires m < 60 && s < 60
    ensures ParseFields([NatToString(m), Pad2(s)]) == Some(m * 60 + s)
  {
    Pad2RoundTrip(s);
    NatToStringRoundTrip(m);
    TwoFieldsValue(NatToString(m), Pad2(s), m, s);
  }

  /** `H:MM:SS` reads back as its number of seconds. */
  lemma HoursRoundTrip(h: nat, m: nat, s: nat)
    requires h > 0 && m < 60 && s < 60
    ensures ParseDuration(FormatClock(h, m, s)) == Some(h * 3600 + m * 60 + s)
  {
    HoursSplit(h, m, s);
    HoursFieldsValue(h, m, s);
    ParseViaSplit(FormatClock(h, m, s), [NatToString(h), Pad2(m), Pad2(s)]);
  }

  /** `M:SS` reads back as its number of seconds. */
  lemma MinutesRoundTrip(m: nat, s: nat)
    requires m < 60 && s < 60
    ensures ParseDuration(FormatClock(0, m, s)) == Some(m * 60 + s)
  {
    MinutesSplit(m, s);
    MinutesFieldsValue(m, s);
    ParseViaSplit(FormatClock(0, m, s), [NatToString(m), Pad2(s)]);
  }

  lemma ZeroRoundTrip()
    ensures Split("0:00", ':') == ["0", "00"]
    ensures ParseDuration("0:00") == Some(0)
    ensures NatToString(0) == "0"
  {
    assert "0:00" == "0" + ":" + "00";
    SplitTwo("0", "00");
    assert DigitChar(0) == '0';
    assert ParseNat("0") == Some(0) by {
      assert "0"[..0] == [];
    }
    TwoDigitsValue(0, 0);
    assert [DigitChar(0), DigitChar(0)] == "00";
    TwoFieldsValue("0", "00", 0, 0);
    ParseViaSplit("0:00", ["0", "00"]);
  }

  /** From one hour on, all three fields are shown and read back. */
  lemma HoursDuration(total: nat)
    requires total >= 3600
    ensures var text := FormatClock(total / 3600, (total % 3600) / 60, total % 60);
      ParseDuration(text) == Some(total) && |Split(text, ':')| == 3
      && Split(text, ':')[0] == NatToString(total / 3600)
  {
    var h, m, s := total / 3600, (total % 3600) / 60, total % 60;
    ClockFieldsOf(total);
    assert h > 0 by {
      assert total == h * 3600 + total % 3600 && total % 3600 < 3600;
    }
    HoursRoundTrip(h, m, s);
    HoursSplit(h, m, s);
  }

  /** Below an hour, minutes and seconds are shown and read back. */
  lemma MinutesDuration(total: nat)
    requires 0 < total < 3600
    ensures var text := FormatClock(total / 3600, (total % 3600) / 60, total % 60);
      ParseDuration(text) == Some(total) && |Split(text, ':')| == 2
      && Split(text, ':')[0] == NatToString(total / 60)
  {
    var m, s := total / 60, total % 60;
    assert total == m * 60 + s && m < 60;
    assert total / 3600 == 0 && total % 3600 == total;
    MinutesRoundTrip(m, s);
    MinutesSplit(m, s);
  }

  // ---------------------------------------------------------------------
  // Distances
  // ---------------------------------------------------------------------

  /** `Math.round`: the nearest integer, halves rounded up. */
  function Round(x: real): (r: int)
    ensures x - 1.0 / 2.0 < r as real <= x + 1.0 / 2.0
  {
    (x + 0.5).Floor
  }

  /** The three shapes of `formatDistance`'s result. */
  datatype Distance =
    | ZeroKm                 // { value: '0', unit: 'km', display: '0 km' }
    | Metres(rounded: int)   // { value: Math.round(m), unit: 'm' }
    | Kilometres(km: real)   // { value: (m / 1000).toFixed(2), unit: 'km' }

  function Unit(d: Distance): string {
    if d.Metres? then "m" else "km"
  }

  function FormatDistance(meters: real): (d: Distance)
    ensures d == ZeroKm <==> meters == 0.0
    ensures d.Metres? ==> meters < 1000.0 && d.rounded == Round(meters)
    ensures d.Kilometres? ==> d.km * 1000.0 == meters
  {
    if meters == 0.0 then ZeroKm
    else if meters < 1000.0 then Metres(Round(meters))
    else Kilometres(meters / 1000.0)
  }

  /** The unit is metres exactly for non-zero distances below a kilometre,
      and kilometres otherwise. */
  lemma UnitChoice(meters: real)
    ensures Unit(FormatDistance(meters)) == "m" <==> meters != 0.0 && meters < 1000.0
    ensures Unit(FormatDistance(meters)) == "km" <==> meters == 0.0 || meters >= 1000.0
    ensures meters >= 1000.0 ==> FormatDistance(meters).km >= 1.0
  {
  }

  /** `display` for the metre and zero cases: the rounded number of metres
      followed by " m" reads back as that number. The kilometre text comes
      from `toFixed(2)`, which the model does not render. */
  function Display(d: Distance): (r: Option<string>)
    ensures r.Some? <==> !d.Kilometres?
    ensures d == ZeroKm ==> r == Some("0 km")
    ensures d.Metres? ==>
      && EndsWith(r.value, " m")
      && ParseInt(r.value[..|r.value| - 2]) == Some(d.rounded)
  {
    match d
    case ZeroKm => Some("0 km")
    case Metres(n) =>
      var text := IntToString(n);
      IntToStringRoundTrip(n);
      assert (text + " m")[..|text|] == text;
      assert (text + " m")[|text|..] == " m";
      Some(text + " m")
    case Kilometres(_) => None
  }

  /** Just under a kilometre the metre branch rounds up to "1000 m"
      rather than switching to kilometres. */
  lemma AlmostAKilometre(meters: real)
    requires 999.5 <= meters < 1000.0
    ensures FormatDistance(meters) == Metres(1000)
    ensures ParseInt(Display(FormatDistance(meters)).value[..|Display(FormatDistance(meters)).value| - 2]) == Some(1000)
  {
  }
}
