/**
 * The "time left" label of an auction card. The caller subtracts the
 * current clock from the parsed end time; what remains here is a pure
 * function of that millisecond difference.
 */
module TimeLeft {
  import opened Options
  import opened Decimal

  const MinuteMs: nat := 1000 * 60
  const HourMs: nat := 1000 * 60 * 60
  const DayMs: nat := 1000 * 60 * 60 * 24

  /** A duration split into whole days, hours and minutes. */
  datatype Span = Span(days: nat, hours: nat, minutes: nat)

  function SpanMs(s: Span): nat {
    s.days * DayMs + s.hours * HourMs + s.minutes * MinuteMs
  }

  /** Hours and minutes are carried into the next unit once they fill it. */
  predicate Normal(s: Span) {
    s.hours < 24 && s.minutes < 60
  }

  /**
   * The three floor divisions of the formatter. Minutes are taken from the
   * remainder modulo an hour, not from what is left after the hours; the
   * two agree because a day is a whole number of hours.
   */
  function Decompose(diff: nat): (s: Span)
    ensures Normal(s)
    ensures SpanMs(s) <= diff < SpanMs(s) + MinuteMs
  {
    var days := diff / DayMs;
    var hours := (diff % DayMs) / HourMs;
    var minutes := (diff % HourMs) / MinuteMs;
    assert diff % DayMs == hours * HourMs + diff % HourMs by {
      assert diff == days * DayMs + diff % DayMs;
      assert DayMs == 24 * HourMs;
    }
    Span(days, hours, minutes)
  }

  /** A normal span that truncates `diff` to whole minutes is the one Decompose returns. */
  lemma DecomposeUnique(diff: nat, s: Span)
    requires Normal(s)
    requires SpanMs(s) <= diff < SpanMs(s) + MinuteMs
    ensures s == Decompose(diff)
  {
    var t := Decompose(diff);
    var rest := s.hours * HourMs + s.minutes * MinuteMs;
    assert rest < DayMs;
    assert s.days == diff / DayMs;
    assert s.hours == (diff - s.days * DayMs) / HourMs;
    assert t.hours == s.hours;
  }

  /** Which of the label's shapes is shown, with the numbers it shows. */
  datatype Display =
    | Ended
    | DaysHours(days: nat, hours: nat)
    | HoursMinutes(hours: nat, minutes: nat)
    | MinutesOnly(minutes: nat)

  /**
   * The branch choice of the formatter: nothing left, else the two coarsest
   * units starting at the first non-zero one of days and hours, else minutes.
   * Each shape shows `diff` truncated to its finer unit.
   */
  function Classify(diff: int): (d: Display)
    ensures d.Ended? <==> diff <= 0
    ensures d.DaysHours? <==> diff >= DayMs
    ensures d.HoursMinutes? <==> HourMs <= diff < DayMs
    ensures d.MinutesOnly? <==> 0 < diff < HourMs
    ensures d.DaysHours? ==>
      && d.days >= 1 && d.hours < 24
      && d.days * DayMs + d.hours * HourMs <= diff < d.days * DayMs + (d.hours + 1) * HourMs
    ensures d.HoursMinutes? ==>
      && 1 <= d.hours < 24 && d.minutes < 60
      && d.hours * HourMs + d.minutes * MinuteMs <= diff < d.hours * HourMs + (d.minutes + 1) * MinuteMs
    ensures d.MinutesOnly? ==>
      && d.minutes < 60
      && d.minutes * MinuteMs <= diff < (d.minutes + 1) * MinuteMs
  {
    if diff <= 0 then Ended
    else
      var s := Decompose(diff);
      if s.days > 0 then DaysHours(s.days, s.hours)
      else if s.hours > 0 then HoursMinutes(s.hours, s.minutes)
      else MinutesOnly(s.minutes)
  }

  /** The template literal of each shape: "Ended" alone, else a count first and " left" last. */
  function Render(d: Display): (r: string)
    ensures r == "Ended" <==> d.Ended?
    ensures !d.Ended? ==> |r| > 5 && IsDigit(r[0]) && r[|r| - 5..] == " left"
  {
    match d
    case Ended => "Ended"
    case DaysHours(days, hours) => NatToString(days) + "d " + NatToString(hours) + "h left"
    case HoursMinutes(hours, minutes) => NatToString(hours) + "h " + NatToString(minutes) + "m left"
    case MinutesOnly(minutes) => NatToString(minutes) + "m left"
  }

  /** Reads a label back into its shape and numbers; the partner of Render. */
  function ParseTimeLeft(s: string): Option<Display> {
    if s == "Ended" then Some(Ended)
    else
      var k := LeadingDigits(s);
      if k == 0 || !Canonical(s[..k]) then None else ParseAfterFirst(DigitsValue(s[..k]), s[k..])
  }

  /** What may follow the first number: "m left", or a unit, a space and a second number. */
  function ParseAfterFirst(first: nat, rest: string): Option<Display> {
    if rest == "m left" then Some(MinutesOnly(first))
    else if |rest| >= 2 && rest[1] == ' ' then
      var tail := rest[2..];
      var j := LeadingDigits(tail);
      if j == 0 || !Canonical(tail[..j]) then None
      else ParseSecondUnit(first, rest[0], DigitsValue(tail[..j]), tail[j..])
    else None
  }

  function ParseSecondUnit(first: nat, unit: char, second: nat, suffix: string): Option<Display> {
    if unit == 'd' && suffix == "h left" then Some(DaysHours(first, second))
    else if unit == 'h' && suffix == "m left" then Some(HoursMinutes(first, second))
    else None
  }

  /** A rendered number followed by a non-digit tail reads back as that number and tail. */
  lemma SplitRendered(n: nat, tail: string)
    requires |tail| > 0 && !IsDigit(tail[0])
    ensures var s := NatToString(n) + tail;
      && LeadingDigits(s) == |NatToString(n)|
      && s[..|NatToString(n)|] == NatToString(n)
      && s[|NatToString(n)|..] == tail
      && DigitsValue(NatToString(n)) == n
  {
    LeadingDigitsOfAppend(NatToString(n), tail);
    ValueOfNatToString(n);
    var s := NatToString(n) + tail;
    assert s[..|NatToString(n)|] == NatToString(n);
    assert s[|NatToString(n)|..] == tail;
  }

  /** A label that starts with a rendered number is read by ParseAfterFirst on what follows it. */
  lemma ParseLeadingNumber(n: nat, rest: string)
    requires |rest| > 0 && !IsDigit(rest[0])
    ensures ParseTimeLeft(NatToString(n) + rest) == ParseAfterFirst(n, rest)
  {
    var s := NatToString(n) + rest;
    SplitRendered(n, rest);
    assert s != "Ended" by { assert IsDigit(s[0]); }
  }

  lemma ParseTwoUnits(first: nat, unit: char, second: nat, suffix: string)
    requires unit == 'd' || unit == 'h'
    requires |suffix| > 0 && !IsDigit(suffix[0])
    ensures ParseAfterFirst(first, [unit, ' '] + NatToString(second) + suffix)
         == ParseSecondUnit(first, unit, second, suffix)
  {
    var a := NatToString(second);
    var rest := [unit, ' '] + a + suffix;
    assert rest[2] == a[0];
    assert rest != "m left" by { assert IsDigit(rest[2]); }
    assert |rest| >= 2 && rest[1] == ' ' && rest[0] == unit;
    assert rest[2..] == a + suffix;
    SplitRendered(second, suffix);
    var j := LeadingDigits(rest[2..]);
    assert j == |a|;
    assert DigitsValue(rest[2..][..j]) == second;
    assert rest[2..][j..] == suffix;
  }

  /** Every label reads back as the shape it was rendered from, so no two shapes share a label. */
  lemma ParseOfRender(d: Display)
    ensures ParseTimeLeft(Render(d)) == Some(d)
  {
    match d
    case Ended =>
    case MinutesOnly(m) => ParseOfMinutesLabel(m);
    case DaysHours(days, hours) => ParseOfDaysLabel(days, hours);
    case HoursMinutes(hours, minutes) => ParseOfHoursLabel(hours, minutes);
  }

  lemma ParseOfMinutesLabel(m: nat)
    ensures ParseTimeLeft(Render(MinutesOnly(m))) == Some(MinutesOnly(m))
  {
    ParseLeadingNumber(m, "m left");
  }

  lemma ParseOfDaysLabel(days: nat, hours: nat)
    ensures ParseTimeLeft(Render(DaysHours(days, hours))) == Some(DaysHours(days, hours))
  {
    var a := NatToString(days);
    var b := NatToString(hours);
    var text := a + (['d', ' '] + b + "h left");
    assert Render(DaysHours(days, hours)) == text by {
      assert a + "d " + b + "h left" == a + (['d', ' '] + b + "h left");
    }
    ParseOfTwoUnits(days, 'd', hours, "h left");
    assert ParseSecondUnit(days, 'd', hours, "h left") == Some(DaysHours(days, hours));
  }

  lemma ParseOfHoursLabel(hours: nat, minutes: nat)
    ensures ParseTimeLeft(Render(HoursMinutes(hours, minutes))) == Some(HoursMinutes(hours, minutes))
  {
    var a := NatToString(hours);
    var b := NatToString(minutes);
    var text := a + (['h', ' '] + b + "m left");
    assert Render(HoursMinutes(hours, minutes)) == text by {
      assert a + "h " + b + "m left" == a + (['h', ' '] + b + "m left");
    }
    ParseOfTwoUnits(hours, 'h', minutes, "m left");
    assert ParseSecondUnit(hours, 'h', minutes, "m left") == Some(HoursMinutes(hours, minutes));
  }

  lemma ParseOfTwoUnits(first: nat, unit: char, second: nat, suffix: string)
    requires unit == 'd' || unit == 'h'
    requires |suffix| > 0 && !IsDigit(suffix[0])
    ensures ParseTimeLeft(NatToString(first) + ([unit, ' '] + NatToString(second) + suffix))
         == ParseSecondUnit(first, unit, second, suffix)
  {
    var rest := [unit, ' '] + NatToString(second) + suffix;
    ParseLeadingNumber(first, rest);
    ParseTwoUnits(first, unit, second, suffix);
  }

  /** A zero-padded count is not a label the formatter prints, and is refused. */
  lemma ParseRefusesPadding()
    ensures ParseTimeLeft("07m left") == None
  {
    var s := "07m left";
    assert LeadingDigits(s[2..]) == 0;
    assert LeadingDigits(s[1..]) == 1;
    assert LeadingDigits(s) == 2;
    assert s[..2] == "07" && !Canonical(s[..2]);
  }

  /** Whatever reads back as a shape is exactly that shape's label: reading back pins every character. */
  lemma RenderOfParse(s: string, d: Display)
    requires ParseTimeLeft(s) == Some(d)
    ensures s == Render(d)
  {
    if s != "Ended" {
      var k := LeadingDigits(s);
      var a := s[..k];
      NatToStringOfParse(a);
      assert s == a + s[k..];
      RenderOfParseAfterFirst(DigitsValue(a), s[k..], d);
    }
  }

  /** What follows the first count, read back, is the rest of the label after that count. */
  lemma RenderOfParseAfterFirst(first: nat, rest: string, d: Display)
    requires ParseAfterFirst(first, rest) == Some(d)
    ensures NatToString(first) + rest == Render(d)
  {
    if rest != "m left" {
      var tail := rest[2..];
      var j := LeadingDigits(tail);
      var b := tail[..j];
      var suffix := tail[j..];
      NatToStringOfParse(b);
      assert rest == [rest[0], ' '] + b + suffix;
      RenderOfParseSecondUnit(first, rest[0], DigitsValue(b), suffix, d);
    }
  }

  lemma RenderOfParseSecondUnit(first: nat, unit: char, second: nat, suffix: string, d: Display)
    requires ParseSecondUnit(first, unit, second, suffix) == Some(d)
    ensures NatToString(first) + ([unit, ' '] + NatToString(second) + suffix) == Render(d)
  {
    var a := NatToString(first);
    var b := NatToString(second);
    if unit == 'd' {
      assert a + (['d', ' '] + b + "h left") == a + "d " + b + "h left";
    } else {
      assert a + (['h', ' '] + b + "m left") == a + "h " + b + "m left";
    }
  }

  /** A label that reads back as the classification of `diff` is the formatter's label for `diff`. */
  lemma FormatOfParse(diff: int, r: string)
    requires ParseTimeLeft(r) == Some(Classify(diff))
    ensures r == FormatTimeLeft(diff)
  {
    RenderOfParse(r, Classify(diff));
  }

  lemma RenderInjective(d: Display, e: Display)
    requires Render(d) == Render(e)
    ensures d == e
  {
    ParseOfRender(d);
    ParseOfRender(e);
  }

  /**
   * formatTimeLeft applied to the difference end - now: "Ended" exactly when
   * nothing is left, and otherwise a label that reads back as the truncated
   * split Classify describes.
   */
  function FormatTimeLeft(diff: int): (r: string)
    ensures r == "Ended" <==> diff <= 0
    ensures ParseTimeLeft(r) == Some(Classify(diff))
  {
    var d := Classify(diff);
    ParseOfRender(d);
    assert Render(d) == "Ended" ==> d == Ended by {
      if Render(d) == "Ended" {
        RenderInjective(d, Ended);
      }
    }
    Render(d)
  }

  /** A two-unit label holds only digits, its two unit letters, spaces and the letters of "left". */
  lemma TwoUnitLabelAvoids(a: string, u: string, b: string, v: string, c: char)
    requires AllDigits(a) && AllDigits(b) && !IsDigit(c)
    requires c !in u && c !in v
    ensures c !in a + u + b + v
  {
    var r := a + u + b + v;
    forall i | 0 <= i < |r|
      ensures r[i] != c
    {
      if i < |a| {
        assert r[i] == a[i];
      } else if i < |a| + |u| {
        assert r[i] == u[i - |a|];
      } else if i < |a| + |u| + |b| {
        assert r[i] == b[i - |a| - |u|];
      } else {
        assert r[i] == v[i - |a| - |u| - |b|];
      }
    }
  }

  /** At least a day left: days and hours are shown, minutes never are. */
  lemma FormatDays(diff: int)
    requires diff >= DayMs
    ensures FormatTimeLeft(diff) == NatToString(diff / DayMs) + "d " + NatToString((diff % DayMs) / HourMs) + "h left"
    ensures 'm' !in FormatTimeLeft(diff)
  {
    var a := NatToString(diff / DayMs);
    var b := NatToString((diff % DayMs) / HourMs);
    assert FormatTimeLeft(diff) == a + "d " + b + "h left";
    TwoUnitLabelAvoids(a, "d ", b, "h left", 'm');
  }

  /** Under a day but at least an hour: hours and minutes, never days. */
  lemma FormatHours(diff: int)
    requires HourMs <= diff < DayMs
    ensures FormatTimeLeft(diff) == NatToString(diff / HourMs) + "h " + NatToString((diff % HourMs) / MinuteMs) + "m left"
    ensures 'd' !in FormatTimeLeft(diff)
  {
    var h := diff / HourMs;
    var m := (diff % HourMs) / MinuteMs;
    assert diff / DayMs == 0 && diff % DayMs == diff;
    assert Decompose(diff) == Span(0, h, m);
    assert Classify(diff) == HoursMinutes(h, m);
    var a := NatToString(h);
    var b := NatToString(m);
    assert FormatTimeLeft(diff) == a + "h " + b + "m left";
    TwoUnitLabelAvoids(a, "h ", b, "m left", 'd');
  }

  /** Under an hour: whole minutes only, so under a minute still reads "0m left" and not "Ended". */
  lemma FormatMinutes(diff: int)
    requires 0 < diff < HourMs
    ensures FormatTimeLeft(diff) == NatToString(diff / MinuteMs) + "m left"
    ensures diff < MinuteMs ==> FormatTimeLeft(diff) == "0m left"
  {
    var m := diff / MinuteMs;
    assert diff % DayMs == diff && diff % HourMs == diff;
    assert Decompose(diff) == Span(0, 0, m);
    assert FormatTimeLeft(diff) == Render(MinutesOnly(m));
  }

  /** Ninety minutes ahead. */
  lemma FormatNinetyMinutes()
    ensures FormatTimeLeft(90 * MinuteMs) == "1h 30m left"
  {
    var diff := 90 * MinuteMs;
    FormatHours(diff);
    assert HourMs == 3600000 && MinuteMs == 60000 && diff == 5400000;
    assert diff % HourMs == 1800000;
    assert diff / HourMs == 1 && (diff % HourMs) / MinuteMs == 30;
    var one := NatToString(1);
    var thirty := NatToString(30);
    assert one == "1";
    assert thirty == NatToString(3) + [DigitChar(0)] == "30";
    assert FormatTimeLeft(diff) == one + "h " + thirty + "m left";
    assert one + "h " + thirty + "m left" == "1h 30m left";
  }
}
