/**
 * The appointment slot resolver of cogs/tickets.py: a weekday name and an hour
 * label become the next matching instant, and the day menu lists the next
 * occurrence of each weekday. The clock is naive: `now` is a whole day number
 * counted from 1970-01-01 (a Thursday) plus the second within that day, and a
 * timestamp is `day * 86400 + second`.
 */
module Slots {
  import opened Base
  import opened Text

  const SecondsPerDay := 86400
  const SecondsPerHour := 3600

  datatype Now = Now(day: int, second: int)

  predicate ValidNow(now: Now) {
    0 <= now.second < SecondsPerDay
  }

  /** datetime.weekday(): Monday is 0; day 0 of the clock was a Thursday. */
  function Weekday(day: int): (w: int)
    ensures 0 <= w < 7
  {
    (day + 3) % 7
  }

  function HourOf(now: Now): int {
    now.second / SecondsPerHour
  }

  function Timestamp(now: Now): int {
    now.day * SecondsPerDay + now.second
  }

  const DayNames: seq<string> := ["Lundi", "Mardi", "Mercredi", "Jeudi", "Vendredi", "Samedi", "Dimanche"]

  /** `days_map.get(day_name)`. */
  function DayIndex(name: string): (r: Option<int>)
    ensures r.Some? <==> name in DayNames
    ensures r.Some? ==> 0 <= r.value < 7 && DayNames[r.value] == name
  {
    if name == "Lundi" then Some(0)
    else if name == "Mardi" then Some(1)
    else if name == "Mercredi" then Some(2)
    else if name == "Jeudi" then Some(3)
    else if name == "Vendredi" then Some(4)
    else if name == "Samedi" then Some(5)
    else if name == "Dimanche" then Some(6)
    else None
  }

  /** The label with every 'h' and then every ':' removed. */
  function Cleaned(hourLabel: string): string {
    RemoveChar(RemoveChar(hourLabel, 'h'), ':')
  }

  /** int() of the cleaned label, values above 100 integer-divided by 100, and 18 when
      int() fails. Nothing bounds the result. */
  function ParsedHour(hourLabel: string): int {
    match PyInt(Cleaned(hourLabel))
    case None => 18
    case Some(v) => if v > 100 then v / 100 else v
  }

  /** The labels offered by the hour menus. */
  const HourOptions: seq<string> := ["17h00", "18h00", "19h00", "20h00", "21h00", "22h00"]

  lemma CleanedDigits(ds: string)
    requires AllDigits(ds)
    ensures Cleaned(ds) == ds
  {
    assert 'h' !in ds && ':' !in ds;
    RemoveCharAbsent(ds, 'h');
    RemoveCharAbsent(ds, ':');
  }

  lemma CleanedSeparated(hh: string, sep: char, mm: string)
    requires AllDigits(hh) && AllDigits(mm) && (sep == 'h' || sep == ':')
    ensures Cleaned(hh + [sep] + mm) == hh + mm
  {
    assert 'h' !in hh && ':' !in hh && 'h' !in mm && ':' !in mm;
    RemoveCharAround(hh, sep, mm, 'h');
    RemoveCharSingle(sep, 'h');
    if sep == 'h' {
      assert RemoveChar(hh + [sep] + mm, 'h') == hh + mm;
      RemoveCharAppend(hh, mm, ':');
      RemoveCharAbsent(hh, ':');
      RemoveCharAbsent(mm, ':');
    } else {
      assert RemoveChar(hh + [sep] + mm, 'h') == hh + [sep] + mm;
      RemoveCharAround(hh, sep, mm, ':');
      RemoveCharSingle(sep, ':');
      assert hh + [] + mm == hh + mm;
    }
  }

  /** A label whose cleaned form is a run of digits reads as that number, reduced above 100. */
  lemma ParsedDigits(hourLabel: string)
    requires |Cleaned(hourLabel)| > 0 && AllDigits(Cleaned(hourLabel))
    ensures var v := DecimalValue(Cleaned(hourLabel));
      ParsedHour(hourLabel) == if v > 100 then v / 100 else v
  {
    PyIntDigits(Cleaned(hourLabel));
  }

  /** Label forms "HHhMM" and "HH:MM" read as `HH * 100 + MM`, reduced above 100. */
  lemma HourLabelValue(h: nat, m: nat, sep: char)
    requires h < 100 && m < 100 && (sep == 'h' || sep == ':')
    ensures ParsedHour(Digits(h, 2) + [sep] + Digits(m, 2)) == if h * 100 + m > 100 then h else h * 100 + m
  {
    var hh, mm := Digits(h, 2), Digits(m, 2);
    CleanedSeparated(hh, sep, mm);
    assert Pow10(2) == 100;
    DigitsValue(h, 2);
    DigitsValue(m, 2);
    DecimalValueAppend(hh, mm);
    ParsedDigits(hh + [sep] + mm);
  }

  /** A bare two-digit label reads as itself. */
  lemma HourBareValue(h: nat)
    requires h <= 99
    ensures ParsedHour(Digits(h, 2)) == h
  {
    var hh := Digits(h, 2);
    CleanedDigits(hh);
    assert Pow10(2) == 100;
    DigitsValue(h, 2);
    ParsedDigits(hh);
  }

  /** "HHh00", "HH:00" and a bare "HH" all give HH (so "18h00", "18:00" and "18" give 18). */
  lemma LabelForms(h: nat)
    requires 2 <= h <= 99
    ensures ParsedHour(Digits(h, 2) + "h00") == h
    ensures ParsedHour(Digits(h, 2) + ":00") == h
    ensures ParsedHour(Digits(h, 2)) == h
  {
    assert Digits(0, 2) == "00";
    assert Digits(h, 2) + "h00" == Digits(h, 2) + ['h'] + Digits(0, 2);
    assert Digits(h, 2) + ":00" == Digits(h, 2) + [':'] + Digits(0, 2);
    HourLabelValue(h, 0, 'h');
    HourLabelValue(h, 0, ':');
    HourBareValue(h);
  }

  /** Every label the menus offer reads as its hour, from 17 to 22. */
  lemma MenuHours()
    ensures forall i :: 0 <= i < |HourOptions| ==> ParsedHour(HourOptions[i]) == 17 + i
  {
    forall i | 0 <= i < |HourOptions| ensures ParsedHour(HourOptions[i]) == 17 + i {
      var h := 17 + i;
      assert Digits(h, 2) == [DigitChar(h / 10), DigitChar(h % 10)];
      assert Digits(0, 2) == "00";
      assert HourOptions[i] == Digits(h, 2) + ['h'] + Digits(0, 2);
      HourLabelValue(h, 0, 'h');
    }
  }

  /** A label without any digit falls back to 18. */
  lemma NoDigitDefault(hourLabel: string)
    requires forall i :: 0 <= i < |hourLabel| ==> !IsDigit(hourLabel[i])
    ensures ParsedHour(hourLabel) == 18
  {
    var s := Cleaned(hourLabel);
    var r := RemoveChar(hourLabel, 'h');
    forall i | 0 <= i < |s| ensures !IsDigit(s[i]) {
      assert s[i] in r;
      var j :| 0 <= j < |r| && r[j] == s[i];
      assert r[j] in hourLabel;
    }
    PyIntNeedsDigit(s);
  }

  /** "1h00" reads as 100: it is not above 100, so it is not reduced, and it is not an
      hour of the day. (By HourLabelValue, "00hMM" likewise reads as MM.) */
  lemma OneOClockUnreduced()
    ensures ParsedHour("1h00") == 100
  {
    var one, zeros := Digits(1, 1), Digits(0, 2);
    assert one == "1" && zeros == "00";
    assert "1h00" == one + ['h'] + zeros;
    CleanedSeparated(one, 'h', zeros);
    assert Pow10(2) == 100;
    DigitsValue(1, 1);
    DigitsValue(0, 2);
    DecimalValueAppend(one, zeros);
    ParsedDigits("1h00");
  }

  /** Days from the current weekday to the target weekday, with the same-day roll-over. */
  function DaysAhead(current: int, target: int, nowHour: int, hour: int): int {
    var d := target - current;
    if d < 0 || (d == 0 && nowHour >= hour) then d + 7 else d
  }

  /** What get_next_rdv_timestamp does: return a timestamp, or raise in `replace(hour=...)`. */
  datatype Resolution = Resolved(ts: int) | Raises(hour: int)

  /** The resolver once the label has been read as `hour`. */
  function Resolve(dayName: string, hour: int, now: Now): Resolution {
    match DayIndex(dayName)
    case None => Resolved(0)
    case Some(target) => ResolveWeekday(target, hour, now)
  }

  /** The resolver once the day name has been looked up as weekday `target`. */
  function ResolveWeekday(target: int, hour: int, now: Now): Resolution {
    var ahead := DaysAhead(Weekday(now.day), target, HourOf(now), hour);
    if 0 <= hour < 24 then Resolved((now.day + ahead) * SecondsPerDay + hour * SecondsPerHour)
    else Raises(hour)
  }

  function NextSlot(dayName: string, hourLabel: string, now: Now): Resolution {
    Resolve(dayName, ParsedHour(hourLabel), now)
  }

  /** An unknown day name resolves to timestamp 0, whatever the hour; a known one with an
      hour outside 0..23 raises rather than wrapping or clamping. */
  lemma ResolveErrors(dayName: string, hour: int, now: Now)
    ensures dayName !in DayNames ==> Resolve(dayName, hour, now) == Resolved(0)
    ensures dayName in DayNames ==> (Resolve(dayName, hour, now).Raises? <==> !(0 <= hour < 24))
    ensures Resolve(dayName, hour, now).Raises? ==> Resolve(dayName, hour, now).hour == hour
  {
  }

  /** The day number and second of a timestamp. */
  lemma DayAndSecond(day: int, second: int)
    requires 0 <= second < SecondsPerDay
    ensures (day * SecondsPerDay + second) / SecondsPerDay == day
    ensures (day * SecondsPerDay + second) % SecondsPerDay == second
  {
    var t := day * SecondsPerDay + second;
    var q, r := t / SecondsPerDay, t % SecondsPerDay;
    assert (q - day) * SecondsPerDay == second - r;
  }

  /** How many days ahead the slot lies: none only when today is the target weekday and
      the hour is still ahead, a full week when today is the target weekday otherwise. */
  lemma DaysAheadRange(current: int, target: int, nowHour: int, hour: int)
    requires 0 <= current < 7 && 0 <= target < 7
    ensures var ahead := DaysAhead(current, target, nowHour, hour);
      && 0 <= ahead <= 7
      && (ahead == 0 <==> current == target && nowHour < hour)
      && (ahead == 7 <==> current == target && nowHour >= hour)
      && (current + ahead == target || current + ahead == target + 7)
  {
  }

  /** Moving `ahead` days from a weekday `current` lands on weekday `target`. */
  lemma WeekdayAhead(day: int, ahead: int, target: int)
    requires 0 <= target < 7
    requires Weekday(day) + ahead == target || Weekday(day) + ahead == target + 7
    ensures Weekday(day + ahead) == target
  {
  }

  /** The hour has begun exactly when the second of the day has reached it. */
  lemma HourBegun(now: Now, hour: int)
    requires ValidNow(now) && 0 <= hour < 24
    ensures HourOf(now) < hour <==> now.second < hour * SecondsPerHour
  {
  }

  /** The arithmetic of get_next_rdv_timestamp for weekday `target` and an hour of the day. */
  lemma NextOccurrence(target: int, hour: int, now: Now)
    requires ValidNow(now) && 0 <= target < 7 && 0 <= hour < 24
    ensures ResolveWeekday(target, hour, now).Resolved?
    ensures var ts := ResolveWeekday(target, hour, now).ts;
      && ts % SecondsPerDay == hour * SecondsPerHour
      && Weekday(ts / SecondsPerDay) == target
      && Timestamp(now) < ts <= Timestamp(now) + 7 * SecondsPerDay
      && ts - 7 * SecondsPerDay <= Timestamp(now)
      && (ts / SecondsPerDay == now.day <==> Weekday(now.day) == target && HourOf(now) < hour)
      && (ts / SecondsPerDay == now.day + 7 <==> Weekday(now.day) == target && HourOf(now) >= hour)
  {
    var current := Weekday(now.day);
    var ahead := DaysAhead(current, target, HourOf(now), hour);
    var day := now.day + ahead;
    var ts := ResolveWeekday(target, hour, now).ts;
    assert ts == day * SecondsPerDay + hour * SecondsPerHour;
    DayAndSecond(day, hour * SecondsPerHour);
    DaysAheadRange(current, target, HourOf(now), hour);
    WeekdayAhead(now.day, ahead, target);
    HourBegun(now, hour);
  }

  /** For a known day and an hour of the day, the slot is at `hour`:00:00 on the target
      weekday, strictly after now and at most a week ahead, and it is the first such
      instant: the same instant a week earlier is not after now. It falls today exactly
      when today is the target weekday and the current hour is below the target hour,
      and a full week ahead exactly when today is the target weekday otherwise. */
  lemma ResolveIsNextOccurrence(dayName: string, hour: int, now: Now)
    requires ValidNow(now) && dayName in DayNames && 0 <= hour < 24
    ensures Resolve(dayName, hour, now).Resolved?
    ensures var ts := Resolve(dayName, hour, now).ts;
      var target := DayIndex(dayName).value;
      && ts % SecondsPerDay == hour * SecondsPerHour
      && Weekday(ts / SecondsPerDay) == target
      && Timestamp(now) < ts <= Timestamp(now) + 7 * SecondsPerDay
      && ts - 7 * SecondsPerDay <= Timestamp(now)
      && (ts / SecondsPerDay == now.day <==> Weekday(now.day) == target && HourOf(now) < hour)
      && (ts / SecondsPerDay == now.day + 7 <==> Weekday(now.day) == target && HourOf(now) >= hour)
  {
    NextOccurrence(DayIndex(dayName).value, hour, now);
  }

  /** One entry of the day menu: the weekday name as value, and the date it stands for. */
  datatype DayOption = DayOption(value: string, day: int)

  /** get_day_options: the seven weekdays in order, each at its next occurrence strictly after today. */
  method DayOptions(now: Now) returns (options: seq<DayOption>)
    ensures |options| == 7
    ensures forall i :: 0 <= i < 7 ==>
      options[i].value == DayNames[i] && 1 <= options[i].day - now.day <= 7 && Weekday(options[i].day) == i
  {
    options := [];
    var current := Weekday(now.day);
    for i := 0 to 7
      invariant |options| == i
      invariant forall j :: 0 <= j < i ==>
        options[j].value == DayNames[j] && 1 <= options[j].day - now.day <= 7 && Weekday(options[j].day) == j
    {
      var ahead := i - current;
      if ahead <= 0 {
        ahead := ahead + 7;
      }
      assert Weekday(now.day + ahead) == i by {
        assert current + ahead == i || current + ahead == i + 7;
      }
      options := options + [DayOption(DayNames[i], now.day + ahead)];
    }
  }

  /** The day menu and the resolver agree on the date except in one case: the menu
      entry for today's weekday always shows next week, while the resolver picks today
      when the chosen hour is still ahead. */
  lemma MenuDateVersusSlot(i: int, opt: DayOption, hour: int, now: Now)
    requires ValidNow(now) && 0 <= i < 7 && 0 <= hour < 24
    requires opt.value == DayNames[i] && 1 <= opt.day - now.day <= 7 && Weekday(opt.day) == i
    ensures Resolve(opt.value, hour, now).Resolved?
    ensures var day := Resolve(opt.value, hour, now).ts / SecondsPerDay;
      day != opt.day <==> Weekday(now.day) == i && HourOf(now) < hour
    ensures var day := Resolve(opt.value, hour, now).ts / SecondsPerDay;
      day != opt.day ==> day == now.day && opt.day == now.day + 7
  {
    assert DayIndex(opt.value) == Some(i);
    MenuDayVersusWeekday(i, opt.day, hour, now);
  }

  lemma MenuDayVersusWeekday(i: int, optDay: int, hour: int, now: Now)
    requires ValidNow(now) && 0 <= i < 7 && 0 <= hour < 24
    requires 1 <= optDay - now.day <= 7 && Weekday(optDay) == i
    ensures ResolveWeekday(i, hour, now).Resolved?
    ensures var day := ResolveWeekday(i, hour, now).ts / SecondsPerDay;
      (day != optDay <==> Weekday(now.day) == i && HourOf(now) < hour) &&
      (day != optDay ==> day == now.day && optDay == now.day + 7)
  {
    NextOccurrence(i, hour, now);
    var day := ResolveWeekday(i, hour, now).ts / SecondsPerDay;
    // Both days lie in now.day .. now.day + 7 and fall on the same weekday.
    if day <= optDay {
      SameWeekday(day, optDay);
    } else {
      SameWeekday(optDay, day);
    }
  }

  /** Two days of the same weekday at most a week apart are equal or a week apart. */
  lemma SameWeekday(a: int, b: int)
    requires Weekday(a) == Weekday(b) && 0 <= b - a <= 7
    ensures a == b || b == a + 7
  {
    assert (b - a) % 7 == 0 by {
      assert (a + 3) % 7 == (b + 3) % 7;
    }
  }
}
