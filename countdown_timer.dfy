/** The countdown of components/countdown-timer.tsx: the time left until a
    target instant, split into days, hours, minutes and seconds, and the
    text shown for it. The clock is an input: both instants are whole
    milliseconds, as `getTime()` returns them. */
module CountdownTimer {
  import opened Strings

  const MsPerSecond: nat := 1000
  const MsPerMinute: nat := 60000
  const MsPerHour: nat := 3600000
  const MsPerDay: nat := 86400000

  /** `TimeRemaining` */
  datatype TimeRemaining = TimeRemaining(days: nat, hours: nat, minutes: nat, seconds: nat, total: nat)

  /** Division by a unit is determined by its quotient and remainder. */
  lemma DivModUnique(a: int, b: int, q: int, r: int)
    requires b in {MsPerSecond, MsPerMinute, MsPerHour, MsPerDay}
    requires a == b * q + r && 0 <= r < b
    ensures a / b == q && a % b == r
  {
  }

  /** `calculateTimeRemaining`, for the instants `target` and `now`. */
  function CalculateTimeRemaining(target: int, now: int): (r: TimeRemaining)
    ensures target - now <= 0 ==> r == TimeRemaining(0, 0, 0, 0, 0)
    ensures target - now > 0 ==> r.total == target - now
    ensures r.hours < 24 && r.minutes < 60 && r.seconds < 60
    ensures r.days * MsPerDay + r.hours * MsPerHour + r.minutes * MsPerMinute + r.seconds * MsPerSecond
            + r.total % MsPerSecond == r.total
  {
    var difference := target - now;
    if difference <= 0 then TimeRemaining(0, 0, 0, 0, 0)
    else
      var days := difference / MsPerDay;
      var hours := (difference % MsPerDay) / MsPerHour;
      var minutes := (difference % MsPerHour) / MsPerMinute;
      var seconds := (difference % MsPerMinute) / MsPerSecond;
      Decomposition(difference);
      TimeRemaining(days, hours, minutes, seconds, difference)
  }

  /** The split of a positive duration into its units. */
  lemma Decomposition(d: nat)
    ensures (d % MsPerDay) / MsPerHour < 24
    ensures (d % MsPerHour) / MsPerMinute < 60
    ensures (d % MsPerMinute) / MsPerSecond < 60
    ensures (d / MsPerDay) * MsPerDay + ((d % MsPerDay) / MsPerHour) * MsPerHour
            + ((d % MsPerHour) / MsPerMinute) * MsPerMinute + ((d % MsPerMinute) / MsPerSecond) * MsPerSecond
            + d % MsPerSecond == d
  {
    var days, r1 := d / MsPerDay, d % MsPerDay;
    var hours, r2 := r1 / MsPerHour, r1 % MsPerHour;
    DivModUnique(d, MsPerHour, days * 24 + hours, r2);
    var minutes, r3 := r2 / MsPerMinute, r2 % MsPerMinute;
    DivModUnique(d, MsPerMinute, (days * 24 + hours) * 60 + minutes, r3);
    var seconds, ms := r3 / MsPerSecond, r3 % MsPerSecond;
    DivModUnique(d, MsPerSecond, ((days * 24 + hours) * 60 + minutes) * 60 + seconds, ms);
  }

  /** The split is the only one within the units' ranges: any days, hours
      below 24, minutes and seconds below 60, and milliseconds below 1000
      that add up to the time left are the ones computed. */
  lemma DecompositionUnique(target: int, now: int, days: nat, hours: nat, minutes: nat, seconds: nat, ms: nat)
    requires hours < 24 && minutes < 60 && seconds < 60 && ms < 1000
    requires target - now > 0
    requires days * MsPerDay + hours * MsPerHour + minutes * MsPerMinute + seconds * MsPerSecond + ms == target - now
    ensures CalculateTimeRemaining(target, now) == TimeRemaining(days, hours, minutes, seconds, target - now)
  {
    var d := target - now;
    var r := CalculateTimeRemaining(target, now);
    var rest := hours * MsPerHour + minutes * MsPerMinute + seconds * MsPerSecond + ms;
    DivModUnique(d, MsPerDay, days, rest);
    var rest2 := minutes * MsPerMinute + seconds * MsPerSecond + ms;
    DivModUnique(rest, MsPerHour, hours, rest2);
    DivModUnique(d, MsPerHour, days * 24 + hours, rest2);
    var rest3 := seconds * MsPerSecond + ms;
    DivModUnique(rest2, MsPerMinute, minutes, rest3);
    DivModUnique(d, MsPerMinute, (days * 24 + hours) * 60 + minutes, rest3);
    DivModUnique(rest3, MsPerSecond, seconds, ms);
  }

  /** The two looks of the countdown. */
  datatype Variant = Loader | Nav

  /** `formatTime`: `5d 12h 30m` in the navigation bar, with ` 15s`
      appended on the loader. */
  function FormatTime(t: TimeRemaining, variant: Variant): string {
    var compact := NatToString(t.days) + "d " + NatToString(t.hours) + "h " + NatToString(t.minutes) + "m";
    if variant == Nav then compact else compact + " " + NatToString(t.seconds) + "s"
  }

  /** The text shown: all zeros once the target is reached, else the
      formatted time. */
  function Display(t: TimeRemaining, variant: Variant): string {
    if t.total <= 0 then "00:00:00:00" else FormatTime(t, variant)
  }

  /** The zeros are shown exactly when the target is not in the future. */
  lemma DisplayZeroIff(target: int, now: int, variant: Variant)
    ensures Display(CalculateTimeRemaining(target, now), variant) == "00:00:00:00" <==> target <= now
  {
    var t := CalculateTimeRemaining(target, now);
    if target > now {
      var s := FormatTime(t, variant);
      var n := |NatToString(t.days)|;
      assert s[n] == 'd';
      assert 'd' !in "00:00:00:00";
    }
  }

  /** The length of the run of digits a text starts with. */
  function LeadingDigits(s: string): (n: nat)
    ensures n <= |s|
  {
    if s == [] || !IsDigit(s[0]) then 0 else 1 + LeadingDigits(s[1..])
  }

  /** Digits followed by a non-digit: the run of digits is exactly them. */
  lemma {:induction false} LeadingDigitsOf(a: string, c: char, rest: string)
    requires forall k :: 0 <= k < |a| ==> IsDigit(a[k])
    requires !IsDigit(c)
    ensures LeadingDigits(a + [c] + rest) == |a|
  {
    if a == [] {
      assert (a + [c] + rest)[0] == c;
    } else {
      assert (a + [c] + rest)[1..] == a[1..] + [c] + rest;
      LeadingDigitsOf(a[1..], c, rest);
    }
  }

  /** Decimal text followed by a non-digit determines the number and what
      follows. */
  lemma NumberThen(x: nat, y: nat, c: char, rest1: string, rest2: string)
    requires !IsDigit(c)
    requires NatToString(x) + [c] + rest1 == NatToString(y) + [c] + rest2
    ensures x == y && rest1 == rest2
  {
    var a, b := NatToString(x), NatToString(y);
    var s := a + [c] + rest1;
    LeadingDigitsOf(a, c, rest1);
    LeadingDigitsOf(b, c, rest2);
    assert a == s[..|a|];
    assert b == s[..|b|];
    ParseNatToString(x);
    ParseNatToString(y);
    assert rest1 == s[|a| + 1..];
    assert rest2 == s[|b| + 1..];
  }

  /** The text after the days' `d`, after the hours' `h`, and after the
      minutes' `m` of the loader's format. */
  function AfterMinutes(seconds: nat): string {
    " " + (NatToString(seconds) + ['s'] + [])
  }

  function AfterHours(minutes: nat, seconds: nat): string {
    " " + (NatToString(minutes) + ['m'] + AfterMinutes(seconds))
  }

  function AfterDays(hours: nat, minutes: nat, seconds: nat): string {
    " " + (NatToString(hours) + ['h'] + AfterHours(minutes, seconds))
  }

  lemma LoaderForm(t: TimeRemaining)
    ensures FormatTime(t, Loader) == NatToString(t.days) + ['d'] + AfterDays(t.hours, t.minutes, t.seconds)
  {
    var d, h, m, s := NatToString(t.days), NatToString(t.hours), NatToString(t.minutes), NatToString(t.seconds);
    Regroup(d, h, m, s);
  }

  /** The loader's text, regrouped around its unit letters. */
  lemma Regroup(d: string, h: string, m: string, s: string)
    ensures d + "d " + h + "h " + m + "m" + " " + s + "s"
         == d + ['d'] + (" " + (h + ['h'] + (" " + (m + ['m'] + (" " + (s + ['s'] + []))))))
  {
    assert "d " == ['d'] + " " && "h " == ['h'] + " " && "m" == ['m'] && "s" == ['s'] + [];
  }

  /** A common prefix can be taken off both sides. */
  lemma CancelPrefix(a: string, x: string, y: string)
    requires a + x == a + y
    ensures x == y
  {
    assert x == (a + x)[|a|..];
    assert y == (a + y)[|a|..];
  }

  lemma AfterDaysDetermines(h: nat, m: nat, sec: nat, h': nat, m': nat, sec': nat)
    requires AfterDays(h, m, sec) == AfterDays(h', m', sec')
    ensures h == h' && AfterHours(m, sec) == AfterHours(m', sec')
  {
    CancelPrefix(" ", NatToString(h) + ['h'] + AfterHours(m, sec), NatToString(h') + ['h'] + AfterHours(m', sec'));
    NumberThen(h, h', 'h', AfterHours(m, sec), AfterHours(m', sec'));
  }

  lemma AfterHoursDetermines(m: nat, sec: nat, m': nat, sec': nat)
    requires AfterHours(m, sec) == AfterHours(m', sec')
    ensures m == m' && AfterMinutes(sec) == AfterMinutes(sec')
  {
    CancelPrefix(" ", NatToString(m) + ['m'] + AfterMinutes(sec), NatToString(m') + ['m'] + AfterMinutes(sec'));
    NumberThen(m, m', 'm', AfterMinutes(sec), AfterMinutes(sec'));
  }

  lemma AfterMinutesDetermines(sec: nat, sec': nat)
    requires AfterMinutes(sec) == AfterMinutes(sec')
    ensures sec == sec'
  {
    CancelPrefix(" ", NatToString(sec) + ['s'] + [], NatToString(sec') + ['s'] + []);
    NumberThen(sec, sec', 's', [], []);
  }

  /** The loader's text determines the days, hours, minutes and seconds:
      two different times left never look the same. */
  lemma LoaderTextDeterminesTime(t: TimeRemaining, u: TimeRemaining)
    requires FormatTime(t, Loader) == FormatTime(u, Loader)
    ensures t.days == u.days && t.hours == u.hours && t.minutes == u.minutes && t.seconds == u.seconds
  {
    LoaderForm(t);
    LoaderForm(u);
    NumberThen(t.days, u.days, 'd', AfterDays(t.hours, t.minutes, t.seconds), AfterDays(u.hours, u.minutes, u.seconds));
    AfterDaysDetermines(t.hours, t.minutes, t.seconds, u.hours, u.minutes, u.seconds);
    AfterHoursDetermines(t.minutes, t.seconds, u.minutes, u.seconds);
    AfterMinutesDetermines(t.seconds, u.seconds);
  }

  /** Five and a half days, plus a little, before the target. */
  lemma CountdownExample()
    ensures var t := CalculateTimeRemaining(5 * MsPerDay + 12 * MsPerHour + 30 * MsPerMinute + 15 * MsPerSecond + 7, 0);
      t == TimeRemaining(5, 12, 30, 15, 5 * MsPerDay + 12 * MsPerHour + 30 * MsPerMinute + 15 * MsPerSecond + 7)
  {
    DecompositionUnique(5 * MsPerDay + 12 * MsPerHour + 30 * MsPerMinute + 15 * MsPerSecond + 7, 0, 5, 12, 30, 15, 7);
  }
}
