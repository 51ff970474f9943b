/** src/utils/timer.ts: the mission-time validator `timerRegex` and
    `calcTimerDiff`, which splits a number of seconds into a time of day. */
module Timer {
  import opened Results
  import opened Strings

  // ---------------------------------------------------------------------
  // timerRegex: /^(?<time>\d{1,2})min$/

  /** The whole string is one or two decimal digits followed by `min`. */
  predicate TimerRegex(s: string)
  {
    4 <= |s| <= 5 && AllDigits(s[..|s| - 3]) && s[|s| - 3..] == "min"
  }

  /** The value of the named group `time` of a match. */
  function TimeGroup(s: string): (r: Option<nat>)
    ensures r.Some? <==> TimerRegex(s)
    ensures r.Some? ==> r.value < 100
  {
    if TimerRegex(s) then
      var digits := s[..|s| - 3];
      AtMostTwoDigits(digits);
      Some(DigitsValue(digits))
    else None
  }

  lemma {:induction false} AtMostTwoDigits(s: string)
    requires AllDigits(s) && |s| <= 2
    ensures DigitsValue(s) < 100
    ensures |s| <= 1 ==> DigitsValue(s) < 10
    decreases |s|
  {
    if s != [] {
      AtMostTwoDigits(s[..|s| - 1]);
    }
  }

  lemma TimerRegexAccepts()
    ensures TimerRegex("5min") && TimerRegex("15min") && TimerRegex("00min")
  {
  }

  lemma TimerRegexRejects()
    ensures !TimerRegex("100min") && !TimerRegex("min") && !TimerRegex("15 min")
    ensures !TimerRegex("15mins") && !TimerRegex("xmin") && !TimerRegex("5MIN")
  {
    assert "15 min"[..3] == "15 " && !IsDigit("15 min"[2]);
    assert "15mins"[3..] == "ins";
    assert "xmin"[..1] == "x" && !IsDigit("xmin"[0]);
    assert "5MIN"[1..] == "MIN";
  }

  /** A minute count written in decimal is accepted exactly when it is
      below one hundred, and the group reads it back. */
  lemma {:induction false} MinutesAccepted(n: nat)
    ensures TimerRegex(NatText(n) + "min") <==> n < 100
    ensures n < 100 ==> TimeGroup(NatText(n) + "min") == Some(n)
  {
    var s := NatText(n) + "min";
    NatTextWidth(n);
    assert s[..|s| - 3] == NatText(n);
    assert s[|s| - 3..] == "min";
    NatTextRoundTrip(n);
  }

  // ---------------------------------------------------------------------
  // calcTimerDiff

  datatype CalcDiff = CalcDiff(hours: nat, minutes: nat, seconds: nat)

  const SecondsPerDay := 86400

  /** The time of day `t` seconds after midnight, whole days discarded. */
  function ClockOf(t: nat): (c: CalcDiff)
    ensures c.hours < 24 && c.minutes < 60 && c.seconds < 60
  {
    CalcDiff((t % SecondsPerDay) / 3600, (t % 3600) / 60, t % 60)
  }

  /** The seconds since midnight a time of day stands for. */
  function SecondsOf(c: CalcDiff): nat
  {
    c.hours * 3600 + c.minutes * 60 + c.seconds
  }

  predicate IsTimeOfDay(c: CalcDiff)
  {
    c.hours < 24 && c.minutes < 60 && c.seconds < 60
  }

  /** `calcTimerDiff` over non-negative whole seconds, step by step: take
      off whole days, then hours, then minutes; what is left is seconds.
      `Math.floor` of a non-negative quotient is Dafny's division. */
  method CalcTimerDiff(t: nat) returns (calcDiff: CalcDiff)
    ensures calcDiff == ClockOf(t)
  {
    var timeDiff: int := t;
    var days := timeDiff / (60 * 60 * 24);
    timeDiff := timeDiff - days * 60 * 60 * 24;
    assert timeDiff == t % SecondsPerDay;

    calcDiff := CalcDiff(0, 0, 0);

    var hours := (timeDiff / (60 * 60)) % 24;
    calcDiff := calcDiff.(hours := hours);
    timeDiff := timeDiff - hours * 60 * 60;
    assert timeDiff == t % 3600 by {
      ModOfDay(t);
    }

    var minutes := (timeDiff / 60) % 60;
    calcDiff := calcDiff.(minutes := minutes);
    timeDiff := timeDiff - minutes * 60;
    assert timeDiff == t % 60 by {
      ModOfHour(t);
    }

    calcDiff := calcDiff.(seconds := timeDiff);
  }

  /** Taking the hours off the seconds of the day leaves the seconds of
      the hour. */
  lemma ModOfDay(t: nat)
    ensures t % SecondsPerDay - ((t % SecondsPerDay) / 3600) * 3600 == t % 3600
  {
    var q := t / SecondsPerDay;
    var r := t % SecondsPerDay;
    assert t == q * SecondsPerDay + r;
    assert t == (q * 24 + r / 3600) * 3600 + r % 3600;
  }

  /** Taking the minutes off the seconds of the hour leaves the seconds of
      the minute. */
  lemma ModOfHour(t: nat)
    ensures t % 3600 - ((t % 3600) / 60) * 60 == t % 60
  {
    var q := t / 3600;
    var r := t % 3600;
    assert t == q * 3600 + r;
    assert t == (q * 60 + r / 60) * 60 + r % 60;
  }

  /** The parts add up to the seconds since midnight. */
  lemma ClockAddsUp(t: nat)
    ensures SecondsOf(ClockOf(t)) == t % SecondsPerDay
  {
    ModOfDay(t);
    ModOfHour(t);
  }

  /** Division by a minute, an hour or a day undoes `q * m + r` for a
      remainder below `m`. */
  lemma DivModOf(n: nat, q: nat, r: nat, m: nat)
    requires m == 60 || m == 3600 || m == SecondsPerDay
    requires r < m && n == q * m + r
    ensures n / m == q && n % m == r
  {
  }

  /** A time of day is recovered from its seconds since midnight. */
  lemma ClockOfSeconds(c: CalcDiff)
    requires IsTimeOfDay(c)
    ensures SecondsOf(c) < SecondsPerDay && ClockOf(SecondsOf(c)) == c
  {
    var s := SecondsOf(c);
    var inHour := c.minutes * 60 + c.seconds;
    DivModOf(s, c.hours * 60 + c.minutes, c.seconds, 60);
    DivModOf(s, c.hours, inHour, 3600);
    DivModOf(inHour, c.minutes, c.seconds, 60);
    DivModOf(s, 0, s, SecondsPerDay);
  }

  /** Whole days are discarded: a day later is the same time of day. */
  lemma ClockIsDaily(t: nat)
    ensures ClockOf(t + SecondsPerDay) == ClockOf(t)
  {
    assert (t + SecondsPerDay) % SecondsPerDay == t % SecondsPerDay;
    assert (t + SecondsPerDay) % 3600 == t % 3600;
    assert (t + SecondsPerDay) % 60 == t % 60;
  }

  /** Under a minute, everything is seconds. */
  lemma ClockUnderAMinute(t: nat)
    requires t < 60
    ensures ClockOf(t) == CalcDiff(0, 0, t)
  {
  }
}
