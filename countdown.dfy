/**
 * The countdown hook's arithmetic and text (Hooks.Countdown.updateCountdown in
 * assets/js/app.js): the milliseconds left until the deadline are split into
 * days, hours, minutes and seconds and shown as an optional "N day(s) " prefix
 * followed by a zero-padded HH:MM:SS clock, or as "deadline passed".
 */
module Countdown {
  import opened Wrappers
  import opened Decimal

  const MS_PER_SECOND: int := 1000
  const MS_PER_MINUTE: int := 60000
  const MS_PER_HOUR: int := 3600000
  const MS_PER_DAY: int := 86400000

  /** Time left, broken down; hours, minutes and seconds are within their clock ranges when Valid. */
  datatype Remaining = Remaining(days: nat, hours: nat, minutes: nat, seconds: nat) {
    predicate Valid() {
      hours < 24 && minutes < 60 && seconds < 60
    }

    /** The milliseconds the breakdown stands for. */
    function Millis(): int {
      days * MS_PER_DAY + hours * MS_PER_HOUR + minutes * MS_PER_MINUTE + seconds * MS_PER_SECOND
    }
  }

  /** What the widget shows: the "Deadline passed" banner, or the countdown text. */
  datatype Display = DeadlinePassed | Showing(text: string)

  /**
   * Division with remainder by one of the countdown's radices has a unique result.
   * Each branch restates the equation with the radix as a literal, which keeps the
   * nonlinear step cheap for the solver on every seed.
   */
  lemma RadixDigitsUnique(q1: int, r1: int, q2: int, r2: int, radix: int)
    requires radix in {24, 60, 1000, 60000, 3600000}
    requires 0 <= r1 < radix && 0 <= r2 < radix
    requires q1 * radix + r1 == q2 * radix + r2
    ensures q1 == q2 && r1 == r2
  {
    if radix == 24 {
      assert q1 * 24 + r1 == q2 * 24 + r2;
    } else if radix == 60 {
      assert q1 * 60 + r1 == q2 * 60 + r2;
    } else if radix == 1000 {
      assert q1 * 1000 + r1 == q2 * 1000 + r2;
    } else if radix == 60000 {
      assert q1 * 60000 + r1 == q2 * 60000 + r2;
    } else {
      assert q1 * 3600000 + r1 == q2 * 3600000 + r2;
    }
  }

  /** Taking the remainder by a day, then by an hour, is taking it by an hour; likewise hour then minute. */
  lemma NestedRemainders(diff: int)
    requires diff > 0
    ensures diff % MS_PER_HOUR == (diff % MS_PER_DAY) % MS_PER_HOUR
    ensures diff % MS_PER_MINUTE == (diff % MS_PER_HOUR) % MS_PER_MINUTE
  {
    var days, dayRest := diff / MS_PER_DAY, diff % MS_PER_DAY;
    var hours, hourRest := dayRest / MS_PER_HOUR, dayRest % MS_PER_HOUR;
    assert diff == (days * 24 + hours) * 3600000 + hourRest;
    RadixDigitsUnique(days * 24 + hours, hourRest, diff / MS_PER_HOUR, diff % MS_PER_HOUR, 3600000);
    var h, r := diff / MS_PER_HOUR, diff % MS_PER_HOUR;
    var minutes, minuteRest := r / MS_PER_MINUTE, r % MS_PER_MINUTE;
    assert diff == (h * 60 + minutes) * 60000 + minuteRest;
    RadixDigitsUnique(h * 60 + minutes, minuteRest, diff / MS_PER_MINUTE, diff % MS_PER_MINUTE, 60000);
  }

  /** Floor/modulo split of a positive millisecond difference. */
  function Breakdown(diff: int): (b: Remaining)
    requires diff > 0
    ensures b.Valid()
    ensures b.days == diff / MS_PER_DAY
    ensures b.Millis() <= diff < b.Millis() + MS_PER_SECOND
  {
    NestedRemainders(diff);
    var dayRest := diff % MS_PER_DAY;
    var hourRest := diff % MS_PER_HOUR;
    var minuteRest := diff % MS_PER_MINUTE;
    Remaining(diff / MS_PER_DAY, dayRest / MS_PER_HOUR, hourRest / MS_PER_MINUTE, minuteRest / MS_PER_SECOND)
  }

  /** `n.toString().padStart(2, '0')`. */
  function Pad2(n: nat): (r: string)
    ensures IsDigits(r)
    ensures n < 100 ==> |r| == 2 && Value(r) == n
  {
    var digits := NatToString(n);
    ValueOfNatToString(n);
    if |digits| < 2 then
      assert ("0" + digits)[..1] == "0";
      "0" + digits
    else
      digits
  }

  /** The "N day " / "N days " prefix, present only when at least one whole day is left. */
  function DayPrefix(days: nat): (r: string)
    ensures r == [] <==> days == 0
  {
    if days > 0 then NatToString(days) + " day" + (if days != 1 then "s" else "") + " " else ""
  }

  /** The HH:MM:SS part. */
  function Clock(b: Remaining): (r: string)
    requires b.Valid()
    ensures |r| == 8 && r[2] == ':' && r[5] == ':'
    ensures IsDigits(r[0..2]) && IsDigits(r[3..5]) && IsDigits(r[6..8])
  {
    var r := Pad2(b.hours) + ":" + Pad2(b.minutes) + ":" + Pad2(b.seconds);
    assert r[0..2] == Pad2(b.hours) && r[3..5] == Pad2(b.minutes) && r[6..8] == Pad2(b.seconds);
    r
  }

  function CountdownText(b: Remaining): string
    requires b.Valid()
  {
    DayPrefix(b.days) + Clock(b)
  }

  /** Reads back a day prefix: "" is zero days, "1 day " one, "N days " any other positive N. */
  function ParseDays(p: string): Option<nat> {
    if p == [] then Some(0)
    else if p == "1 day " then Some(1)
    else if |p| > 6 && p[|p| - 6..] == " days " && IsDigits(p[..|p| - 6]) then
      var n := Value(p[..|p| - 6]);
      if n > 1 then Some(n) else None
    else None
  }

  /** Reads back an HH:MM:SS clock. */
  function ParseClock(c: string): Option<(nat, nat, nat)> {
    if |c| == 8 && c[2] == ':' && c[5] == ':' && IsDigits(c[0..2]) && IsDigits(c[3..5]) && IsDigits(c[6..8]) then
      Some((Value(c[0..2]), Value(c[3..5]), Value(c[6..8])))
    else None
  }

  /** Reads back a whole countdown text: an optional day prefix and the last eight characters as the clock. */
  function ParseCountdown(text: string): Option<Remaining> {
    if |text| < 8 then None
    else
      match (ParseDays(text[..|text| - 8]), ParseClock(text[|text| - 8..]))
      case (Some(d), Some((h, m, s))) => Some(Remaining(d, h, m, s))
      case _ => None
  }

  /**
   * "1 day " for one day; otherwise the day count in decimal, without leading zeros,
   * followed by " days ";
   * nothing at all for zero days.
   */
  lemma DayPrefixShape(days: nat)
    ensures days == 1 ==> DayPrefix(days) == "1 day "
    ensures days > 1 ==> var p := DayPrefix(days);
      && |p| > 6 && p[|p| - 6..] == " days "
      && IsDigits(p[..|p| - 6]) && Value(p[..|p| - 6]) == days
      && (|p| > 7 ==> p[0] != '0')
  {
    var p := DayPrefix(days);
    if days == 1 {
      assert NatToString(1) == "1";
    } else if days > 1 {
      assert p[..|p| - 6] == NatToString(days);
      ValueOfNatToString(days);
    }
  }

  lemma ParseDaysOfDayPrefix(days: nat)
    ensures ParseDays(DayPrefix(days)) == Some(days)
  {
    var p := DayPrefix(days);
    if days > 1 {
      var digits := NatToString(days);
      assert p == digits + " days ";
      assert p[..|p| - 6] == digits;
      assert p[|p| - 6..] == " days ";
      ValueOfNatToString(days);
      assert p != "1 day " by {
        if |digits| == 1 {
          assert p[1..6] == " days";
        }
      }
    } else if days == 1 {
      assert NatToString(1) == "1";
    }
  }

  lemma ParseClockOfClock(b: Remaining)
    requires b.Valid()
    ensures ParseClock(Clock(b)) == Some((b.hours, b.minutes, b.seconds))
  {
    var r := Clock(b);
    assert r[0..2] == Pad2(b.hours) && r[3..5] == Pad2(b.minutes) && r[6..8] == Pad2(b.seconds);
  }

  /** The countdown text determines the breakdown it was made from. */
  lemma ParseCountdownText(b: Remaining)
    requires b.Valid()
    ensures ParseCountdown(CountdownText(b)) == Some(b)
  {
    var text := CountdownText(b);
    assert text[..|text| - 8] == DayPrefix(b.days);
    assert text[|text| - 8..] == Clock(b);
    ParseDaysOfDayPrefix(b.days);
    ParseClockOfClock(b);
  }

  /** A valid breakdown is the mixed-radix (days, 24, 60, 60) digits of the milliseconds it stands for. */
  lemma MillisDetermineRemaining(a: Remaining, b: Remaining)
    requires a.Valid() && b.Valid()
    ensures a.Millis() == b.Millis() <==> a == b
  {
    if a.Millis() == b.Millis() {
      var ha, hb := a.days * 24 + a.hours, b.days * 24 + b.hours;
      var ma, mb := ha * 60 + a.minutes, hb * 60 + b.minutes;
      var sa, sb := ma * 60 + a.seconds, mb * 60 + b.seconds;
      assert a.Millis() == sa * 1000 + 0;
      assert b.Millis() == sb * 1000 + 0;
      RadixDigitsUnique(sa, 0, sb, 0, 1000);
      RadixDigitsUnique(ma, a.seconds, mb, b.seconds, 60);
      RadixDigitsUnique(ha, a.minutes, hb, b.minutes, 60);
      RadixDigitsUnique(a.days, a.hours, b.days, b.hours, 24);
    }
  }

  /** A breakdown of a positive difference stands for the difference's whole seconds. */
  lemma BreakdownMillisIsWholeSeconds(diff: int)
    requires diff > 0
    ensures Breakdown(diff).Millis() == (diff / MS_PER_SECOND) * MS_PER_SECOND
  {
    var b := Breakdown(diff);
    var secs := ((b.days * 24 + b.hours) * 60 + b.minutes) * 60 + b.seconds;
    assert b.Millis() == secs * 1000;
    var q, r := diff / 1000, diff % 1000;
    assert diff == q * 1000 + r && 0 <= r < 1000;
    RadixDigitsUnique(secs, diff - secs * 1000, q, r, 1000);
  }

  /** Two positive differences show the same countdown exactly when they agree to the whole second. */
  lemma SameTextIffSameSecond(d1: int, d2: int)
    requires d1 > 0 && d2 > 0
    ensures CountdownText(Breakdown(d1)) == CountdownText(Breakdown(d2)) <==> d1 / MS_PER_SECOND == d2 / MS_PER_SECOND
  {
    var b1, b2 := Breakdown(d1), Breakdown(d2);
    BreakdownMillisIsWholeSeconds(d1);
    BreakdownMillisIsWholeSeconds(d2);
    var q1, q2 := d1 / MS_PER_SECOND, d2 / MS_PER_SECOND;
    assert b1.Millis() == q1 * 1000 + 0 && b2.Millis() == q2 * 1000 + 0;
    if q1 != q2 {
      assert b1.Millis() != b2.Millis() by {
        if b1.Millis() == b2.Millis() {
          RadixDigitsUnique(q1, 0, q2, 0, 1000);
        }
      }
    }
    if CountdownText(b1) == CountdownText(b2) {
      ParseCountdownText(b1);
      ParseCountdownText(b2);
    }
    MillisDetermineRemaining(b1, b2);
  }

  /**
   * One tick of the countdown for the difference `diff` (deadline minus now, in
   * milliseconds). The text is built by appending, as the hook does.
   */
  method UpdateCountdown(diff: int) returns (display: Display)
    ensures display == DeadlinePassed <==> diff <= 0
    ensures diff > 0 ==> display == Showing(CountdownText(Breakdown(diff)))
    ensures display.Showing? ==> |display.text| >= 8 && ParseCountdown(display.text) == Some(Breakdown(diff))
  {
    if diff <= 0 {
      return DeadlinePassed;
    }
    var b := Breakdown(diff);
    var text := "";
    if b.days > 0 {
      text := text + NatToString(b.days) + " day" + (if b.days != 1 then "s" else "") + " ";
    }
    assert text == DayPrefix(b.days);
    text := text + Pad2(b.hours) + ":" + Pad2(b.minutes) + ":" + Pad2(b.seconds);
    assert text == CountdownText(b);
    ParseCountdownText(b);
    display := Showing(text);
  }
}
