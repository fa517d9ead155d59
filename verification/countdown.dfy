/**
  Countdown arithmetic (src/components/ui/CountdownTimer.tsx): splitting
  the milliseconds left until the target into days, hours, minutes and
  seconds; the number of days the "days" ring spans; the two-digit padding
  of each number; and the table of units with their maxima.

  Times are integer milliseconds since the epoch. The target date is an
  input that may fail to parse (`None`, JavaScript's `NaN`); the clock
  reading is an input too.
 */
module Countdown {
  import opened Base
  import opened Text

  const MsPerSecond: int := 1000
  const MsPerMinute: int := 1000 * 60
  const MsPerHour: int := 1000 * 60 * 60
  const MsPerDay: int := 1000 * 60 * 60 * 24

  /** `2026-01-01T00:00:00+05:30`, the start of the fest season, in
      milliseconds since the epoch. */
  const FestStartMs: int := 1767205800000

  datatype TimeLeft = TimeLeft(days: nat, hours: nat, minutes: nat, seconds: nat)

  /** The whole seconds a `TimeLeft` stands for. */
  function TotalSeconds(t: TimeLeft): nat
  {
    t.days * 86400 + t.hours * 3600 + t.minutes * 60 + t.seconds
  }

  /** Hours, minutes and seconds are within their clock ranges. */
  predicate InRange(t: TimeLeft)
  {
    t.hours < 24 && t.minutes < 60 && t.seconds < 60
  }

  /** `calculateTimeLeft`. When the target is unreadable or not in the
      future every field is 0. Otherwise the fields are in their clock
      ranges and together make up exactly the whole seconds left. */
  function CalculateTimeLeft(target: Option<int>, now: int): (t: TimeLeft)
    ensures InRange(t)
    ensures target.None? || target.value - now <= 0 ==> t == TimeLeft(0, 0, 0, 0)
    ensures target.Some? && target.value - now > 0 ==> TotalSeconds(t) == (target.value - now) / MsPerSecond
  {
    if target.None? || target.value - now <= 0 then TimeLeft(0, 0, 0, 0)
    else
      var d := target.value - now;
      Recompose(d);
      Split(d)
  }

  /** The field values for a positive difference `d`: `Math.floor` of the
      quotients, taken modulo 24, 60 and 60. */
  function Split(d: nat): TimeLeft
  {
    TimeLeft(d / MsPerDay, (d / MsPerHour) % 24, (d / MsPerMinute) % 60, (d / MsPerSecond) % 60)
  }

  /** Dividing by `b` and then by `c` is dividing by `b * c`. */
  lemma DivDiv(a: int, b: int, c: int)
    requires b > 0 && c > 0
    ensures a / (b * c) == (a / b) / c
  {
    var q1 := a / b;
    var r1 := a % b;
    var q := q1 / c;
    var r2 := q1 % c;
    MixedRadix(b, c, q, r2, r1);
    DivModUnique(a, b * c, q, b * r2 + r1);
  }

  /** The number with digits `q`, `r2`, `r1` in the radices `c` and `b`. */
  lemma MixedRadix(b: int, c: int, q: int, r2: int, r1: int)
    requires b > 0 && c > 0 && 0 <= r1 < b && 0 <= r2 < c
    ensures b * (c * q + r2) + r1 == (b * c) * q + (b * r2 + r1)
    ensures 0 <= b * r2 + r1 < b * c
  {
    assert b * r2 <= b * (c - 1);
  }

  /** `Split(d)` recomposes to the whole seconds in `d`. */
  lemma Recompose(d: nat)
    ensures InRange(Split(d)) && TotalSeconds(Split(d)) == d / MsPerSecond
  {
    var s := d / 1000;
    DivDiv(d, 1000, 60);
    DivDiv(d, 60000, 60);
    DivDiv(d, 3600000, 24);
    var m := s / 60;
    var h := m / 60;
    assert d / MsPerMinute == m;
    assert d / MsPerHour == h;
    assert d / MsPerDay == h / 24;
    assert s == 60 * m + s % 60;
    assert m == 60 * h + m % 60;
    assert h == 24 * (h / 24) + h % 24;
  }

  /** Conversely, a `TimeLeft` in range that makes up the whole seconds
      left is the one `calculateTimeLeft` gives: the decomposition is the
      only one. */
  lemma {:induction false} SplitUnique(target: int, now: int, t: TimeLeft)
    requires target - now > 0 && InRange(t)
    requires TotalSeconds(t) == (target - now) / MsPerSecond
    ensures CalculateTimeLeft(Some(target), now) == t
  {
    var d := target - now;
    var u := CalculateTimeLeft(Some(target), now);
    var s := d / 1000;
    var m := t.days * 1440 + t.hours * 60 + t.minutes;
    var h := t.days * 24 + t.hours;
    assert s == 60 * m + t.seconds;
    DivModUnique(s, 60, m, t.seconds);
    assert m == 60 * h + t.minutes;
    DivModUnique(m, 60, h, t.minutes);
    assert h == 24 * t.days + t.hours;
    DivModUnique(h, 24, t.days, t.hours);
    DivDiv(d, 1000, 60);
    DivDiv(d, 60000, 60);
    DivDiv(d, 3600000, 24);
  }

  // ---------------------------------------------------------------------------
  // maxDays
  // ---------------------------------------------------------------------------

  /** `maxDays`: whole days from the season start to the target, at least 1.
      It is the floor of the day count whenever that is at least one day,
      and 1 for any target less than two days after the start (including
      one before it). */
  function MaxDays(target: int): (r: int)
    ensures r >= 1
    ensures target - FestStartMs >= MsPerDay ==>
              r * MsPerDay <= target - FestStartMs < (r + 1) * MsPerDay
    ensures target - FestStartMs < 2 * MsPerDay ==> r == 1
  {
    var diff := target - FestStartMs;
    var days := diff / MsPerDay;
    if days > 1 then days else 1
  }

  // ---------------------------------------------------------------------------
  // TimeUnit and the table of units
  // ---------------------------------------------------------------------------

  /** `formattedValue`: a leading `0` below 10, the plain decimal otherwise.
      The text is at least two digits, exactly two for values below 100,
      and reads back as the value. */
  function FormatValue(value: nat): (r: string)
    ensures |r| >= 2
    ensures value < 100 ==> |r| == 2
    ensures r[0] == '0' <==> value < 10
    ensures forall i :: 0 <= i < |r| ==> IsDigit(r[i])
  {
    if value < 10 then "0" + NatToString(value) else NatToString(value)
  }

  /** Reading the padded text back gives the value. */
  lemma {:induction false} FormatValueRoundTrip(value: nat)
    ensures ParseNat(FormatValue(value)) == value
  {
    var r := FormatValue(value);
    ParseNatToString(value);
    if value < 10 {
      assert r[..|r| - 1] == "0";
      assert ParseNat("0") == 0 by {
        assert "0"[..0] == [];
      }
    }
  }

  /** Different values have different texts. */
  lemma FormatValueInjective(a: nat, b: nat)
    requires FormatValue(a) == FormatValue(b)
    ensures a == b
  {
    FormatValueRoundTrip(a);
    FormatValueRoundTrip(b);
  }

  /** One ring of the timer: its caption, its value and the value that fills it. */
  datatype Unit = Unit(caption: string, value: nat, maxValue: int)

  /** `timerComponents`: days against `maxDays`, hours against 24, minutes
      and seconds against 60, captioned `Days`, `Hours`, `Minutes` and
      `Seconds`. The captions, which are the rings' render keys, are
      distinct, and for a `TimeLeft` from `calculateTimeLeft` the hours,
      minutes and seconds are below their maxima. */
  function Units(t: TimeLeft, maxDays: int): (us: seq<Unit>)
    ensures |us| == 4
    ensures us[0].caption == "Days" && us[1].caption == "Hours" && us[2].caption == "Minutes" && us[3].caption == "Seconds"
    ensures us[0].value == t.days && us[1].value == t.hours && us[2].value == t.minutes && us[3].value == t.seconds
    ensures us[0].maxValue == maxDays && us[1].maxValue == 24 && us[2].maxValue == 60 && us[3].maxValue == 60
    ensures forall i, j :: 0 <= i < j < |us| ==> us[i].caption != us[j].caption
    ensures InRange(t) ==> forall i :: 1 <= i < |us| ==> us[i].value < us[i].maxValue
  {
    [Unit("Days", t.days, maxDays), Unit("Hours", t.hours, 24), Unit("Minutes", t.minutes, 60), Unit("Seconds", t.seconds, 60)]
  }
}
