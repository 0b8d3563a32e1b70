/** Wall-clock arithmetic in whole minutes. An instant is the number of
    minutes since local midnight of 1970-01-01 in the salon's fixed offset
    (no daylight-saving changes), so day `d` starts at `d * 1440`. */
module Clock {
  import opened Base

  const MinutesPerHour := 60
  const MinutesPerDay := 1440

  /** Local midnight of day `day` (date-fns `startOfDay`). */
  function DayStart(day: int): int
  {
    day * MinutesPerDay
  }

  /** `Date.getDay()`: 0 is Sunday; day 0 (1970-01-01) was a Thursday. */
  function Weekday(day: int): (w: int)
    ensures 0 <= w < 7
    ensures day == 0 ==> w == 4
  {
    (day + 4) % 7
  }

  const MillisPerMinute := 60000

  /** A millisecond clock reading rounded up to the whole minute. */
  function MinuteCeil(ms: int): (k: int)
    ensures MillisPerMinute * k - MillisPerMinute < ms <= MillisPerMinute * k
  {
    (ms + MillisPerMinute - 1) / MillisPerMinute
  }

  /** `isBefore(slot, addMinutes(new Date(), notice))` on a whole-minute
      slot compares the same way against the clock rounded up to the
      minute: the walk may take `now` in whole minutes. */
  lemma NoticeOnRoundedClock(nowMs: int, x: int, notice: int)
    ensures x * MillisPerMinute >= nowMs + notice * MillisPerMinute <==> x >= MinuteCeil(nowMs) + notice
  {
    var k := MinuteCeil(nowMs);
    var d := x - notice;
    assert x * MillisPerMinute - notice * MillisPerMinute == d * MillisPerMinute;
    if d >= k {
      assert d * MillisPerMinute >= k * MillisPerMinute;
    } else {
      assert d * MillisPerMinute <= (k - 1) * MillisPerMinute;
    }
  }

  /** `startOfDay(date).setHours(h, m, 0, 0)`: without daylight saving the
      setter is plain arithmetic, and hours past 23 roll into the next day. */
  function AtClock(day: int, hour: int, minute: int): int
  {
    DayStart(day) + hour * MinutesPerHour + minute
  }

  datatype ClockTime = ClockTime(hour: int, minute: int)

  predicate IsDigit(c: char)
  {
    '0' <= c <= '9'
  }

  function DigitValue(c: char): (v: int)
    requires IsDigit(c)
    ensures 0 <= v <= 9
  {
    c as int - '0' as int
  }

  function DigitChar(n: int): (c: char)
    requires 0 <= n <= 9
    ensures IsDigit(c) && DigitValue(c) == n
  {
    ('0' as int + n) as char
  }

  /** The pattern `^\d{2}:\d{2}$`. */
  predicate MatchesHHmm(s: string)
  {
    |s| == 5 && IsDigit(s[0]) && IsDigit(s[1]) && s[2] == ':' && IsDigit(s[3]) && IsDigit(s[4])
  }

  /** `s.split(':').map(Number)` for a string of the pattern above. */
  function ParseHHmm(s: string): (r: Option<ClockTime>)
    ensures r.Some? <==> MatchesHHmm(s)
    ensures r.Some? ==> 0 <= r.value.hour <= 99 && 0 <= r.value.minute <= 99
    ensures r.Some? ==> Pad2(r.value.hour) + ":" + Pad2(r.value.minute) == s
  {
    if MatchesHHmm(s) then
      PadDigits(s[0], s[1]);
      PadDigits(s[3], s[4]);
      assert s == [s[0], s[1]] + ":" + [s[3], s[4]];
      Some(ClockTime(10 * DigitValue(s[0]) + DigitValue(s[1]), 10 * DigitValue(s[3]) + DigitValue(s[4])))
    else None
  }

  /** `n.toString().padStart(2, '0')` for `0 <= n < 100`. */
  function Pad2(n: int): (s: string)
    requires 0 <= n < 100
    ensures |s| == 2 && IsDigit(s[0]) && IsDigit(s[1])
    ensures 10 * DigitValue(s[0]) + DigitValue(s[1]) == n
  {
    [DigitChar(n / 10), DigitChar(n % 10)]
  }

  /** Two digits are the padding of the number they spell. */
  lemma PadDigits(c0: char, c1: char)
    requires IsDigit(c0) && IsDigit(c1)
    ensures Pad2(10 * DigitValue(c0) + DigitValue(c1)) == [c0, c1]
  {
    var n := 10 * DigitValue(c0) + DigitValue(c1);
    assert n / 10 == DigitValue(c0) && n % 10 == DigitValue(c1);
  }

  /** The zero-padded local `HH:mm` label of an instant
      (`getHours()` and `getMinutes()` of the instant). */
  function FormatHHmm(t: int): (s: string)
    ensures MatchesHHmm(s)
  {
    var m := t % MinutesPerDay;
    Pad2(m / MinutesPerHour) + ":" + Pad2(m % MinutesPerHour)
  }

  /** A label read back gives the local hour and minute of the instant. */
  lemma FormatThenParse(t: int)
    ensures ParseHHmm(FormatHHmm(t)) == Some(ClockTime((t % MinutesPerDay) / MinutesPerHour, (t % MinutesPerDay) % MinutesPerHour))
  {
    var s := FormatHHmm(t);
    var m := t % MinutesPerDay;
    assert s[0..2] == Pad2(m / MinutesPerHour);
    assert s[3..5] == Pad2(m % MinutesPerHour);
  }

  /** Booking the label of an instant of day `day` on that same day gives
      the instant back. */
  lemma FormatThenAtClock(day: int, t: int)
    requires DayStart(day) <= t < DayStart(day + 1)
    ensures var c := ParseHHmm(FormatHHmm(t)).value;
            0 <= c.hour < 24 && 0 <= c.minute < 60 && AtClock(day, c.hour, c.minute) == t
  {
    FormatThenParse(t);
    var k := t - DayStart(day);
    MinuteOfDay(day, k);
    var c := ParseHHmm(FormatHHmm(t)).value;
    assert c.hour == k / MinutesPerHour && c.minute == k % MinutesPerHour;
    assert k == c.hour * MinutesPerHour + c.minute;
  }

  /** The minute of the day of `k` minutes past midnight of `day`. */
  lemma MinuteOfDay(day: int, k: int)
    requires 0 <= k < MinutesPerDay
    ensures (DayStart(day) + k) % MinutesPerDay == k
  {
    var t := DayStart(day) + k;
    var q := t / MinutesPerDay;
    var r := t % MinutesPerDay;
    assert t == q * MinutesPerDay + r;
    assert (q - day) * MinutesPerDay == k - r;
    WholeDays(q - day);
  }

  /** A non-zero number of whole days is at least one day long. */
  lemma WholeDays(m: int)
    ensures m >= 1 ==> m * MinutesPerDay >= MinutesPerDay
    ensures m <= -1 ==> m * MinutesPerDay <= -MinutesPerDay
  {
  }

  /** A well-formed label within a day's range reads back unchanged. */
  lemma {:induction false} ParseThenFormat(day: int, s: string)
    requires MatchesHHmm(s)
    requires ParseHHmm(s).value.hour < 24 && ParseHHmm(s).value.minute < 60
    ensures FormatHHmm(AtClock(day, ParseHHmm(s).value.hour, ParseHHmm(s).value.minute)) == s
  {
    var c := ParseHHmm(s).value;
    var k := c.hour * MinutesPerHour + c.minute;
    var t := AtClock(day, c.hour, c.minute);
    assert 0 <= k < MinutesPerDay;
    MinuteOfDay(day, k);
    assert k / MinutesPerHour == c.hour;
    assert k % MinutesPerHour == c.minute;
    var h := Pad2(c.hour);
    var mm := Pad2(c.minute);
    assert h[0] == s[0] && h[1] == s[1];
    assert mm[0] == s[3] && mm[1] == s[4];
  }

  /** The label of a wall-clock time of any day is its padded hour and minute. */
  lemma LabelOf(day: int, hour: int, minute: int)
    requires 0 <= hour < 24 && 0 <= minute < 60
    ensures FormatHHmm(AtClock(day, hour, minute)) == Pad2(hour) + ":" + Pad2(minute)
  {
    var k := hour * MinutesPerHour + minute;
    MinuteOfDay(day, k);
  }
}
