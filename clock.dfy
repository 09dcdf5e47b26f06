/**
 * Instants and wall-clock times.
 *
 * Every instant is a whole number of minutes in one reference frame (the
 * venue's local zone); day `day` begins at minute `day * MinutesPerDay`.
 * A time of day is rendered as the zero-padded "HH:MM" text that
 * `strftime("%H:%M")` produces.
 */
module Clock {
  import opened Wrappers

  const MinutesPerHour := 60
  const HoursPerDay := 24
  const MinutesPerDay := 1440

  /** The first minute of `day`. */
  function Midnight(day: int): int
  {
    day * MinutesPerDay
  }

  /** A wall-clock time without date, as `datetime.time` carries it. */
  datatype TimeOfDay = TimeOfDay(hour: nat, minute: nat)

  /** The minutes elapsed since midnight at `tod`. */
  function MinuteOfDay(tod: TimeOfDay): nat
  {
    tod.hour * MinutesPerHour + tod.minute
  }

  /** The local time of day at instant `t`. */
  function LocalTime(t: int): (tod: TimeOfDay)
    ensures tod.hour < HoursPerDay && tod.minute < MinutesPerHour
    ensures MinuteOfDay(tod) == t % MinutesPerDay
  {
    var m := t % MinutesPerDay;
    TimeOfDay(m / MinutesPerHour, m % MinutesPerHour)
  }

  /** An instant `m` minutes after the midnight of `day` shows `m` on the clock. */
  lemma LocalTimeOfDay(day: int, m: int)
    requires 0 <= m < MinutesPerDay
    ensures MinuteOfDay(LocalTime(Midnight(day) + m)) == m
  {
    assert (Midnight(day) + m) % MinutesPerDay == m;
  }

  predicate IsDigit(c: char)
  {
    '0' <= c <= '9'
  }

  function Digit(n: nat): (c: char)
    requires n < 10
    ensures IsDigit(c)
  {
    ('0' as int + n) as char
  }

  function DigitValue(c: char): (n: nat)
    requires IsDigit(c)
    ensures n < 10 && Digit(n) == c
  {
    c as int - '0' as int
  }

  /** Two decimal digits, with a leading zero below ten. */
  function Pad2(n: nat): (s: string)
    requires n < 100
    ensures |s| == 2 && IsDigit(s[0]) && IsDigit(s[1])
    ensures 10 * DigitValue(s[0]) + DigitValue(s[1]) == n
  {
    [Digit(n / 10), Digit(n % 10)]
  }

  /** The "HH:MM" rendering of a time of day. */
  function Format(tod: TimeOfDay): (s: string)
    requires tod.hour < 100 && tod.minute < 100
    ensures |s| == 5 && s[2] == ':'
  {
    Pad2(tod.hour) + ":" + Pad2(tod.minute)
  }

  /** Reads an "HH:MM" text back; anything else is None. */
  function Parse(s: string): (r: Option<TimeOfDay>)
    ensures r.Some? ==> r.value.hour < 100 && r.value.minute < 100
  {
    if |s| == 5 && IsDigit(s[0]) && IsDigit(s[1]) && s[2] == ':' && IsDigit(s[3]) && IsDigit(s[4])
    then Some(TimeOfDay(10 * DigitValue(s[0]) + DigitValue(s[1]), 10 * DigitValue(s[3]) + DigitValue(s[4])))
    else None
  }

  /** Parsing a rendered time gives the time back. */
  lemma ParseFormat(tod: TimeOfDay)
    requires tod.hour < 100 && tod.minute < 100
    ensures Parse(Format(tod)) == Some(tod)
  {
    var s := Format(tod);
    assert s[..2] == Pad2(tod.hour) && s[3..] == Pad2(tod.minute);
  }

  /** Every text that parses is the rendering of what it parses to. */
  lemma FormatParse(s: string)
    requires Parse(s).Some?
    ensures Format(Parse(s).value) == s
  {
    var tod := Parse(s).value;
    assert Pad2(tod.hour) == s[..2];
    assert Pad2(tod.minute) == s[3..];
  }
}
