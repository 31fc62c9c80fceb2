/** The `TimeSpan` arithmetic and the `hh\:mm\:ss` rendering used for the
    time fields of a timesheet entry. */
module TimeSpans {
  import opened Common
  import opened Int32Text

  const TicksPerSecond: int := 10_000_000
  const SecondsPerDay: int := 86_400
  const TicksPerDay: int := TicksPerSecond * SecondsPerDay
  const MinTicks: int := -0x8000_0000_0000_0000
  const MaxTicks: int := 0x7FFF_FFFF_FFFF_FFFF
  const TwoTo64: int := 0x1_0000_0000_0000_0000

  /** A `TimeSpan`, as its signed 64-bit count of 100-nanosecond ticks. */
  type TimeSpan = t: int | MinTicks <= t <= MaxTicks

  /** Two's complement wrap-around of an integer into 64 bits. */
  function Wrap64(x: int): (r: TimeSpan)
    ensures MinTicks <= x <= MaxTicks ==> r == x
    ensures MaxTicks < x < MaxTicks + TwoTo64 ==> r == x - TwoTo64
    ensures MinTicks - TwoTo64 <= x < MinTicks ==> r == x + TwoTo64
  {
    var m := x % TwoTo64;
    if m > MaxTicks then m - TwoTo64 else m
  }

  /** `a + b` on `TimeSpan`: adds the tick counts with 64-bit wrap-around and
      throws `OverflowException` (here `None`) when both operands have the
      same sign and the wrapped sum has the other one. */
  function Add(a: TimeSpan, b: TimeSpan): (r: Option<TimeSpan>)
    ensures r.Some? <==> MinTicks <= a + b <= MaxTicks
    ensures r.Some? ==> r.value == a + b
  {
    var sum := Wrap64(a + b);
    if (a < 0) == (b < 0) && (a < 0) != (sum < 0) then None else Some(sum)
  }

  function Abs(t: int): nat {
    if t < 0 then -t else t
  }

  /** Whole seconds of the span's magnitude, as the custom format sees it:
      custom `TimeSpan` formats print no sign. */
  function WholeSeconds(t: int): nat {
    Abs(t) / TicksPerSecond
  }

  /** The seconds since midnight that the within-day part of `t` denotes. */
  function SecondOfDay(t: int): nat {
    WholeSeconds(t) % SecondsPerDay
  }

  /** The `hh`, `mm` and `ss` components: hours within the day, minutes
      within the hour, seconds within the minute. */
  function Hours(t: int): nat {
    (WholeSeconds(t) / 3600) % 24
  }

  function Minutes(t: int): nat {
    (WholeSeconds(t) / 60) % 60
  }

  function Seconds(t: int): nat {
    WholeSeconds(t) % 60
  }

  function TwoDigits(n: nat): string
    requires n < 100
  {
    [DigitChar(n / 10), DigitChar(n % 10)]
  }

  /** Text of the shape `hh:mm:ss`, with minutes and seconds below 60. */
  predicate IsHms(r: string) {
    && |r| == 8
    && r[2] == ':' && r[5] == ':'
    && IsDigit(r[0]) && IsDigit(r[1]) && IsDigit(r[3])
    && IsDigit(r[4]) && IsDigit(r[6]) && IsDigit(r[7])
    && r[3] <= '5' && r[6] <= '5'
  }

  /** Reads `hh:mm:ss` back as a number of seconds. */
  function HmsSeconds(r: string): nat
    requires IsHms(r)
  {
    3600 * (10 * DigitValue(r[0]) + DigitValue(r[1]))
    + 60 * (10 * DigitValue(r[3]) + DigitValue(r[4]))
    + (10 * DigitValue(r[6]) + DigitValue(r[7]))
  }

  /** `t.ToString(@"hh\:mm\:ss")`: zero-padded hours, minutes and seconds of
      the span's magnitude. Whole days, the sign and the fraction of a second
      are not printed, so the text denotes exactly the second of the day. */
  function FormatHms(t: TimeSpan): (r: string)
    ensures IsHms(r)
    ensures HmsSeconds(r) == SecondOfDay(t)
    ensures HmsSeconds(r) < SecondsPerDay
  {
    var r := TwoDigits(Hours(t)) + ":" + TwoDigits(Minutes(t)) + ":" + TwoDigits(Seconds(t));
    ComponentsMakeSecondOfDay(WholeSeconds(t));
    r
  }

  /** An `hh:mm:ss` text is fixed by the number of seconds it denotes. */
  lemma HmsUnique(a: string, b: string)
    requires IsHms(a) && IsHms(b) && HmsSeconds(a) == HmsSeconds(b)
    ensures a == b
  {
    ThreeParts(10 * DigitValue(a[0]) + DigitValue(a[1]), 10 * DigitValue(a[3]) + DigitValue(a[4]),
               10 * DigitValue(a[6]) + DigitValue(a[7]),
               10 * DigitValue(b[0]) + DigitValue(b[1]), 10 * DigitValue(b[3]) + DigitValue(b[4]),
               10 * DigitValue(b[6]) + DigitValue(b[7]));
    SameDigits(a[0], a[1], b[0], b[1]);
    SameDigits(a[3], a[4], b[3], b[4]);
    SameDigits(a[6], a[7], b[6], b[7]);
    assert forall k :: 0 <= k < 8 ==> a[k] == b[k];
  }

  /** Two `hh:mm:ss` renderings agree exactly when the spans fall on the
      same second of the day. */
  lemma FormatHmsSameSecond(t: TimeSpan, u: TimeSpan)
    ensures FormatHms(t) == FormatHms(u) <==> SecondOfDay(t) == SecondOfDay(u)
  {
    if SecondOfDay(t) == SecondOfDay(u) {
      HmsUnique(FormatHms(t), FormatHms(u));
    }
  }

  lemma ThreeParts(h: nat, m: nat, s: nat, h': nat, m': nat, s': nat)
    requires m < 60 && s < 60 && m' < 60 && s' < 60
    requires 3600 * h + 60 * m + s == 3600 * h' + 60 * m' + s'
    ensures h == h' && m == m' && s == s'
  {
    DivMod60(3600 * h + 60 * m + s, 60 * h + m, s);
    DivMod60(3600 * h' + 60 * m' + s', 60 * h' + m', s');
    DivMod60(60 * h + m, h, m);
    DivMod60(60 * h' + m', h', m');
  }

  lemma SameDigits(a1: char, a0: char, b1: char, b0: char)
    requires IsDigit(a1) && IsDigit(a0) && IsDigit(b1) && IsDigit(b0)
    requires 10 * DigitValue(a1) + DigitValue(a0) == 10 * DigitValue(b1) + DigitValue(b0)
    ensures a1 == b1 && a0 == b0
  {
  }

  lemma ComponentsMakeSecondOfDay(sec: nat)
    ensures 3600 * ((sec / 3600) % 24) + 60 * ((sec / 60) % 60) + sec % 60 == sec % SecondsPerDay
  {
    var q, d := sec / 86400, sec % 86400;
    var h, r := d / 3600, d % 3600;
    var m, s := r / 60, r % 60;
    HourOf(sec, q, h, r);
    MinuteOf(sec, q, h, m, s);
  }

  /** `sec` is `q` days, `h` hours and `r` seconds. */
  lemma HourOf(sec: nat, q: nat, h: nat, r: nat)
    requires sec == 86400 * q + 3600 * h + r && h < 24 && r < 3600
    ensures (sec / 3600) % 24 == h
  {
    DivMod3600(sec, 24 * q + h, r);
    DivMod24(24 * q + h, q, h);
  }

  /** `sec` is `q` days, `h` hours, `m` minutes and `s` seconds. */
  lemma MinuteOf(sec: nat, q: nat, h: nat, m: nat, s: nat)
    requires sec == 86400 * q + 3600 * h + 60 * m + s && m < 60 && s < 60
    ensures (sec / 60) % 60 == m && sec % 60 == s
  {
    DivMod60(sec, 1440 * q + 60 * h + m, s);
    DivMod60(1440 * q + 60 * h + m, 24 * q + h, m);
  }

  lemma DivMod60(x: int, a: int, b: int)
    requires x == 60 * a + b && 0 <= b < 60
    ensures x / 60 == a && x % 60 == b
  {
  }

  lemma DivMod24(x: int, a: int, b: int)
    requires x == 24 * a + b && 0 <= b < 24
    ensures x % 24 == b
  {
  }

  lemma DivMod3600(x: int, a: int, b: int)
    requires x == 3600 * a + b && 0 <= b < 3600
    ensures x / 3600 == a
  {
  }

  lemma SecondsShift(x: nat, k: nat)
    ensures WholeSeconds(x + TicksPerSecond * k) == WholeSeconds(x) + k
  {
  }

  /** Whole days are dropped: any number of extra days leaves the text of a
      non-negative span unchanged. */
  lemma FormatSkipsDays(t: TimeSpan, days: nat)
    requires 0 <= t && t + days * TicksPerDay <= MaxTicks
    ensures FormatHms(t + days * TicksPerDay) == FormatHms(t)
  {
    DaysKeepSecond(t, days);
    FormatHmsSameSecond(t, t + days * TicksPerDay);
  }

  lemma DaysKeepSecond(t: nat, days: nat)
    ensures SecondOfDay(t + days * TicksPerDay) == SecondOfDay(t)
  {
    assert days * TicksPerDay == TicksPerSecond * (SecondsPerDay * days);
    SecondsShift(t, SecondsPerDay * days);
    DivMod86400(WholeSeconds(t) + SecondsPerDay * days, WholeSeconds(t), days);
  }

  lemma DivMod86400(x: int, a: int, d: int)
    requires x == a + 86400 * d
    ensures x % 86400 == a % 86400
  {
  }

  /** For whole-second, non-negative spans, the second of the day that
      the sum of a start and a duration reaches is their seconds of the day
      added modulo one day. */
  lemma EndIsSumModuloDay(start: TimeSpan, duration: TimeSpan)
    requires 0 <= start && 0 <= duration && start + duration <= MaxTicks
    requires start % TicksPerSecond == 0 && duration % TicksPerSecond == 0
    ensures SecondOfDay(start + duration) == (SecondOfDay(start) + SecondOfDay(duration)) % SecondsPerDay
  {
    var a := WholeSeconds(start);
    var b := WholeSeconds(duration);
    assert duration == TicksPerSecond * b;
    SecondsShift(start, b);
    assert WholeSeconds(start + duration) == a + b;
    ModAddDay(a, b);
  }

  lemma ModAddDay(a: nat, b: nat)
    ensures (a % SecondsPerDay + b % SecondsPerDay) % SecondsPerDay == (a + b) % SecondsPerDay
  {
  }
}
