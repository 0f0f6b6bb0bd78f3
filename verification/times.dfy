/** The meeting time of day (model.py, class `Time`), the wall-clock reading it
    is compared with (Python's `datetime.time`), and the wake timestamp text. */
module Times {
  import opened Common
  import opened Text

  datatype HourMinute = HourMinute(hour: int, minute: int)

  /** A `Time` object: its constructor rejects anything outside 0..23 and 0..59,
      so every existing `Time` lies in range. */
  type Time = t: HourMinute | 0 <= t.hour <= 23 && 0 <= t.minute <= 59 witness HourMinute(0, 0)

  /** `Time(hour, minute)`: succeeds exactly on in-range arguments, keeps them
      as given, and otherwise raises ValueError instead of clamping. */
  function MakeTime(hour: int, minute: int): (r: Result<Time>)
    ensures r.Ok? <==> 0 <= hour <= 23 && 0 <= minute <= 59
    ensures r.Ok? ==> r.value.hour == hour && r.value.minute == minute
    ensures r.Err? ==> r.error == ValueError
  {
    if 0 <= hour <= 23 && 0 <= minute <= 59 then Ok(HourMinute(hour, minute)) else Err(ValueError)
  }

  /** Minutes since midnight: a numbering of the 1440 times of a day. */
  function MinuteOfDay(t: Time): (n: nat)
    ensures n < 1440
  {
    t.hour * 60 + t.minute
  }

  /** The time `n` minutes after midnight. */
  function TimeOfMinute(n: nat): (t: Time)
    requires n < 1440
    ensures MinuteOfDay(t) == n
  {
    HourMinute(n / 60, n % 60)
  }

  lemma MinuteOfDayInjective(a: Time, b: Time)
    requires MinuteOfDay(a) == MinuteOfDay(b)
    ensures a == b
  {
    assert a.hour == MinuteOfDay(a) / 60 && a.minute == MinuteOfDay(a) % 60;
    assert b.hour == MinuteOfDay(b) / 60 && b.minute == MinuteOfDay(b) % 60;
  }

  /** `t.subtracting_minute()`: the time one minute earlier, wrapping from 0:00
      to 23:59. */
  function SubtractingMinute(t: Time): (r: Time)
    ensures MinuteOfDay(r) == if MinuteOfDay(t) == 0 then 1439 else MinuteOfDay(t) - 1
  {
    if t.minute == 0 then
      if t.hour == 0 then HourMinute(23, 59) else HourMinute(t.hour - 1, 59)
    else HourMinute(t.hour, t.minute - 1)
  }

  /** One minute later, wrapping from 23:59 to 0:00 (the program has no such
      method; it is the inverse that subtracting is proved against). */
  function AddingMinute(t: Time): Time {
    var n := MinuteOfDay(t);
    TimeOfMinute(if n == 1439 then 0 else n + 1)
  }

  /** Subtracting a minute is undone by adding one, and the other way round,
      wrap-around at midnight included. */
  lemma SubtractingMinuteInverse(t: Time)
    ensures AddingMinute(SubtractingMinute(t)) == t
    ensures SubtractingMinute(AddingMinute(t)) == t
  {
    MinuteOfDayInjective(AddingMinute(SubtractingMinute(t)), t);
    MinuteOfDayInjective(SubtractingMinute(AddingMinute(t)), t);
  }

  /** What `as_12_hour` returns: clock hour, minute and the afternoon flag. */
  datatype TwelveHour = TwelveHour(hour: int, minute: int, isPm: bool)

  /** `t.as_12_hour()`: the hour on a 12-hour dial (0 becomes 12 AM, 12 stays
      12 PM), the unchanged minute, and PM exactly from noon on. Python's `%`
      floors, and for the positive modulus 12 it agrees with Dafny's. */
  function As12Hour(t: Time): (r: TwelveHour)
    ensures 1 <= r.hour <= 12 && r.minute == t.minute
    ensures r.isPm <==> t.hour >= 12
    ensures r.hour % 12 == t.hour % 12
  {
    TwelveHour((t.hour - 1) % 12 + 1, t.minute, t.hour > 11)
  }

  /** Reading a 12-hour time back as a 24-hour one. */
  function From12Hour(r: TwelveHour): int {
    r.hour % 12 + (if r.isPm then 12 else 0)
  }

  /** The 12-hour form loses nothing: the 24-hour time is recovered from it. */
  lemma As12HourRoundTrip(t: Time)
    ensures From12Hour(As12Hour(t)) == t.hour
  {
  }

  /** `t.sorting_key()`: `hour + minute / 60`, a real number in [0, 24). The
      float the program computes is exact enough here: distinct keys differ by
      at least 1/60, far above the rounding error near 24. */
  function SortingKey(t: Time): real {
    t.hour as real + t.minute as real / 60.0
  }

  /** Strictly earlier in the day: (hour, minute) compared lexicographically. */
  predicate Earlier(a: HourMinute, b: HourMinute) {
    a.hour < b.hour || (a.hour == b.hour && a.minute < b.minute)
  }

  lemma SortingKeyIsMinutes(t: Time)
    ensures SortingKey(t) == MinuteOfDay(t) as real / 60.0
  {
  }

  /** Ordering by the sorting key is the lexicographic order on (hour, minute),
      and equal keys mean equal times. */
  lemma SortingKeyOrder(a: Time, b: Time)
    ensures SortingKey(a) < SortingKey(b) <==> Earlier(a, b)
    ensures SortingKey(a) == SortingKey(b) <==> a == b
  {
    SortingKeyIsMinutes(a);
    SortingKeyIsMinutes(b);
    if MinuteOfDay(a) == MinuteOfDay(b) {
      MinuteOfDayInjective(a, b);
    }
  }

  // ---------------------------------------------------------------- clock readings

  /** A `datetime.time`: hour, minute, second and microsecond. */
  datatype Clock = Clock(hour: int, minute: int, second: int, micro: int)

  predicate ValidClock(c: Clock) {
    0 <= c.hour <= 23 && 0 <= c.minute <= 59 && 0 <= c.second <= 59 && 0 <= c.micro <= 999999
  }

  /** `datetime.time()`, the start of a day. */
  const Midnight: Clock := Clock(0, 0, 0, 0)

  /** `t.as_dt_time()`: the reading at the very start of minute `t`. */
  function AsClock(t: Time): Clock {
    Clock(t.hour, t.minute, 0, 0)
  }

  /** `datetime.time` ordering: lexicographic on all four fields. */
  predicate ClockLess(a: Clock, b: Clock) {
    || a.hour < b.hour
    || (a.hour == b.hour && a.minute < b.minute)
    || (a.hour == b.hour && a.minute == b.minute && a.second < b.second)
    || (a.hour == b.hour && a.minute == b.minute && a.second == b.second && a.micro < b.micro)
  }

  /** `t.as_dt_time() > now`: the meeting time is still ahead of the reading. */
  predicate After(t: Time, now: Clock) {
    ClockLess(now, AsClock(t))
  }

  /** The reading's hour and minute, seconds dropped. */
  function Truncate(now: Clock): HourMinute {
    HourMinute(now.hour, now.minute)
  }

  /** Seconds in the reading never tip the comparison: a meeting is after
      `now` exactly when its minute is strictly later than now's minute, so a
      meeting that started at the beginning of the current minute is not
      ahead, however few seconds have passed. */
  lemma AfterIsLaterMinute(t: Time, now: Clock)
    requires ValidClock(now)
    ensures After(t, now) <==> Earlier(Truncate(now), t)
  {
  }

  /** Against the start of the day every time is after, except 0:00 itself. */
  lemma AfterMidnight(t: Time)
    ensures After(t, Midnight) <==> t != HourMinute(0, 0)
  {
  }

  // ---------------------------------------------------------------- text form

  /** `repr(t)`: the hour without padding, ':' and the minute as two digits. */
  function Repr(t: Time): (r: String)
    ensures 4 <= |r| <= 5 && r[|r| - 3] == ':'
    ensures AllDigits(r[..|r| - 3]) && DigitsValue(r[..|r| - 3]) == t.hour
    ensures AllDigits(r[|r| - 2..]) && DigitsValue(r[|r| - 2..]) == t.minute
    ensures r[0] == '0' ==> |r| == 4 && t.hour == 0
  {
    var h := Decimal(t.hour);
    var d := Decimal(t.minute);
    var m := if t.minute < 10 then "0" + d else d;
    assert |m| == 2 && AllDigits(m) && DigitsValue(m) == t.minute by {
      if t.minute < 10 { LeadingZero(d); }
    }
    var r := h + [':'] + m;
    assert |r| == |h| + 3;
    assert r[..|h|] == h;
    assert r[|h| + 1..] == m;
    r
  }

  /** `Time.from_string(s)`: `'auto'` stands for "no time"; otherwise the text
      must split at ':' into exactly two integers that make a valid `Time`.
      Every failure is a ValueError. */
  function FromString(s: String): (r: Result<Option<Time>>)
    ensures r == Ok(None) <==> s == "auto"
    ensures s != "auto" && Count(s, ':') != 1 ==> r == Err(ValueError)
    ensures r.Err? ==> r.error == ValueError
    ensures r.Ok? && r.value.Some? ==>
      var parts := Split(s, ':');
      |parts| == 2 && ParseInt(parts[0]) == Some(r.value.value.hour)
      && ParseInt(parts[1]) == Some(r.value.value.minute)
  {
    if s == "auto" then Ok(None)
    else
      var parts := Split(s, ':');
      if |parts| != 2 then Err(ValueError)
      else
        match (ParseInt(parts[0]), ParseInt(parts[1]))
        case (Some(h), Some(m)) =>
          (match MakeTime(h, m)
           case Ok(t) => Ok(Some(t))
           case Err(e) => Err(e))
        case _ => Err(ValueError)
  }

  /** `repr(t)` splits at its one ':' into the hour and minute digits. */
  lemma ReprSplits(t: Time)
    ensures var r := Repr(t);
      Split(r, ':') == [r[..|r| - 3], r[|r| - 2..]]
  {
    var r := Repr(t);
    var h, m := r[..|r| - 3], r[|r| - 2..];
    assert r == h + ":" + m;
    Join2(h, m, ":");
    DigitsExclude(h, ':');
    DigitsExclude(m, ':');
    SplitJoin([h, m], ':');
  }

  /** `from_string` on text that splits into two integers forming a valid time. */
  lemma FromStringOf(s: String, a: int, b: int)
    requires s != "auto" && |Split(s, ':')| == 2
    requires ParseInt(Split(s, ':')[0]) == Some(a) && ParseInt(Split(s, ':')[1]) == Some(b)
    requires 0 <= a <= 23 && 0 <= b <= 59
    ensures FromString(s) == Ok(Some(HourMinute(a, b)))
  {
  }

  /** `Time.from_string(repr(t))` gives `t` back. */
  lemma FromStringRepr(t: Time)
    ensures FromString(Repr(t)) == Ok(Some(t))
  {
    var r := Repr(t);
    var h, m := r[..|r| - 3], r[|r| - 2..];
    ReprSplits(t);
    ParseDigits(h);
    ParseDigits(m);
    assert r != "auto" by { assert IsDigit(r[0]); }
    FromStringOf(r, t.hour, t.minute);
  }

  // ---------------------------------------------------------------- wake timestamp

  /** A calendar date as the program prints it. */
  datatype Date = Date(month: int, day: int, year: int)

  predicate ValidDate(d: Date) {
    1 <= d.month <= 12 && 1 <= d.day <= 31 && 1 <= d.year <= 9999
  }

  /** The wake timestamp `M/D/YYYY H:MM:00` (model.py lines 109-110 and 172). */
  function WakeText(d: Date, t: Time): String
    requires ValidDate(d)
  {
    Decimal(d.month) + "/" + Decimal(d.day) + "/" + Decimal(d.year) + " " + Repr(t) + ":00"
  }

  /** Reads a wake timestamp back into its date and time. */
  function ParseWakeText(s: String): Option<(Date, Time)> {
    var halves := Split(s, ' ');
    if |halves| != 2 then None
    else
      var ds := Split(halves[0], '/');
      var cs := Split(halves[1], ':');
      if |ds| != 3 || |cs| != 3 || cs[2] != "00" then None
      else
        match (ParseInt(ds[0]), ParseInt(ds[1]), ParseInt(ds[2]), ParseInt(cs[0]), ParseInt(cs[1]))
        case (Some(mo), Some(dy), Some(yr), Some(h), Some(mi)) =>
          (match MakeTime(h, mi)
           case Ok(t) => Some((Date(mo, dy, yr), t))
           case Err(_) => None)
        case _ => None
  }

  /** The date half of a wake timestamp splits back into its three numbers. */
  lemma DateTextSplits(d: Date)
    requires ValidDate(d)
    ensures var ds := Split(Decimal(d.month) + "/" + Decimal(d.day) + "/" + Decimal(d.year), '/');
      |ds| == 3 && ParseInt(ds[0]) == Some(d.month) && ParseInt(ds[1]) == Some(d.day)
      && ParseInt(ds[2]) == Some(d.year)
  {
    var mo, dy, yr := Decimal(d.month), Decimal(d.day), Decimal(d.year);
    Join3(mo, dy, yr, "/");
    DigitsExclude(mo, '/');
    DigitsExclude(dy, '/');
    DigitsExclude(yr, '/');
    SplitJoin([mo, dy, yr], '/');
    ParseDecimal(d.month);
    ParseDecimal(d.day);
    ParseDecimal(d.year);
  }

  /** The time half of a wake timestamp splits back into hour, minute and "00". */
  lemma TimeTextSplits(t: Time)
    ensures var cs := Split(Repr(t) + ":00", ':');
      |cs| == 3 && cs[2] == "00" && ParseInt(cs[0]) == Some(t.hour) && ParseInt(cs[1]) == Some(t.minute)
  {
    var r := Repr(t);
    var h, m := r[..|r| - 3], r[|r| - 2..];
    assert r + ":00" == h + [':'] + m + [':'] + "00";
    Join3(h, m, "00", ":");
    DigitsExclude(h, ':');
    DigitsExclude(m, ':');
    SplitJoin([h, m, "00"], ':');
    ParseDigits(h);
    ParseDigits(m);
  }

  /** `ParseWakeText` on text whose halves and pieces hold the expected numbers. */
  lemma ParseWakeTextOf(s: String, d: Date, t: Time)
    requires var halves := Split(s, ' ');
      |halves| == 2
      && var ds := Split(halves[0], '/');
      && var cs := Split(halves[1], ':');
      && |ds| == 3 && ParseInt(ds[0]) == Some(d.month) && ParseInt(ds[1]) == Some(d.day)
      && ParseInt(ds[2]) == Some(d.year)
      && |cs| == 3 && cs[2] == "00" && ParseInt(cs[0]) == Some(t.hour) && ParseInt(cs[1]) == Some(t.minute)
    ensures ParseWakeText(s) == Some((d, t))
  {
  }

  lemma DatePartNoSpace(d: Date)
    requires ValidDate(d)
    ensures ' ' !in Decimal(d.month) + "/" + Decimal(d.day) + "/" + Decimal(d.year)
  {
    DigitsExclude(Decimal(d.month), ' ');
    DigitsExclude(Decimal(d.day), ' ');
    DigitsExclude(Decimal(d.year), ' ');
  }

  lemma TimePartNoSpace(t: Time)
    ensures ' ' !in Repr(t) + ":00"
  {
    var r := Repr(t);
    assert r == r[..|r| - 3] + [':'] + r[|r| - 2..];
    DigitsExclude(r[..|r| - 3], ' ');
    DigitsExclude(r[|r| - 2..], ' ');
  }

  /** The wake timestamp is unambiguous: its date and time are read back
      exactly. */
  lemma WakeTextRoundTrip(d: Date, t: Time)
    requires ValidDate(d)
    ensures ParseWakeText(WakeText(d, t)) == Some((d, t))
  {
    var datePart := Decimal(d.month) + "/" + Decimal(d.day) + "/" + Decimal(d.year);
    var timePart := Repr(t) + ":00";
    assert WakeText(d, t) == datePart + [' '] + timePart;
    Join2(datePart, timePart, " ");
    DatePartNoSpace(d);
    TimePartNoSpace(t);
    SplitJoin([datePart, timePart], ' ');
    DateTextSplits(d);
    TimeTextSplits(t);
    ParseWakeTextOf(WakeText(d, t), d, t);
  }
}
