/** The meeting record (model.py, class `Meeting`): its fields, its constructor,
    equality by meeting ID, the dictionary form it is stored in, and the
    weekday listing shown in the configuration menus. */
module Meetings {
  import opened Common
  import opened Text
  import opened Times

  /** A wake-up point: the calendar date `daysAhead` days after today, at time
      `at`. The program renders it as `M/D/YYYY H:MM:00` (`Times.WakeText`);
      the calendar arithmetic from today to that date is not modelled. */
  datatype Wake = Wake(daysAhead: nat, at: Time)

  /** A `Meeting` object. `wake` and `isRightNow` are the two fields the
      resolver writes; `isOnSched` is the `is_on_sched` flag. */
  datatype Meeting = Meeting(
    time: Option<Time>,
    zoom: Option<int>,
    name: Option<String>,
    days: Option<seq<int>>,
    wake: Option<Wake>,
    isRightNow: bool,
    isOnSched: bool)

  /** `Meeting(time, zoom, name, days, on_sched)`: no wake yet, and a meeting
      without a time is one to join right now. */
  function NewMeeting(time: Option<Time>, zoom: Option<int>, name: Option<String>,
                      days: Option<seq<int>>, onSched: bool): Meeting
  {
    Meeting(time, zoom, name, days, None, time.None?, onSched)
  }

  /** What the constructor establishes and no later assignment undoes (the
      program only ever sets `is_right_now` to True): a meeting without a time
      is a right-now meeting. */
  predicate Coherent(m: Meeting) {
    m.time.None? ==> m.isRightNow
  }

  /** `a == b` between two meetings: same meeting ID, nothing else compared. */
  predicate SameMeeting(a: Meeting, b: Meeting) {
    a.zoom == b.zoom
  }

  /** `a == other` for an arbitrary right-hand side: something that is not a
      meeting (`None` here) has no `zoom` attribute and is never equal. */
  predicate Equals(a: Meeting, other: Option<Meeting>) {
    other.Some? && SameMeeting(a, other.value)
  }

  /** Meeting equality is an equivalence that looks at the ID alone: two
      records that differ only in the ID are different meetings, and
      changing any other field keeps a meeting equal to itself. */
  lemma EqualityByIdOnly(a: Meeting, b: Meeting, c: Meeting)
    ensures SameMeeting(a, a)
    ensures SameMeeting(a, b) ==> SameMeeting(b, a)
    ensures SameMeeting(a, b) && SameMeeting(b, c) ==> SameMeeting(a, c)
    ensures SameMeeting(a, b) <==> SameMeeting(a, b.(time := a.time, name := a.name, days := a.days))
    ensures !Equals(a, None)
  {
  }

  // ---------------------------------------------------------------- dictionary form

  /** The dictionary `as_dict` produces and `from_dict` reads (the stored JSON
      object): `time` is an [hour, minute] pair or null. */
  datatype Record = Record(
    time: Option<(int, int)>,
    zoom: Option<int>,
    name: Option<String>,
    days: Option<seq<int>>,
    onSched: bool)

  /** `m.as_dict()`. */
  function AsDict(m: Meeting): Record {
    Record(if m.time.None? then None else Some((m.time.value.hour, m.time.value.minute)),
           m.zoom, m.name, m.days, m.isOnSched)
  }

  /** `Meeting.from_dict(d)`: rebuilds the meeting through its constructor, so a
      stored time out of range raises ValueError, the wake is empty and the
      right-now flag is recomputed from the time. Nothing stored is lost. */
  function FromDict(d: Record): (r: Result<Meeting>)
    ensures r.Err? <==> d.time.Some? && MakeTime(d.time.value.0, d.time.value.1).Err?
    ensures r.Err? ==> r.error == ValueError
    ensures r.Ok? ==> Coherent(r.value) && r.value.wake.None? && AsDict(r.value) == d
  {
    if d.time.None? then Ok(NewMeeting(None, d.zoom, d.name, d.days, d.onSched))
    else
      match MakeTime(d.time.value.0, d.time.value.1)
      case Ok(t) => Ok(NewMeeting(Some(t), d.zoom, d.name, d.days, d.onSched))
      case Err(e) => Err(e)
  }

  /** Storing and reloading a meeting keeps everything but the two derived
      fields: the wake is dropped and the right-now flag is recomputed. */
  lemma {:induction false} FromDictAsDict(m: Meeting)
    ensures FromDict(AsDict(m)) == Ok(m.(wake := None, isRightNow := m.time.None?))
  {
    if m.time.Some? {
      var t := m.time.value;
      assert MakeTime(t.hour, t.minute) == Ok(t);
    }
  }

  // ---------------------------------------------------------------- weekday listing

  /** The name table `fmt_weekdays` indexes; Sunday appears at both 0 and 7. */
  const WeekdayNames: seq<String> := ["Sun", "Mon", "Tue", "Wed", "Thu", "Fri", "Sat", "Sun"]

  /** `names[d]` with Python indexing: negative indices count from the end,
      and anything outside -8..7 raises IndexError. */
  function WeekdayName(d: int): (r: Result<String>)
    ensures r.Ok? <==> -8 <= d < 8
    ensures r.Ok? ==> |r.value| == 3
  {
    if -8 <= d < 8 then Ok(WeekdayNames[d % 8]) else Err(IndexError)
  }

  /** Sunday is both 0 and 7; Monday..Sunday as 1..7 get seven different names. */
  lemma WeekdayNumbering()
    ensures WeekdayName(0) == WeekdayName(7) == Ok("Sun")
    ensures WeekdayName(1) == Ok("Mon") && WeekdayName(6) == Ok("Sat")
    ensures forall a, b :: 1 <= a < b <= 7 ==> WeekdayName(a) != WeekdayName(b)
  {
  }

  /** The names of all the days, or the first IndexError. */
  function DayNames(days: seq<int>): (r: Result<seq<String>>)
    ensures r.Ok? <==> forall i :: 0 <= i < |days| ==> -8 <= days[i] < 8
    ensures r.Ok? ==> |r.value| == |days|
    ensures r.Ok? ==> forall i :: 0 <= i < |days| ==> Ok(r.value[i]) == WeekdayName(days[i])
  {
    if |days| == 0 then Ok([])
    else
      match (WeekdayName(days[0]), DayNames(days[1..]))
      case (Ok(n), Ok(rest)) => Ok([n] + rest)
      case (Err(e), _) => Err(e)
      case (_, Err(e)) => Err(e)
  }

  /** `m.fmt_weekdays()` on the list of days: the names joined by ", ". */
  function FmtWeekdays(days: seq<int>): Result<String> {
    match DayNames(days)
    case Ok(names) => Ok(Join(names, ", "))
    case Err(e) => Err(e)
  }

  /** Three-letter names joined by ", " sit in blocks of five characters. */
  lemma {:induction false} JoinBlocks(parts: seq<String>)
    requires |parts| > 0 && forall i :: 0 <= i < |parts| ==> |parts[i]| == 3
    ensures |Join(parts, ", ")| == 5 * |parts| - 2
    ensures forall i :: 0 <= i < |parts| ==> Join(parts, ", ")[5 * i..5 * i + 3] == parts[i]
  {
    if |parts| > 1 {
      var rest := Join(parts[1..], ", ");
      JoinBlocks(parts[1..]);
      var all := parts[0] + ", " + rest;
      assert Join(parts, ", ") == all;
      forall i | 0 <= i < |parts| ensures all[5 * i..5 * i + 3] == parts[i] {
        if i > 0 {
          assert parts[1..][i - 1] == parts[i];
          assert all[5 * i..5 * i + 3] == rest[5 * (i - 1)..5 * (i - 1) + 3];
        }
      }
    }
  }

  /** The listing fails exactly when some day is outside -8..7; no days give
      the empty text; otherwise the i-th name sits at offset 5*i and can be
      read back from there. */
  lemma FmtWeekdaysLayout(days: seq<int>)
    ensures FmtWeekdays(days).Ok? <==> forall i :: 0 <= i < |days| ==> -8 <= days[i] < 8
    ensures |days| == 0 ==> FmtWeekdays(days) == Ok("")
    ensures |days| > 0 && FmtWeekdays(days).Ok? ==>
      var s := FmtWeekdays(days).value;
      |s| == 5 * |days| - 2
      && forall i :: 0 <= i < |days| ==> Ok(s[5 * i..5 * i + 3]) == WeekdayName(days[i])
  {
    if |days| > 0 && DayNames(days).Ok? {
      var names := DayNames(days).value;
      forall i | 0 <= i < |names| ensures |names[i]| == 3 {
        assert Ok(names[i]) == WeekdayName(days[i]);
      }
      JoinBlocks(names);
    }
  }
}
