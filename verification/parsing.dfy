/** The meeting-selection rule of parsing.py: `figure_out_meeting_info`, the
    argument-swap retry `tries_twice` around it, and `Meeting.parse_id`
    (model.py lines 189-195), which it uses to read IDs.

    The command-line arguments, the answers typed at the prompts, the stored
    schedule, the clock reading, the configured threshold and the contents of
    the recent-meeting file are all parameters. Printing is left out, and
    each `exit()` becomes an `Outcome` that carries no meeting. */
module Parsing {
  import opened Common
  import opened Text
  import opened Times
  import opened Meetings
  import opened Schedule
  import opened Lookup
  import opened Utils

  /** `Meeting.parse_id(zoom)`: 'auto' means "no ID"; anything else is read by
      `utils.parse_id`, whose failures are ValueErrors. */
  function MeetingParseId(zoom: String): (r: Result<Option<int>>)
    ensures r.Err? ==> r.error == ValueError
    ensures r == Ok(None) <==> zoom == "auto"
    ensures zoom != "auto" ==> (r.Ok? <==> ParseId(zoom).Ok?)
    ensures zoom != "auto" && r.Ok? ==> r.value == Some(ParseId(zoom).value)
  {
    if zoom == "auto" then Ok(None)
    else
      match ParseId(zoom)
      case Ok(z) => Ok(Some(z))
      case Err(e) => Err(e)
  }

  // ---------------------------------------------------------------- inputs and outcomes

  /** The parsed command line: the two positionals (both default to 'auto')
      and the `--late`, `--recent` and `--input` flags. */
  datatype Args = Args(time: String, zoom: String, late: bool, recent: bool, input: bool)

  /** What the user types at the time prompt and at the ID prompt. */
  datatype Answers = Answers(time: String, zoom: String)

  /** The rest of the world the rule reads: the loaded schedule, the clock,
      the configured `threshold` (minutes) and the stored recent meeting,
      `None` when reading it raises KeyError. */
  datatype Env = Env(sched: seq<Meeting>, now: Now, threshold: int, recent: Option<Record>)

  /** How `figure_out_meeting_info` ends: with a meeting for the caller to
      wait for or join, or at one of its three `exit()` calls. */
  datatype Outcome =
    | Chosen(meeting: Meeting)
    | NoRecentMeeting
    | NothingPassedToday
    | EmptySchedule

  // ---------------------------------------------------------------- elapsed time

  const MicrosPerDay: int := 86_400_000_000

  /** A clock reading in microseconds since midnight. */
  function ClockMicros(c: Clock): int {
    ((c.hour * 60 + c.minute) * 60 + c.second) * 1_000_000 + c.micro
  }

  /** `(now - t today).seconds // 60`: a `timedelta` keeps its seconds within
      one day, the days field taking the rest rounded down, so a time still
      ahead of now wraps round to almost a full day. */
  function ElapsedMinutes(now: Clock, t: Time): (n: int)
    ensures 0 <= n < 1440
  {
    var delta := ClockMicros(now) - ClockMicros(AsClock(t));
    var seconds := (delta % MicrosPerDay) / 1_000_000;
    seconds / 60
  }

  /** For a meeting that has already started today, the elapsed minutes are
      the whole minutes between its start and now. */
  lemma ElapsedSincePassed(now: Clock, t: Time)
    requires ValidClock(now) && !After(t, now)
    ensures ElapsedMinutes(now, t) == now.hour * 60 + now.minute - MinuteOfDay(t)
  {
    var gap := now.hour * 60 + now.minute - MinuteOfDay(t);
    AfterIsLaterMinute(t, now);
    assert 0 <= gap < 1440;
    var delta := ClockMicros(now) - ClockMicros(AsClock(t));
    assert delta == (gap * 60 + now.second) * 1_000_000 + now.micro;
    assert 0 <= delta < MicrosPerDay;
    assert delta % MicrosPerDay == delta;
    assert delta / 1_000_000 == gap * 60 + now.second;
  }

  // ---------------------------------------------------------------- auto mode

  /** The decision of the auto branch from what `next()` and `last()` handed
      back: the last meeting while it is recent enough (or always with
      `--late`), then the end of the run under `--late`, then the next
      meeting, then the empty-schedule exit. */
  function AutoRule(meeting: Option<Meeting>, last: Option<Meeting>, now: Clock, threshold: int, late: bool): Outcome
    requires last.Some? ==> last.value.time.Some?
  {
    if last.Some? && (late || ElapsedMinutes(now, last.value.time.value) < threshold) then Chosen(last.value)
    else if last.None? && late then NothingPassedToday
    else if meeting.Some? then Chosen(meeting.value)
    else EmptySchedule
  }

  /** The last meeting `last()` finds today is taken: it exists, and either
      `--late` is given or fewer than `threshold` minutes have passed since it
      started. */
  predicate TakesLast(env: Env, late: bool)
    requires WellFormed(env.sched)
  {
    var l := Last(env.sched, env.now);
    l.found.Some? && (late || ElapsedMinutes(env.now.clock, env.sched[l.slot.value].time.value) < env.threshold)
  }

  /** Neither the last meeting is taken nor does `--late` end the run: the
      branch falls through to the next meeting. */
  predicate FallsThrough(env: Env, late: bool)
    requires WellFormed(env.sched)
  {
    !TakesLast(env, late) && !(Last(env.sched, env.now).found.None? && late)
  }

  /** The auto branch as intended: the next meeting is the one `next()`
      returned, untouched by `last()`. The last meeting is taken, marked right
      now, while it is recent enough (or always with `--late`); with `--late`
      and nothing passed today the run ends; otherwise the next meeting is
      taken, with its wake and its right-now flag as stored; and with no next
      meeting the schedule is empty. */
  function AutoPick(env: Env, late: bool): (o: Outcome)
    requires WellFormed(env.sched)
    ensures TakesLast(env, late) ==>
      var i := Last(env.sched, env.now).slot.value;
      o.Chosen? && o.meeting == env.sched[i].(wake := o.meeting.wake, isRightNow := true)
    ensures Last(env.sched, env.now).found.None? && late ==> o == NothingPassedToday
    ensures FallsThrough(env, late) ==>
      var n := Next(env.sched, env.now);
      if n.found.Some? then o == Chosen(n.found.value) && o.meeting.isRightNow == env.sched[n.slot.value].isRightNow
      else o == EmptySchedule
  {
    var next := Next(env.sched, env.now);
    LastAfterNext(env.sched, env.now);
    var last := Last(next.cache, env.now);
    LookupKeepsListing(env.sched, env.now, None, false);
    AutoRule(next.found, last.found, env.now.clock, env.threshold, late)
  }

  /** The auto branch as written: `meeting = Meeting.next()` and then
      `last = Meeting.last()`. Both return cached schedule objects, so
      `meeting` is read back from the cache after both lookups. It agrees
      with `AutoPick` except when it falls through to a next meeting that is
      the very object `last()` found: that one comes back marked right now. */
  function AutoPickAsWritten(env: Env, late: bool): (o: Outcome)
    requires WellFormed(env.sched)
    ensures !FallsThrough(env, late) ==> o == AutoPick(env, late)
    ensures FallsThrough(env, late) ==>
      var n := Next(env.sched, env.now);
      if n.found.None? then o == EmptySchedule
      else if Last(env.sched, env.now).slot == n.slot then o == Chosen(n.found.value.(isRightNow := true))
      else o == Chosen(n.found.value)
  {
    var next := Next(env.sched, env.now);
    LastAfterNext(env.sched, env.now);
    var last := Last(next.cache, env.now);
    LookupKeepsListing(env.sched, env.now, None, false);
    var meeting := if next.found.Some? then Some(last.cache[next.slot.value]) else None;
    AutoRule(meeting, last.found, env.now.clock, env.threshold, late)
  }

  /** The discrepancy: a single meeting that started earlier today and
      recurs tomorrow, `threshold` minutes or more after its start. `next()`
      finds tomorrow's occurrence and `last()` finds today's, in the same
      cached object; the branch falls through to the next meeting, and as
      written it comes back marked right now (so the caller joins it at once
      instead of sleeping until its wake, a day ahead), while the intended
      rule returns it unmarked. */
  lemma SameObjectMarkedRightNow(env: Env)
    requires WellFormed(env.sched) && ValidNow(env.now) && |env.sched| == 1
    requires !env.sched[0].isRightNow && env.sched[0].time.value != HourMinute(0, 0)
    requires env.now.weekday in env.sched[0].days.value && NextWeekday(env.now.weekday) in env.sched[0].days.value
    requires !After(env.sched[0].time.value, env.now.clock)
    requires ElapsedMinutes(env.now.clock, env.sched[0].time.value) >= env.threshold
    ensures AutoPickAsWritten(env, false).Chosen? && AutoPickAsWritten(env, false).meeting.isRightNow
    ensures AutoPick(env, false).Chosen? && !AutoPick(env, false).meeting.isRightNow
  {
    var sched, now := env.sched, env.now;
    assert Candidate(sched, now, None, true, 0, 0);
    AfterMidnight(sched[0].time.value);
    assert Candidate(sched, now, None, false, 1, 0);
    assert Last(sched, now).slot == Some(0);
    assert Next(sched, now).slot == Some(0);
    assert FallsThrough(env, false);
  }

  /** The smallest instance: one meeting (ID 111) at 9:00 on Mondays and
      Tuesdays, the clock at 10:00 on a Monday, a threshold of 15 minutes. */
  lemma AliasingExample()
    ensures var env := Env([Meeting(Some(HourMinute(9, 0)), Some(111), None, Some([1, 2]), None, false, false)],
                           Now(1, Clock(10, 0, 0, 0)), 15, None);
      && AutoPickAsWritten(env, false).Chosen? && AutoPickAsWritten(env, false).meeting.isRightNow
      && AutoPick(env, false).Chosen? && !AutoPick(env, false).meeting.isRightNow
  {
    var env := Env([Meeting(Some(HourMinute(9, 0)), Some(111), None, Some([1, 2]), None, false, false)],
                   Now(1, Clock(10, 0, 0, 0)), 15, None);
    ElapsedSincePassed(env.now.clock, HourMinute(9, 0));
    SameObjectMarkedRightNow(env);
  }

  // ---------------------------------------------------------------- figure_out_meeting_info

  /** `Meeting(time, zoom)` followed by `infer_wake()`: a meeting given by
      hand, off the schedule. */
  function GivenMeeting(time: Option<Time>, zoom: Option<int>, env: Env): Meeting
    requires WellFormed(env.sched)
  {
    InferWake(NewMeeting(time, zoom, None, None, false), env.sched, env.now)
  }

  /** `figure_out_meeting_info(raw_time, raw_zoom)`, on the model's terms.
      `--recent` comes first and `--input` next; then both positionals
      'auto' select from the schedule; otherwise the positionals are parsed,
      and when only the ID is 'auto' it is asked for. A ValueError from any
      parse propagates to the caller. */
  function FigureOut(args: Args, rawTime: String, rawZoom: String, ans: Answers, env: Env): (r: Result<Outcome>)
    requires WellFormed(env.sched)
    ensures r.Err? ==> r.error == ValueError
    ensures r.Ok? && r.value.Chosen? && !(args.recent || args.input) && !(rawTime == "auto" && rawZoom == "auto") ==>
      r.value.meeting.time.Some? == (rawTime != "auto")
  {
    if args.recent then
      match env.recent
      case None => Ok(NoRecentMeeting)
      case Some(d) =>
        match FromDict(d)
        case Err(e) => Err(e)
        case Ok(m) => Ok(Chosen(InferWake(m, env.sched, env.now)))
    else if args.input then
      match FromString(ans.time)
      case Err(e) => Err(e)
      case Ok(t) =>
        match MeetingParseId(ans.zoom)
        case Err(e) => Err(e)
        case Ok(z) => Ok(Chosen(GivenMeeting(t, z, env)))
    else if rawTime == "auto" && rawZoom == "auto" then
      Ok(AutoPick(env, args.late))
    else
      match FromString(rawTime)
      case Err(e) => Err(e)
      case Ok(t) =>
        match MeetingParseId(rawZoom)
        case Err(e) => Err(e)
        case Ok(z) =>
          if rawTime != "auto" && rawZoom != "auto" then Ok(Chosen(GivenMeeting(t, z, env)))
          else if z.Some? then Ok(Chosen(GivenMeeting(t, z, env)))
          else
            match MeetingParseId(ans.zoom)
            case Err(e) => Err(e)
            case Ok(z') => Ok(Chosen(GivenMeeting(t, z', env)))
  }

  /** `--recent` wins over every other input: the positionals, the prompt
      answers and the other flags are never looked at. A missing record ends
      the run, a stored time out of range is a ValueError, and otherwise the
      stored meeting is returned with the wake `infer_wake` gives it. */
  lemma RecentComesFirst(args: Args, rawTime: String, rawZoom: String, ans: Answers, env: Env,
                         rawTime': String, rawZoom': String, ans': Answers, late: bool, input: bool)
    requires WellFormed(env.sched) && args.recent
    ensures var r := FigureOut(args, rawTime, rawZoom, ans, env);
      && r == FigureOut(args.(late := late, input := input), rawTime', rawZoom', ans', env)
      && (env.recent.None? ==> r == Ok(NoRecentMeeting))
      && (env.recent.Some? && FromDict(env.recent.value).Err? ==> r == Err(ValueError))
      && (env.recent.Some? && FromDict(env.recent.value).Ok? ==>
            && r == Ok(Chosen(InferWake(FromDict(env.recent.value).value, env.sched, env.now)))
            && AsDict(r.value.meeting) == env.recent.value)
  {
    if env.recent.Some? && FromDict(env.recent.value).Ok? {
      var m := FromDict(env.recent.value).value;
      var w := InferWake(m, env.sched, env.now);
      assert AsDict(w) == AsDict(m);
    }
  }

  /** Without `--recent`, `--input` comes next: the positionals are ignored,
      and the meeting is built from the two answers, the time read first.
      `infer_wake` then makes a timed meeting due at the next time its clock
      time comes round, today or tomorrow, while an answer of 'auto' for the
      time gives a meeting to join right now, without a wake. */
  lemma InputComesNext(args: Args, rawTime: String, rawZoom: String, ans: Answers, env: Env,
                       rawTime': String, rawZoom': String)
    requires WellFormed(env.sched) && !args.recent && args.input
    ensures var r := FigureOut(args, rawTime, rawZoom, ans, env);
      && r == FigureOut(args, rawTime', rawZoom', ans, env)
      && (r.Err? <==> FromString(ans.time).Err? || MeetingParseId(ans.zoom).Err?)
      && (r.Ok? ==> r.value.Chosen? && r.value.meeting.time == FromString(ans.time).value
                    && r.value.meeting.zoom == MeetingParseId(ans.zoom).value && !r.value.meeting.isOnSched)
      && (r.Ok? && FromString(ans.time).value.Some? ==>
            var t := FromString(ans.time).value.value;
            && !r.value.meeting.isRightNow
            && r.value.meeting.wake == Some(Wake(if After(t, env.now.clock) then 0 else 1, t)))
      && (r.Ok? && FromString(ans.time).value.None? ==>
            r.value.meeting.isRightNow && r.value.meeting.wake.None?)
  {
  }

  /** With no flag and both positionals 'auto', the meeting comes from the
      schedule by the auto rule, and nothing is asked. */
  lemma AutoModeUsesSchedule(args: Args, ans: Answers, env: Env)
    requires WellFormed(env.sched) && !args.recent && !args.input
    ensures FigureOut(args, "auto", "auto", ans, env) == Ok(AutoPick(env, args.late))
  {
  }

  /** With both positionals given, the meeting is built from exactly the
      parsed time and ID, and is due at the next time its clock time comes
      round: today if that is still ahead, tomorrow otherwise. If either
      fails to parse, the attempt is a ValueError. */
  lemma ExplicitArgumentsTaken(args: Args, rawTime: String, rawZoom: String, ans: Answers, env: Env)
    requires WellFormed(env.sched) && ValidNow(env.now) && !args.recent && !args.input
    requires rawTime != "auto" && rawZoom != "auto"
    ensures var r := FigureOut(args, rawTime, rawZoom, ans, env);
      && (r.Ok? <==> FromString(rawTime).Ok? && ParseId(rawZoom).Ok?)
      && (r.Ok? ==>
            var t := FromString(rawTime).value.value;
            && r.value.Chosen? && r.value.meeting.time == Some(t)
            && r.value.meeting.zoom == Some(ParseId(rawZoom).value)
            && !r.value.meeting.isRightNow
            && r.value.meeting.wake == Some(Wake(if After(t, env.now.clock) then 0 else 1, t)))
  {
    if FromString(rawTime).Ok? && ParseId(rawZoom).Ok? {
      var t := FromString(rawTime).value.value;
      InferWakeIsNextOccurrence(NewMeeting(Some(t), Some(ParseId(rawZoom).value), None, None, false), env.sched, env.now);
    }
  }

  /** A time of 'auto' with an ID given: the meeting has no time, so it is one
      to join right now, and it gets no wake. */
  lemma AutoTimeMeansRightNow(args: Args, rawZoom: String, ans: Answers, env: Env)
    requires WellFormed(env.sched) && !args.recent && !args.input && rawZoom != "auto"
    ensures var r := FigureOut(args, "auto", rawZoom, ans, env);
      && (r.Ok? <==> ParseId(rawZoom).Ok?)
      && (r.Ok? ==> r.value.Chosen? && r.value.meeting.time.None? && r.value.meeting.isRightNow
                    && r.value.meeting.wake.None? && r.value.meeting.zoom == Some(ParseId(rawZoom).value))
  {
  }

  /** A time given with the ID 'auto': the ID is asked for, and the answer
      (which may itself be 'auto', leaving no ID) goes into the meeting. */
  lemma AutoIdIsAsked(args: Args, rawTime: String, ans: Answers, env: Env)
    requires WellFormed(env.sched) && !args.recent && !args.input && rawTime != "auto"
    ensures var r := FigureOut(args, rawTime, "auto", ans, env);
      && (r.Ok? <==> FromString(rawTime).Ok? && MeetingParseId(ans.zoom).Ok?)
      && (r.Ok? ==> r.value.Chosen? && r.value.meeting.time == FromString(rawTime).value
                    && r.value.meeting.zoom == MeetingParseId(ans.zoom).value
                    && !r.value.meeting.isRightNow && r.value.meeting.wake.Some?)
  {
  }

  // ---------------------------------------------------------------- tries_twice

  /** How the run goes on after `tries_twice`: with the outcome of the order
      that parsed, or at the error exit `raise_val_err(2)`. */
  datatype Exit = Resolved(outcome: Outcome) | ParseErrorExit

  /** `tries_twice(figure_out_meeting_info)`: the positionals in the order
      given, then (only on a ValueError) swapped; the second attempt asks its
      own questions. The error exit is taken exactly when both orders fail. */
  function TriesTwice(args: Args, first: Answers, second: Answers, env: Env): (x: Exit)
    requires WellFormed(env.sched)
    ensures x == ParseErrorExit <==>
      FigureOut(args, args.time, args.zoom, first, env).Err? && FigureOut(args, args.zoom, args.time, second, env).Err?
    ensures FigureOut(args, args.time, args.zoom, first, env).Ok? ==>
      x == Resolved(FigureOut(args, args.time, args.zoom, first, env).value)
    ensures x.Resolved? ==>
      Ok(x.outcome) == FigureOut(args, args.time, args.zoom, first, env)
      || Ok(x.outcome) == FigureOut(args, args.zoom, args.time, second, env)
  {
    match FigureOut(args, args.time, args.zoom, first, env)
    case Ok(o) => Resolved(o)
    case Err(_) =>
      match FigureOut(args, args.zoom, args.time, second, env)
      case Ok(o) => Resolved(o)
      case Err(_) => ParseErrorExit
  }

  /** The swap makes the order of the two positionals irrelevant when only
      one order parses: an ID first and a time second give the same meeting
      as the time first and the ID second. */
  lemma EitherOrder(args: Args, first: Answers, second: Answers, env: Env)
    requires WellFormed(env.sched) && !args.recent && !args.input
    requires FromString(args.time).Err? && FromString(args.zoom).Ok? && FromString(args.zoom).value.Some?
    requires ParseId(args.time).Ok?
    ensures var swapped := args.(time := args.zoom, zoom := args.time);
      var m := GivenMeeting(FromString(args.zoom).value, Some(ParseId(args.time).value), env);
      TriesTwice(args, first, second, env) == Resolved(Chosen(m)) == TriesTwice(swapped, second, first, env)
  {
  }

  /** A stored recent meeting whose time is out of range fails both
      attempts alike, so the run ends at the parse-error exit. */
  lemma BadRecentRecordExits(args: Args, first: Answers, second: Answers, env: Env)
    requires WellFormed(env.sched) && args.recent
    requires env.recent.Some? && FromDict(env.recent.value).Err?
    ensures TriesTwice(args, first, second, env) == ParseErrorExit
  {
  }
}
