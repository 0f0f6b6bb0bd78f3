/** `Meeting.schedule_lookup`, `next`, `last` and `infer_wake` (model.py lines
    94-110 and 141-187): the week scan that finds the next (or the last) meeting
    from the present on.

    The clock reading `utils.time()` is the parameter `now`; the loaded
    schedule is the parameter `sched`, and the writes the lookup makes to the
    cached meeting objects come back as an updated copy of it. A wake-up point
    is "`daysAhead` days after today at `at`" (`Meetings.Wake`). */
module Lookup {
  import opened Common
  import opened Times
  import opened Meetings
  import opened Schedule

  /** A reading of the clock: the ISO weekday `date.weekday() + 1` (Monday 1 ..
      Sunday 7, the numbering the stored `days` use) and the time of day. */
  datatype Now = Now(weekday: int, clock: Clock)

  predicate ValidNow(now: Now) {
    1 <= now.weekday <= 7 && ValidClock(now.clock)
  }

  /** `(weekday % 7) + 1`: the weekday after `w`, Sunday (7) followed by Monday (1). */
  function NextWeekday(w: int): int {
    w % 7 + 1
  }

  /** The weekday the scan examines `k` steps after starting at `w`. */
  function WeekdayAhead(w: int, k: nat): int {
    if k == 0 then w else NextWeekday(WeekdayAhead(w, k - 1))
  }

  /** The scan walks the week in calendar order: `k` days after weekday `w`
      comes weekday `(w - 1 + k) % 7 + 1`, always within 1..7. */
  lemma {:induction false} WeekdayAheadFormula(w: int, k: nat)
    requires 1 <= w <= 7
    ensures WeekdayAhead(w, k) == (w - 1 + k) % 7 + 1
    ensures 1 <= WeekdayAhead(w, k) <= 7
  {
    if k > 0 {
      WeekdayAheadFormula(w, k - 1);
      ModSucc(w - 2 + k);
    }
  }

  lemma ModSucc(x: int)
    requires x >= 0
    ensures (x % 7 + 1) % 7 == (x + 1) % 7
  {
    var q, r := x / 7, x % 7;
    assert x == 7 * q + r && 0 <= r < 7;
    if r < 6 {
      SevenRemainder(x + 1, q, r + 1);
      SevenRemainder(r + 1, 0, r + 1);
    } else {
      SevenRemainder(x + 1, q + 1, 0);
      SevenRemainder(r + 1, 1, 0);
    }
  }

  /** The remainder modulo 7 of `7 * q + r`, for `r` in 0..6, is `r`. */
  lemma SevenRemainder(a: int, q: int, r: int)
    requires a == 7 * q + r && 0 <= r < 7
    ensures a % 7 == r
  {
  }

  /** The seven days of the scan are seven different weekdays: today's weekday
      is never examined a second time, a week later. */
  lemma ScanNeverRevisits(w: int, a: nat, b: nat)
    requires 1 <= w <= 7 && a < b < 7
    ensures WeekdayAhead(w, a) != WeekdayAhead(w, b)
    ensures WeekdayAhead(w, b) != w
  {
    WeekdayAheadFormula(w, a);
    WeekdayAheadFormula(w, b);
    WeekMod(w - 1 + a);
    WeekMod(w - 1 + b);
  }

  lemma WeekMod(x: int)
    requires 0 <= x < 14
    ensures x % 7 == if x < 7 then x else x - 7
  {
  }

  /** The `target_time` a meeting must be after on the `k`-th day of the scan:
      the reading itself (seconds included) today, `datetime.time()` (00:00:00)
      on every later day. */
  function Bound(now: Now, k: nat): Clock {
    if k == 0 then now.clock else Midnight
  }

  /** The test of model.py line 165 on meeting `i` on the `k`-th day: its time
      is after the bound (at or before it when `reverse`), and it has the
      target's ID when there is a target. */
  predicate Accepted(sched: seq<Meeting>, now: Now, target: Option<Meeting>, reverse: bool, k: nat, i: nat)
    requires WellFormed(sched) && i < |sched|
  {
    && (After(sched[i].time.value, Bound(now, k)) != reverse)
    && (target.None? || SameMeeting(sched[i], target.value))
  }

  /** Meeting `i` recurs on the `k`-th day of the scan and passes its test. */
  predicate Candidate(sched: seq<Meeting>, now: Now, target: Option<Meeting>, reverse: bool, k: nat, i: int)
    requires WellFormed(sched)
  {
    OnDay(sched, i, WeekdayAhead(now.weekday, k)) && Accepted(sched, now, target, reverse, k, i)
  }

  /** The slot of schedule position `i`. */
  function SlotAt(sched: seq<Meeting>, i: nat): Slot
    requires WellFormed(sched) && i < |sched|
  {
    Slot(i, sched[i].time.value)
  }

  /** The first position at or after `from` in `order` whose meeting passes
      the test of the `k`-th day (the inner `for` loop). */
  function FirstAccepted(sched: seq<Meeting>, now: Now, target: Option<Meeting>, reverse: bool, k: nat,
                         order: seq<Slot>, from: nat): (p: Option<nat>)
    requires WellFormed(sched)
    requires forall j :: 0 <= j < |order| ==> order[j].index < |sched|
    ensures p.Some? ==> from <= p.value < |order| && Accepted(sched, now, target, reverse, k, order[p.value].index)
    ensures p.Some? ==> forall j :: from <= j < p.value ==> !Accepted(sched, now, target, reverse, k, order[j].index)
    ensures p.None? ==> forall j :: from <= j < |order| ==> !Accepted(sched, now, target, reverse, k, order[j].index)
    decreases |order| - from
  {
    if from >= |order| then None
    else if Accepted(sched, now, target, reverse, k, order[from].index) then Some(from)
    else FirstAccepted(sched, now, target, reverse, k, order, from + 1)
  }

  /** The meeting the `k`-th day of the scan stops at, if any: the first one
      of that day's sorted schedule that passes the test. It is a candidate of
      that day and comes first, in the day's stable order, among all of them;
      when there is none, no meeting of that day is a candidate. */
  function DayHit(sched: seq<Meeting>, now: Now, target: Option<Meeting>, reverse: bool, k: nat): (h: Option<Slot>)
    requires WellFormed(sched)
    ensures h.Some? ==> h.value.index < |sched| && h.value == SlotAt(sched, h.value.index)
    ensures h.Some? ==> Candidate(sched, now, target, reverse, k, h.value.index)
    ensures h.Some? ==> forall i :: 0 <= i < |sched| && i != h.value.index && Candidate(sched, now, target, reverse, k, i)
                          ==> Precedes(reverse, h.value, SlotAt(sched, i))
    ensures h.None? ==> forall i :: 0 <= i < |sched| ==> !Candidate(sched, now, target, reverse, k, i)
  {
    var order := DayOrder(sched, WeekdayAhead(now.weekday, k), reverse);
    var p := FirstAccepted(sched, now, target, reverse, k, order, 0);
    DayHitCorrect(sched, now, target, reverse, k, order, p);
    if p.Some? then Some(order[p.value]) else None
  }

  lemma DayHitCorrect(sched: seq<Meeting>, now: Now, target: Option<Meeting>, reverse: bool, k: nat,
                      order: seq<Slot>, p: Option<nat>)
    requires WellFormed(sched)
    requires order == DayOrder(sched, WeekdayAhead(now.weekday, k), reverse)
    requires p == FirstAccepted(sched, now, target, reverse, k, order, 0)
    ensures p.Some? ==> forall i :: 0 <= i < |sched| && i != order[p.value].index && Candidate(sched, now, target, reverse, k, i)
                          ==> Precedes(reverse, order[p.value], SlotAt(sched, i))
    ensures p.None? ==> forall i :: 0 <= i < |sched| ==> !Candidate(sched, now, target, reverse, k, i)
  {
    if p.Some? {
      forall i | 0 <= i < |sched| && i != order[p.value].index && Candidate(sched, now, target, reverse, k, i)
        ensures Precedes(reverse, order[p.value], SlotAt(sched, i))
      {
        var q := PositionInOrder(sched, now, target, reverse, k, order, i);
        HitPrecedes(sched, now, target, reverse, k, order, p.value, q);
      }
    } else {
      forall i | 0 <= i < |sched| ensures !Candidate(sched, now, target, reverse, k, i) {
        if OnDay(sched, i, WeekdayAhead(now.weekday, k)) {
          var q := PositionInOrder(sched, now, target, reverse, k, order, i);
          assert order[q].index == i;
        }
      }
    }
  }

  /** A meeting that recurs on the day has a place in the day's order. */
  lemma PositionInOrder(sched: seq<Meeting>, now: Now, target: Option<Meeting>, reverse: bool, k: nat,
                        order: seq<Slot>, i: nat) returns (q: nat)
    requires WellFormed(sched)
    requires order == DayOrder(sched, WeekdayAhead(now.weekday, k), reverse)
    requires i < |sched| && OnDay(sched, i, WeekdayAhead(now.weekday, k))
    ensures q < |order| && order[q] == SlotAt(sched, i)
  {
    assert SlotAt(sched, i) in order;
    q :| 0 <= q < |order| && order[q] == SlotAt(sched, i);
  }

  /** In a sorted day, an accepted position other than the first accepted
      one comes after it. */
  lemma HitPrecedes(sched: seq<Meeting>, now: Now, target: Option<Meeting>, reverse: bool, k: nat,
                    order: seq<Slot>, p: nat, q: nat)
    requires WellFormed(sched) && Sorted(reverse, order)
    requires forall j :: 0 <= j < |order| ==> order[j].index < |sched|
    requires p < |order| && forall j :: 0 <= j < p ==> !Accepted(sched, now, target, reverse, k, order[j].index)
    requires q < |order| && order[q].index != order[p].index && Accepted(sched, now, target, reverse, k, order[q].index)
    ensures Precedes(reverse, order[p], order[q])
  {
    assert p < q;
  }

  /** Where the scan stopped: schedule position `index`, `daysAhead` days
      after today. */
  datatype Hit = Hit(index: nat, daysAhead: nat)

  /** How many days the scan examines: seven going forward, only today in
      reverse (model.py line 175 gives up after the first day). */
  function Span(reverse: bool): nat {
    if reverse then 1 else 7
  }

  /** The outer loop from its `k`-th day on. The hit is a candidate of the
      first day, at or after `k`, that has one, and on that day it precedes
      every other candidate in the stable order; with no hit, no day of the
      scan had a candidate. */
  function Search(sched: seq<Meeting>, now: Now, target: Option<Meeting>, reverse: bool, k: nat): (r: Option<Hit>)
    requires WellFormed(sched)
    requires k < Span(reverse)
    ensures r.Some? ==> k <= r.value.daysAhead < Span(reverse) && r.value.index < |sched|
    ensures r.Some? ==> Candidate(sched, now, target, reverse, r.value.daysAhead, r.value.index)
    ensures r.Some? ==> forall d, i :: k <= d < r.value.daysAhead && 0 <= i < |sched|
                          ==> !Candidate(sched, now, target, reverse, d, i)
    ensures r.Some? ==> forall i :: 0 <= i < |sched| && i != r.value.index && Candidate(sched, now, target, reverse, r.value.daysAhead, i)
                          ==> Precedes(reverse, SlotAt(sched, r.value.index), SlotAt(sched, i))
    ensures r.None? ==> forall d, i :: k <= d < Span(reverse) && 0 <= i < |sched|
                          ==> !Candidate(sched, now, target, reverse, d, i)
    decreases Span(reverse) - k
  {
    var h := DayHit(sched, now, target, reverse, k);
    if h.Some? then Some(Hit(h.value.index, k))
    else if k + 1 == Span(reverse) then None
    else Search(sched, now, target, reverse, k + 1)
  }

  /** Two schedules that agree on every meeting's time, days and ID: all the
      scan reads. */
  predicate SameListing(a: seq<Meeting>, b: seq<Meeting>) {
    SameTimes(a, b) && forall i :: 0 <= i < |a| ==> a[i].zoom == b[i].zoom
  }

  lemma {:induction false} FirstAcceptedReadsListingOnly(a: seq<Meeting>, b: seq<Meeting>, now: Now, target: Option<Meeting>,
                                                         reverse: bool, k: nat, order: seq<Slot>, from: nat)
    requires WellFormed(a) && WellFormed(b) && SameListing(a, b)
    requires forall j :: 0 <= j < |order| ==> order[j].index < |a|
    ensures FirstAccepted(a, now, target, reverse, k, order, from) == FirstAccepted(b, now, target, reverse, k, order, from)
    decreases |order| - from
  {
    if from < |order| {
      FirstAcceptedReadsListingOnly(a, b, now, target, reverse, k, order, from + 1);
    }
  }

  lemma DayHitReadsListingOnly(a: seq<Meeting>, b: seq<Meeting>, now: Now, target: Option<Meeting>, reverse: bool, k: nat)
    requires WellFormed(a) && WellFormed(b) && SameListing(a, b)
    ensures DayHit(a, now, target, reverse, k) == DayHit(b, now, target, reverse, k)
  {
    var day := WeekdayAhead(now.weekday, k);
    DayOrderReadsTimesOnly(a, b, day, reverse);
    var order := DayOrder(a, day, reverse);
    FirstAcceptedReadsListingOnly(a, b, now, target, reverse, k, order, 0);
  }

  /** One step of the outer loop: stop at the day's hit, give up after the
      last day, or go on to the next day. */
  lemma SearchStep(sched: seq<Meeting>, now: Now, target: Option<Meeting>, reverse: bool, k: nat)
    requires WellFormed(sched) && k < Span(reverse)
    ensures var h := DayHit(sched, now, target, reverse, k);
      && (h.Some? ==> Search(sched, now, target, reverse, k) == Some(Hit(h.value.index, k)))
      && (h.None? && k + 1 == Span(reverse) ==> Search(sched, now, target, reverse, k).None?)
      && (h.None? && k + 1 < Span(reverse) ==> Search(sched, now, target, reverse, k) == Search(sched, now, target, reverse, k + 1))
  {
  }

  /** The scan reads only the times, days and IDs of the schedule: the wakes
      and right-now flags earlier lookups wrote into it do not change where a
      later lookup stops. */
  lemma {:induction false} SearchReadsListingOnly(a: seq<Meeting>, b: seq<Meeting>, now: Now, target: Option<Meeting>,
                                                  reverse: bool, k: nat)
    requires WellFormed(a) && WellFormed(b) && SameListing(a, b)
    requires k < Span(reverse)
    ensures Search(a, now, target, reverse, k) == Search(b, now, target, reverse, k)
    decreases Span(reverse) - k
  {
    DayHitReadsListingOnly(a, b, now, target, reverse, k);
    SearchStep(a, now, target, reverse, k);
    SearchStep(b, now, target, reverse, k);
    if DayHit(a, now, target, reverse, k).None? && k + 1 < Span(reverse) {
      SearchReadsListingOnly(a, b, now, target, reverse, k + 1);
    }
  }

  /** What `schedule_lookup` returns, and the schedule after the writes it
      made: `found` is the meeting returned (None if the scan gave up) and
      `slot` its position in the schedule when it is a schedule object rather
      than the target. */
  datatype LookupResult = LookupResult(found: Option<Meeting>, slot: Option<nat>, cache: seq<Meeting>)

  /** A meeting stamped by the lookup: marked right now in reverse, given the
      wake `daysAhead` days ahead at its own time otherwise. */
  function Stamp(m: Meeting, reverse: bool, daysAhead: nat): Meeting
    requires reverse || m.time.Some?
  {
    if reverse then m.(isRightNow := true) else m.(wake := Some(Wake(daysAhead, m.time.value)))
  }

  /** The meeting object the lookup stamps for hit `h`: the target when
      there is one (model.py line 168), else the scheduled meeting hit. */
  function Subject(sched: seq<Meeting>, target: Option<Meeting>, h: Hit): Meeting
    requires h.index < |sched|
  {
    if target.Some? then target.value else sched[h.index]
  }

  /** `Meeting.schedule_lookup(target_meet, reverse)`. It finds something
      exactly when some day of the scan has a candidate, and then stamps the
      subject of the scan's hit: only its wake and right-now flag change, the
      flag being set in reverse and the wake (the hit's day ahead, at the
      subject's own time) going forward. A scheduled meeting is stamped in
      place, and no other entry of the schedule is written; a target is
      stamped instead and the schedule is left alone. */
  function ScheduleLookup(sched: seq<Meeting>, now: Now, target: Option<Meeting>, reverse: bool): (r: LookupResult)
    requires WellFormed(sched)
    requires target.Some? && !reverse ==> target.value.time.Some?
    ensures |r.cache| == |sched| && WellFormed(r.cache)
    ensures r.found.None? <==> forall d, i :: 0 <= d < Span(reverse) && 0 <= i < |sched|
                                 ==> !Candidate(sched, now, target, reverse, d, i)
    ensures r.found.Some? <==> Search(sched, now, target, reverse, 0).Some?
    ensures target.Some? || r.found.None? ==> r.slot.None? && r.cache == sched
    ensures r.found.Some? ==>
      var h := Search(sched, now, target, reverse, 0).value;
      var m := Subject(sched, target, h);
      && r.found.value == m.(wake := r.found.value.wake, isRightNow := r.found.value.isRightNow)
      && (reverse ==> r.found.value.isRightNow && r.found.value.wake == m.wake)
      && (!reverse ==> r.found.value.isRightNow == m.isRightNow && r.found.value.wake == Some(Wake(h.daysAhead, m.time.value)))
      && (target.None? ==> r.slot == Some(h.index) && r.cache == sched[h.index := r.found.value])
  {
    match Search(sched, now, target, reverse, 0)
    case None => LookupResult(None, None, sched)
    case Some(h) =>
      if target.Some? then LookupResult(Some(Stamp(target.value, reverse, h.daysAhead)), None, sched)
      else
        var m := Stamp(sched[h.index], reverse, h.daysAhead);
        LookupResult(Some(m), Some(h.index), sched[h.index := m])
  }

  /** `Meeting.next()`: the scheduled meeting it returns gets a wake and keeps
      its right-now flag. */
  function Next(sched: seq<Meeting>, now: Now): (r: LookupResult)
    requires WellFormed(sched)
    ensures r.found.Some? ==> r.slot.Some? && r.slot.value < |sched| && r.found.value.wake.Some?
    ensures r.found.Some? ==> r.found.value.isRightNow == sched[r.slot.value].isRightNow
    ensures r.found.Some? ==> r.found.value == sched[r.slot.value].(wake := r.found.value.wake)
  {
    ScheduleLookup(sched, now, None, false)
  }

  /** `Meeting.last()`: the scheduled meeting it returns is marked right now
      and keeps its wake. */
  function Last(sched: seq<Meeting>, now: Now): (r: LookupResult)
    requires WellFormed(sched)
    ensures r.found.Some? ==> r.slot.Some? && r.slot.value < |sched| && r.found.value.isRightNow
    ensures r.found.Some? ==> r.found.value == sched[r.slot.value].(isRightNow := true)
  {
    ScheduleLookup(sched, now, None, true)
  }

  /** A lookup writes nothing but wakes and right-now flags: the schedule
      after it lists the same meetings at the same times on the same days. */
  lemma LookupKeepsListing(sched: seq<Meeting>, now: Now, target: Option<Meeting>, reverse: bool)
    requires WellFormed(sched)
    requires target.Some? && !reverse ==> target.value.time.Some?
    ensures SameListing(sched, ScheduleLookup(sched, now, target, reverse).cache)
  {
    var s := Search(sched, now, target, reverse, 0);
    if s.Some? && target.None? {
      var h := s.value;
      var m := Stamp(sched[h.index], reverse, h.daysAhead);
      assert ScheduleLookup(sched, now, target, reverse).cache == sched[h.index := m];
      StampKeepsListing(sched, h.index, m);
    } else {
      assert ScheduleLookup(sched, now, target, reverse).cache == sched;
    }
  }

  lemma StampKeepsListing(sched: seq<Meeting>, i: nat, m: Meeting)
    requires i < |sched|
    requires m.time == sched[i].time && m.days == sched[i].days && m.zoom == sched[i].zoom
    ensures SameListing(sched, sched[i := m])
  {
  }

  /** `last()` called after `next()` stops at the position it would have
      stopped at on the schedule as loaded: the wake `next()` wrote is
      invisible to it. */
  lemma LastAfterNext(sched: seq<Meeting>, now: Now)
    requires WellFormed(sched)
    ensures var c := Next(sched, now).cache;
      WellFormed(c) && Last(c, now).slot == Last(sched, now).slot
  {
    var c := Next(sched, now).cache;
    LookupKeepsListing(sched, now, None, false);
    SearchReadsListingOnly(sched, c, now, None, true, 0);
  }

  /** Going forward, the lookup finds the soonest upcoming occurrence: the
      chosen meeting recurs `daysAhead` days from today, later than now when
      that is today; no meeting recurs earlier in that sense; and on its day
      no other upcoming meeting is at an earlier time, nor at the same time
      but earlier in the schedule. */
  lemma NextIsSoonest(sched: seq<Meeting>, now: Now)
    requires WellFormed(sched) && ValidNow(now)
    requires Next(sched, now).found.Some?
    ensures var r := Next(sched, now);
      var i, w := r.slot.value, r.found.value.wake.value;
      && OnDay(sched, i, WeekdayAhead(now.weekday, w.daysAhead))
      && w.at == sched[i].time.value
      && (w.daysAhead == 0 ==> Earlier(Truncate(now.clock), w.at))
      && (w.daysAhead > 0 ==> w.at != HourMinute(0, 0))
      && (forall d, j :: 0 <= d < w.daysAhead && OnDay(sched, j, WeekdayAhead(now.weekday, d))
            ==> (d == 0 && !Earlier(Truncate(now.clock), sched[j].time.value)) || (d > 0 && sched[j].time.value == HourMinute(0, 0)))
      && (forall j :: OnDay(sched, j, WeekdayAhead(now.weekday, w.daysAhead)) && j != i && Accepted(sched, now, None, false, w.daysAhead, j)
            ==> !Earlier(sched[j].time.value, w.at) && (sched[j].time.value == w.at ==> i < j))
  {
    var h := Search(sched, now, None, false, 0).value;
    var t := sched[h.index].time.value;
    AfterIsLaterMinute(t, now.clock);
    AfterMidnight(t);
    forall d, j | 0 <= d < h.daysAhead && OnDay(sched, j, WeekdayAhead(now.weekday, d))
      ensures (d == 0 && !Earlier(Truncate(now.clock), sched[j].time.value)) || (d > 0 && sched[j].time.value == HourMinute(0, 0))
    {
      assert !Candidate(sched, now, None, false, d, j);
      AfterIsLaterMinute(sched[j].time.value, now.clock);
      AfterMidnight(sched[j].time.value);
    }
    forall j | OnDay(sched, j, WeekdayAhead(now.weekday, h.daysAhead)) && j != h.index && Accepted(sched, now, None, false, h.daysAhead, j)
      ensures !Earlier(sched[j].time.value, t) && (sched[j].time.value == t ==> h.index < j)
    {
      assert Candidate(sched, now, None, false, h.daysAhead, j);
      assert Precedes(false, SlotAt(sched, h.index), SlotAt(sched, j));
      SortingKeyOrder(sched[j].time.value, t);
      SortingKeyOrder(t, sched[j].time.value);
    }
  }

  /** Going backward, the lookup finds the latest meeting of today that is not
      after now (one starting this very minute counts as past), preferring the
      earliest in the schedule among several at that time; if there is none,
      it finds nothing. */
  lemma LastIsLatestPassed(sched: seq<Meeting>, now: Now)
    requires WellFormed(sched) && ValidNow(now)
    ensures var r := Last(sched, now);
      && (r.found.None? <==> forall j :: OnDay(sched, j, now.weekday) ==> Earlier(Truncate(now.clock), sched[j].time.value))
      && (r.found.Some? ==>
            var i, t := r.slot.value, r.found.value.time.value;
            && OnDay(sched, i, now.weekday)
            && !Earlier(Truncate(now.clock), t)
            && forall j :: OnDay(sched, j, now.weekday) && !Earlier(Truncate(now.clock), sched[j].time.value) && j != i
                 ==> !Earlier(t, sched[j].time.value) && (sched[j].time.value == t ==> i < j))
  {
    var r := Last(sched, now);
    forall j | OnDay(sched, j, now.weekday)
      ensures Candidate(sched, now, None, true, 0, j) <==> !Earlier(Truncate(now.clock), sched[j].time.value)
    {
      AfterIsLaterMinute(sched[j].time.value, now.clock);
    }
    if r.found.Some? {
      var h := Search(sched, now, None, true, 0).value;
      var t := sched[h.index].time.value;
      forall j | OnDay(sched, j, now.weekday) && !Earlier(Truncate(now.clock), sched[j].time.value) && j != h.index
        ensures !Earlier(t, sched[j].time.value) && (sched[j].time.value == t ==> h.index < j)
      {
        assert Candidate(sched, now, None, true, 0, j);
        assert Precedes(true, SlotAt(sched, h.index), SlotAt(sched, j));
        SortingKeyOrder(sched[j].time.value, t);
        SortingKeyOrder(t, sched[j].time.value);
      }
    }
  }

  /** A meeting at 0:00 is never found on a day after today: the later days
      compare against 00:00:00, which 0:00 is not after. */
  lemma MidnightSkipped(sched: seq<Meeting>, now: Now, target: Option<Meeting>, k: nat, i: nat)
    requires WellFormed(sched) && i < |sched|
    requires sched[i].time.value == HourMinute(0, 0) && 0 < k
    ensures !Candidate(sched, now, target, false, k, i)
  {
  }

  /** A meeting that recurs only on today's weekday and has already started
      today is not found going forward: the scan does not come back to
      today's weekday a week later. */
  lemma PassedWeeklyMeetingNotFound(sched: seq<Meeting>, now: Now, i: nat)
    requires WellFormed(sched) && ValidNow(now) && i < |sched|
    requires sched[i].days.value == [now.weekday]
    requires !Earlier(Truncate(now.clock), sched[i].time.value)
    ensures forall d :: 0 <= d < 7 ==> !Candidate(sched, now, None, false, d, i)
  {
    AfterIsLaterMinute(sched[i].time.value, now.clock);
    forall d | 0 < d < 7 ensures WeekdayAhead(now.weekday, d) != now.weekday {
      ScanNeverRevisits(now.weekday, 0, d);
    }
  }

  /** A day outside 1..7 (such as 0, which the weekday listing would also show
      as Sunday) is never examined. */
  lemma OutOfRangeDayNeverExamined(sched: seq<Meeting>, now: Now, target: Option<Meeting>, reverse: bool, i: nat)
    requires WellFormed(sched) && ValidNow(now) && i < |sched|
    requires forall j :: 0 <= j < |sched[i].days.value| ==> !(1 <= sched[i].days.value[j] <= 7)
    ensures forall d :: 0 <= d < 7 ==> !Candidate(sched, now, target, reverse, d, i)
  {
    forall d | 0 <= d < 7 ensures !Candidate(sched, now, target, reverse, d, i) {
      WeekdayAheadFormula(now.weekday, d);
    }
  }

  // ---------------------------------------------------------------- infer_wake

  /** `m.infer_wake()`. A right-now meeting is left alone. A meeting from the
      schedule gets the wake of a targeted lookup (or none if no scheduled
      meeting has its ID). Any other meeting is due today if its time is still
      ahead of now, and tomorrow otherwise. The schedule is never written. */
  function InferWake(m: Meeting, sched: seq<Meeting>, now: Now): (r: Meeting)
    requires WellFormed(sched) && Coherent(m)
    ensures m.isRightNow ==> r == m
    ensures !m.isRightNow ==> r == m.(wake := r.wake)
    ensures !m.isRightNow && !m.isOnSched ==>
      r.wake.Some? && r.wake.value.at == m.time.value && (r.wake.value.daysAhead == 0 <==> After(m.time.value, now.clock))
      && r.wake.value.daysAhead <= 1
    ensures !m.isRightNow && m.isOnSched ==>
      var found := ScheduleLookup(sched, now, Some(m), false).found;
      r == if found.Some? then found.value else m
  {
    if m.isRightNow then m
    else if m.isOnSched then
      var found := ScheduleLookup(sched, now, Some(m), false).found;
      if found.Some? then found.value else m
    else
      Stamp(m, false, if After(m.time.value, now.clock) then 0 else 1)
  }

  /** A meeting given by hand is due at the first moment, from now on, that
      its clock time comes round: today when its minute is strictly later
      than now's, and tomorrow when it is the current minute or earlier. */
  lemma InferWakeIsNextOccurrence(m: Meeting, sched: seq<Meeting>, now: Now)
    requires WellFormed(sched) && Coherent(m) && ValidNow(now)
    requires !m.isRightNow && !m.isOnSched
    ensures var w := InferWake(m, sched, now).wake.value;
      && w.at == m.time.value
      && (w.daysAhead == 0 <==> MinuteOfDay(m.time.value) > now.clock.hour * 60 + now.clock.minute)
      && (w.daysAhead == 1 <==> MinuteOfDay(m.time.value) <= now.clock.hour * 60 + now.clock.minute)
  {
    AfterIsLaterMinute(m.time.value, now.clock);
  }

  /** A scheduled meeting without a wake yet (as loaded from its stored
      form) takes the date of the next occurrence of any scheduled meeting
      with its ID, but keeps its own clock time; if none has its ID, it stays
      without a wake. */
  lemma InferWakeOnSchedule(m: Meeting, sched: seq<Meeting>, now: Now)
    requires WellFormed(sched) && Coherent(m)
    requires !m.isRightNow && m.isOnSched && m.wake.None?
    ensures var r := InferWake(m, sched, now);
      && (r.wake.Some? <==> exists d, i :: 0 <= d < 7 && 0 <= i < |sched| && Candidate(sched, now, Some(m), false, d, i))
      && (r.wake.Some? ==> r.wake.value.at == m.time.value)
      && (r.wake.None? ==> r == m)
  {
  }
}
