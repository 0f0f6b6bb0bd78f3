/** `Meeting.schedule_of_day` (model.py lines 132-139): the meetings of one
    weekday, stable-sorted by their sorting key.

    The schedule is the list of meetings loaded once per process; it is passed
    in explicitly. A meeting's place in the list is its identity: the day's
    order is a sequence of `Slot`s (position in the schedule plus the
    meeting's time), which also lets the resolver say which stored object it
    hands back. */
module Schedule {
  import opened Common
  import opened Times
  import opened Meetings

  /** A meeting the configuration tool stored: it always has days and a time
      (both are prompted for when a meeting is added); `schedule_of_day` would
      fail on a meeting without them. */
  predicate Listed(m: Meeting) {
    m.time.Some? && m.days.Some?
  }

  predicate WellFormed(sched: seq<Meeting>) {
    forall i :: 0 <= i < |sched| ==> Listed(sched[i])
  }

  /** Position `index` of the schedule, holding a meeting at `time`. */
  datatype Slot = Slot(index: nat, time: Time)

  /** `slot` really is position `slot.index` of the schedule. */
  predicate SlotOf(sched: seq<Meeting>, slot: Slot)
    requires WellFormed(sched)
  {
    slot.index < |sched| && sched[slot.index].time.value == slot.time
  }

  /** The meeting in position `i` recurs on weekday `day`. */
  predicate OnDay(sched: seq<Meeting>, i: int, day: int)
    requires WellFormed(sched)
  {
    0 <= i < |sched| && day in sched[i].days.value
  }

  /** The order a stable sort by `sorting_key` puts two meetings of a day in:
      by key (descending when `reverse`), equal keys in schedule order. Python's
      `sort(reverse=True)` keeps equal keys in their original order too. */
  predicate Precedes(reverse: bool, a: Slot, b: Slot) {
    var ka, kb := SortingKey(a.time), SortingKey(b.time);
    (if reverse then ka > kb else ka < kb) || (ka == kb && a.index < b.index)
  }

  predicate Sorted(reverse: bool, s: seq<Slot>) {
    forall a, b :: 0 <= a < b < |s| ==> Precedes(reverse, s[a], s[b])
  }

  lemma PrecedesTransitive(reverse: bool, a: Slot, b: Slot, c: Slot)
    requires Precedes(reverse, a, b) && Precedes(reverse, b, c)
    ensures Precedes(reverse, a, c)
  {
  }

  /** Any two different positions are ordered one way or the other, never both. */
  lemma PrecedesTotal(reverse: bool, a: Slot, b: Slot)
    requires a.index != b.index
    ensures Precedes(reverse, a, b) != Precedes(reverse, b, a)
  {
  }

  /** Inserts `x` into a sorted sequence at its place. */
  function Insert(reverse: bool, x: Slot, s: seq<Slot>): (r: seq<Slot>)
    requires Sorted(reverse, s)
    requires forall k :: 0 <= k < |s| ==> s[k].index != x.index
    ensures |r| == |s| + 1
    ensures forall y :: y in r <==> y == x || y in s
    ensures Sorted(reverse, r)
  {
    if |s| == 0 then [x]
    else if Precedes(reverse, x, s[0]) then
      assert forall k :: 0 < k < |s| ==> Precedes(reverse, s[0], s[k]);
      [x] + s
    else
      PrecedesTotal(reverse, x, s[0]);
      var rest := Insert(reverse, x, s[1..]);
      assert forall y :: y in rest ==> Precedes(reverse, s[0], y) by {
        forall y | y in rest ensures Precedes(reverse, s[0], y) {
          if y != x {
            var k :| 0 <= k < |s[1..]| && s[1..][k] == y;
            assert s[k + 1] == y;
          }
        }
      }
      assert forall y :: y in s <==> y == s[0] || y in s[1..] by {
        assert s == [s[0]] + s[1..];
      }
      [s[0]] + rest
  }

  /** Sorts slots of distinct positions. */
  function SortSlots(reverse: bool, xs: seq<Slot>): (r: seq<Slot>)
    requires forall a, b :: 0 <= a < b < |xs| ==> xs[a].index != xs[b].index
    ensures |r| == |xs|
    ensures forall y :: y in r <==> y in xs
    ensures Sorted(reverse, r)
  {
    if |xs| == 0 then []
    else
      var rest := SortSlots(reverse, xs[1..]);
      assert forall y :: y in xs <==> y == xs[0] || y in xs[1..] by {
        assert xs == [xs[0]] + xs[1..];
      }
      forall k | 0 <= k < |rest| ensures rest[k].index != xs[0].index {
        assert rest[k] in rest;
        var j :| 0 <= j < |xs[1..]| && xs[1..][j] == rest[k];
        assert xs[j + 1] == rest[k];
      }
      Insert(reverse, xs[0], rest)
  }

  /** The slots, in schedule order, of the meetings at positions `from` and
      later that recur on `day` (the filtering loop of `schedule_of_day`). */
  function DaySlots(sched: seq<Meeting>, day: int, from: nat): (r: seq<Slot>)
    requires WellFormed(sched)
    ensures forall k :: 0 <= k < |r| ==> SlotOf(sched, r[k]) && from <= r[k].index && OnDay(sched, r[k].index, day)
    ensures forall i :: from <= i < |sched| && OnDay(sched, i, day) ==> Slot(i, sched[i].time.value) in r
    ensures forall a, b :: 0 <= a < b < |r| ==> r[a].index < r[b].index
    decreases |sched| - from
  {
    if from >= |sched| then []
    else
      var rest := DaySlots(sched, day, from + 1);
      if OnDay(sched, from, day) then [Slot(from, sched[from].time.value)] + rest else rest
  }

  /** `schedule_of_day(day, reverse)` as positions: exactly the meetings that
      recur on `day`, each once, in stable sorting-key order (ascending, or
      descending when `reverse`), equal times kept in schedule order. */
  function DayOrder(sched: seq<Meeting>, day: int, reverse: bool): (r: seq<Slot>)
    requires WellFormed(sched)
    ensures forall k :: 0 <= k < |r| ==> SlotOf(sched, r[k]) && OnDay(sched, r[k].index, day)
    ensures forall i :: 0 <= i < |sched| && OnDay(sched, i, day) ==> Slot(i, sched[i].time.value) in r
    ensures Sorted(reverse, r)
  {
    var members := DaySlots(sched, day, 0);
    var r := SortSlots(reverse, members);
    assert forall k :: 0 <= k < |r| ==> r[k] in members;
    r
  }

  /** Two schedules that agree on every meeting's time and days. */
  predicate SameTimes(a: seq<Meeting>, b: seq<Meeting>) {
    |a| == |b| && forall i :: 0 <= i < |a| ==> a[i].time == b[i].time && a[i].days == b[i].days
  }

  lemma {:induction false} DaySlotsReadTimesOnly(a: seq<Meeting>, b: seq<Meeting>, day: int, from: nat)
    requires WellFormed(a) && WellFormed(b) && SameTimes(a, b)
    ensures DaySlots(a, day, from) == DaySlots(b, day, from)
    decreases |a| - from
  {
    if from < |a| {
      DaySlotsReadTimesOnly(a, b, day, from + 1);
    }
  }

  /** The day's order reads nothing but times and days: writing any other
      field of the cached meetings leaves it as it was. */
  lemma DayOrderReadsTimesOnly(a: seq<Meeting>, b: seq<Meeting>, day: int, reverse: bool)
    requires WellFormed(a) && WellFormed(b) && SameTimes(a, b)
    ensures DayOrder(a, day, reverse) == DayOrder(b, day, reverse)
  {
    DaySlotsReadTimesOnly(a, b, day, 0);
  }

  /** `schedule_of_day(day, reverse)`: the meeting objects in that order. */
  function ScheduleOfDay(sched: seq<Meeting>, day: int, reverse: bool): (ms: seq<Meeting>)
    requires WellFormed(sched)
  {
    var order := DayOrder(sched, day, reverse);
    seq(|order|, k requires 0 <= k < |order| => sched[order[k].index])
  }

  /** A sorted sequence cannot hold the same slot twice. */
  lemma SortedDistinct(reverse: bool, s: seq<Slot>)
    requires Sorted(reverse, s)
    ensures forall a, b :: 0 <= a < b < |s| ==> s[a] != s[b]
  {
    forall a, b | 0 <= a < b < |s| ensures s[a] != s[b] {
      assert Precedes(reverse, s[a], s[b]);
    }
  }

  /** Two sorted sequences with the same elements are the same sequence: the
      stable order of a day is determined by which meetings it holds. */
  lemma {:induction false} SortedUnique(reverse: bool, s: seq<Slot>, t: seq<Slot>)
    requires Sorted(reverse, s) && Sorted(reverse, t)
    requires forall y :: y in s <==> y in t
    ensures s == t
    decreases |s|
  {
    if |s| > 0 {
      assert s[0] in t;
    }
    if |t| > 0 {
      assert t[0] in s;
    }
    if |s| > 0 && |t| > 0 {
      assert t[0] in t && s[0] in s;
      var i :| 0 <= i < |s| && s[i] == t[0];
      var j :| 0 <= j < |t| && t[j] == s[0];
      if i > 0 && j > 0 {
        PrecedesTransitive(reverse, s[0], s[i], t[j]);
        assert false;
      }
      assert s[0] == t[0];
      SortedDistinct(reverse, s);
      SortedDistinct(reverse, t);
      forall y ensures y in s[1..] <==> y in t[1..] {
        assert y in s[1..] <==> y in s && y != s[0] by {
          assert s == [s[0]] + s[1..];
          if y in s[1..] {
            var k :| 0 <= k < |s[1..]| && s[1..][k] == y;
            assert s[k + 1] == y;
          }
        }
        assert y in t[1..] <==> y in t && y != t[0] by {
          assert t == [t[0]] + t[1..];
          if y in t[1..] {
            var k :| 0 <= k < |t[1..]| && t[1..][k] == y;
            assert t[k + 1] == y;
          }
        }
      }
      SortedUnique(reverse, s[1..], t[1..]);
      assert s == [s[0]] + s[1..] && t == [t[0]] + t[1..];
    }
  }

  /** The day's order is the only arrangement of that day's meetings that is
      sorted in the stable order: any such arrangement equals it. */
  lemma DayOrderIsTheStableSort(sched: seq<Meeting>, day: int, reverse: bool, s: seq<Slot>)
    requires WellFormed(sched)
    requires forall k :: 0 <= k < |s| ==> SlotOf(sched, s[k]) && OnDay(sched, s[k].index, day)
    requires forall i :: 0 <= i < |sched| && OnDay(sched, i, day) ==> Slot(i, sched[i].time.value) in s
    requires Sorted(reverse, s)
    ensures s == DayOrder(sched, day, reverse)
  {
    var r := DayOrder(sched, day, reverse);
    forall y ensures y in s <==> y in r {
      if y in s {
        var k :| 0 <= k < |s| && s[k] == y;
        assert Slot(y.index, sched[y.index].time.value) == y;
      }
      if y in r {
        var k :| 0 <= k < |r| && r[k] == y;
        assert Slot(y.index, sched[y.index].time.value) == y;
      }
    }
    SortedUnique(reverse, s, r);
  }

  /** In the ascending order times never decrease and in the descending order
      they never increase, (hour, minute) compared lexicographically; meetings
      at the same time keep their schedule order in both. */
  lemma DayOrderByTime(sched: seq<Meeting>, day: int, reverse: bool, a: nat, b: nat)
    requires WellFormed(sched)
    requires a < b < |DayOrder(sched, day, reverse)|
    ensures var r := DayOrder(sched, day, reverse);
      && (!reverse ==> !Earlier(r[b].time, r[a].time))
      && (reverse ==> !Earlier(r[a].time, r[b].time))
      && (r[a].time == r[b].time ==> r[a].index < r[b].index)
  {
    var r := DayOrder(sched, day, reverse);
    SortingKeyOrder(r[a].time, r[b].time);
    SortingKeyOrder(r[b].time, r[a].time);
    assert Precedes(reverse, r[a], r[b]);
  }
}
