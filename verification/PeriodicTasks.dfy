/** `PeriodicTask`: the search for the next occurrence run on `DateTime` objects,
    and the schedule of a task that switches on and off. */
module PeriodicTasks {
  import opened Options
  import opened Calendar
  import opened DateTimes
  import R = Resolver
  import opened Schedule
  import opened ScheduleProof
  import opened ScheduleLimits

  method FindsException(days: seq<DaySpec>, time: int) returns (found: bool)
    ensures found == IsException(days, time)
  {
    hide FieldsOf;
    var f := FieldsOf(time / 60);
    for i := 0 to |days|
      invariant forall k | 0 <= k < i ::
          !((days[k].year == -1 || days[k].year == f[YEAR])
            && (days[k].mon == -1 || days[k].mon == f[MONTH])
            && (days[k].day == -1 || days[k].day == f[DAY]))
    {
      if (days[i].year == -1 || days[i].year == f[YEAR])
         && (days[i].mon == -1 || days[i].mon == f[MONTH])
         && (days[i].day == -1 || days[i].day == f[DAY])
      {
        return true;
      }
    }
    return false;
  }

  /** The recursion is at most `n` calls deep. */
  method FindNextTime(start: int, next: Option<TimeSpec>, days: seq<DaySpec>, ghost n: nat) returns (time: int)
    requires next.Some? ==> FindNext(n, start, next.value, days).Done?
    ensures time == if next.None? then 0 else FindNext(n, start, next.value, days).value.Time()
    decreases n, 0, 1
  {
    hide FieldsOf, Minutes, R.TryResolve, R.SetField, IsException;
    if next.None? {
      return 0;
    }
    var spec := next.value;
    if !IsValid(spec) {
      return 0;
    }
    // The search begins with the minute after `start`.
    var timeinfo := FirstMinute(start);
    // A weekday constraint replaces the date.
    var year, month, day := spec.year, spec.mon, spec.day;
    if spec.wdays != {} {
      year, month, day := -1, -1, -1;
    }
    var current := new DateTime(timeinfo);
    var target := new DateTime(timeinfo);
    // The given fields of the date are fixed, the others freed.
    target.SetField(YEAR, year, true);
    target.SetField(MONTH, month, true);
    target.SetField(DAY, day, true);
    target.weekdays := spec.wdays;
    assert target.Value() == DateTarget(spec, timeinfo);
    var date := target.TryResolve(current, YEAR, DAY, n);
    match date {
      case Resolved =>
      case Unresolved =>
        time := GoToNextDayAndFindNextTime(target, spec, days, n - 1);
        return;
      case Impossible =>
        return 0;
    }
    // The same for the time of day, on the date found.
    ghost var s := target.Value();
    target.SetField(HOUR, spec.hour, true);
    target.SetField(MINUTE, spec.min, true);
    assert target.Value() == TimeTarget(spec, s);
    var hour := target.TryResolve(current, HOUR, MINUTE, n);
    match hour {
      case Resolved =>
      case Unresolved =>
        time := GoToNextDayAndFindNextTime(target, spec, days, n - 1);
        return;
      case Impossible =>
        return 0;
    }
    assert FindNext(n, start, spec, days) == Deliver(n, start, spec, days, target.Value());
    time := DeliverTime(target, start, spec, days, n);
  }

  /** The end of the search: exception days and the offset. */
  method DeliverTime(target: DateTime, start: int, spec: TimeSpec, days: seq<DaySpec>, ghost n: nat)
    returns (time: int)
    requires n > 0 && target.Valid() && Deliver(n, start, spec, days, target.Value()).Done?
    ensures time == Deliver(n, start, spec, days, target.Value()).value.Time()
    decreases n, 0, 0
  {
    hide FieldsOf, Minutes, R.TryResolve, R.SetField, IsException, FindNext;
    var nextExecTime := Minutes(target.fields[..]) * 60;
    if nextExecTime <= start {
      return 0;
    }
    if spec.exception != DontCare {
      var isException := FindsException(days, nextExecTime);
      if (isException && spec.exception == No) || (!isException && spec.exception == Yes) {
        time := GoToNextDayAndFindNextTime(target, spec, days, n - 1);
        return;
      }
    }
    // An occurrence shifted to `start` or before is passed over.
    var withOffset := nextExecTime + spec.offset;
    if withOffset <= start {
      time := FindNextTime(nextExecTime, Some(spec), days, n - 1);
    } else {
      time := withOffset;
    }
  }

  /** Fast forward to 23:59 the same day, so that the next call switches to the
      next day. */
  method GoToNextDayAndFindNextTime(current: DateTime, spec: TimeSpec, days: seq<DaySpec>, ghost n: nat)
    returns (time: int)
    requires current.Valid() && FindNext(n, EndOfDay(current.Value()), spec, days).Done?
    ensures time == FindNext(n, EndOfDay(current.Value()), spec, days).value.Time()
    decreases n, 1
  {
    hide FieldsOf, Minutes;
    var timeinfo := FieldsOf(Minutes(current.fields[..]));
    timeinfo := timeinfo[HOUR := 23][MINUTE := 59];
    time := FindNextTime(Minutes(timeinfo) * 60, Some(spec), days, n);
  }

  // ------------------------------------------------------------ the schedule

  /** A search for `next` from `start` ends. */
  ghost predicate SearchEnds(start: int, next: Option<TimeSpec>, days: seq<DaySpec>) {
    next.Some? ==> exists o :: Returns(start, next.value, days, o)
  }

  /** The time `findNext` returns. */
  ghost function NextTime(start: int, next: Option<TimeSpec>, days: seq<DaySpec>): int {
    if next.Some? && exists o :: Returns(start, next.value, days, o) then
      var o :| Returns(start, next.value, days, o);
      o.Time()
    else 0
  }

  method FindNextOf(start: int, next: Option<TimeSpec>, days: seq<DaySpec>) returns (time: int)
    requires SearchEnds(start, next, days)
    ensures time == NextTime(start, next, days)
  {
    hide FindNext;
    ghost var n: nat := 0;
    if next.Some? {
      ghost var o :| Returns(start, next.value, days, o);
      n :| FindNext(n, start, next.value, days) == R.Done(o);
      ReturnedIsNext(start, next.value, days, o);
    }
    time := FindNextTime(start, next, days, n);
  }

  lemma ReturnedIsNext(start: int, spec: TimeSpec, days: seq<DaySpec>, o: Outcome)
    requires Returns(start, spec, days, o)
    ensures NextTime(start, Some(spec), days) == o.Time()
  {
    hide Returns;
    forall o' | Returns(start, spec, days, o')
      ensures o' == o
    {
      OneOutcome(start, spec, days, o, o');
    }
  }

  /** A specification that is not accepted is never scheduled. */
  lemma InvalidIsNever(start: int, spec: TimeSpec, days: seq<DaySpec>)
    requires !IsValid(spec)
    ensures SearchEnds(start, Some(spec), days) && NextTime(start, Some(spec), days) == 0
    ensures NextTime(start, None, days) == 0
  {
    hide IsValid;
    assert FindNext(1, start, spec, days) == R.Done(InvalidSpec);
    assert Returns(start, spec, days, InvalidSpec);
    ReturnedIsNext(start, spec, days, InvalidSpec);
  }

  /** The settings of a task; a delay of -1 is not given. */
  datatype Settings = Settings(at: Option<TimeSpec>, until: Option<TimeSpec>, during: int, after: int)

  /** Whether the task is on, and when its next event is due (0 for never). */
  datatype Timing = Timing(value: bool, next: int)

  /** The first schedule decides whether the task must be on right now. */
  ghost function FirstTiming(plan: Settings, now: int, days: seq<DaySpec>): Timing {
    var stop :=
      if plan.during == -1 then NextTime(now, plan.until, days)
      else if plan.after == -1 then NextTime(now - plan.during, plan.at, days) + plan.during
      else now + plan.during;
    var start := if plan.after != -1 then now + plan.after else NextTime(now, plan.at, days);
    if stop < start then Timing(true, stop) else Timing(false, start)
  }

  ghost function NextTiming(plan: Settings, value: bool, now: int, days: seq<DaySpec>): Timing {
    Timing(value,
           if value then if plan.during != -1 then now + plan.during else NextTime(now, plan.until, days)
           else if plan.after != -1 then now + plan.after else NextTime(now, plan.at, days))
  }

  ghost function Rescheduled(plan: Settings, t: Timing, now: int, days: seq<DaySpec>): Timing {
    if t.next == 0 && plan.during != 0 then FirstTiming(plan, now, days) else NextTiming(plan, t.value, now, days)
  }

  /** The searches that rescheduling starts end. */
  ghost predicate SearchesEnd(plan: Settings, t: Timing, now: int, days: seq<DaySpec>) {
    if t.next == 0 && plan.during != 0 then
      && (plan.during == -1 ==> SearchEnds(now, plan.until, days))
      && (plan.during != -1 && plan.after == -1 ==> SearchEnds(now - plan.during, plan.at, days))
      && (plan.after == -1 ==> SearchEnds(now, plan.at, days))
    else if t.value then plan.during == -1 ==> SearchEnds(now, plan.until, days)
    else plan.after == -1 ==> SearchEnds(now, plan.at, days)
  }

  class PeriodicTask {
    const at: Option<TimeSpec>
    const until: Option<TimeSpec>
    const during: int
    const after: int
    var nextExecTime: int
    var value: bool
    /** The values the listener has been told of. */
    var told: seq<bool>

    constructor (plan: Settings)
      ensures Plan() == plan && Now() == Timing(false, 0) && told == []
    {
      at, until, during, after := plan.at, plan.until, plan.during, plan.after;
      nextExecTime, value, told := 0, false, [];
    }

    function Plan(): Settings {
      Settings(at, until, during, after)
    }

    function Now(): Timing
      reads this
    {
      Timing(value, nextExecTime)
    }

    method OnTimer(time: int)
      modifies this
      ensures nextExecTime == old(nextExecTime)
      ensures value == (!old(value) && during != 0)
      ensures told == old(told) + if during == 0 && !old(value) then [true, false] else [!old(value)]
    {
      value := !value;
      told := told + [value];
      if during == 0 && value {
        value := false;
        told := told + [value];
      }
    }

    /** `clock` is the current time, used when the caller passes none. The searches
        this may start must end. */
    method Reschedule(from: int, clock: int, days: seq<DaySpec>)
      requires SearchesEnd(Plan(), Now(), if from == 0 then clock else from, days)
      modifies this
      ensures Now() == Rescheduled(Plan(), old(Now()), if from == 0 then clock else from, days)
      ensures told == old(told)
    {
      hide NextTime, SearchEnds;
      var now := if from == 0 then clock else from;
      if nextExecTime == 0 && during != 0 {
        // An occurrence may be under way already.
        var start, stop;
        if during != -1 {
          if after == -1 {
            stop := FindNextOf(now - during, at, days);
            stop := stop + during;
          } else {
            stop := now + during;
          }
        } else {
          stop := FindNextOf(now, until, days);
        }
        if after != -1 {
          start := now + after;
        } else {
          start := FindNextOf(now, at, days);
        }
        if stop < start {
          value := true;
          nextExecTime := stop;
        } else {
          value := false;
          nextExecTime := start;
        }
      } else if value {
        if during != -1 {
          nextExecTime := now + during;
        } else {
          nextExecTime := FindNextOf(now, until, days);
        }
      } else {
        if after != -1 {
          nextExecTime := now + after;
        } else {
          nextExecTime := FindNextOf(now, at, days);
        }
      }
    }
  }

  // ------------------------------------------- when a task starts switched on

  /** An `at` specification the search gets right, without offset. */
  ghost predicate Plain(spec: TimeSpec) {
    WellFormed(spec) && !Collides(spec) && spec.offset == 0
  }

  /** `time` is an occurrence of the specification, in seconds. */
  predicate Occurs(spec: TimeSpec, days: seq<DaySpec>, time: int) {
    time % 60 == 0 && Qualifies(spec, days, time / 60)
  }

  ghost predicate OccursFirst(spec: TimeSpec, days: seq<DaySpec>, start: int, time: int) {
    && time > start && Occurs(spec, days, time)
    && forall t :: t > start && Occurs(spec, days, t) ==> time <= t
  }

  ghost predicate OccursAfter(spec: TimeSpec, days: seq<DaySpec>, start: int) {
    exists t :: t > start && Occurs(spec, days, t)
  }

  /** The search ends for a plain specification: it returns the first occurrence,
      or 0 when there is none. */
  lemma PlainNext(spec: TimeSpec, days: seq<DaySpec>, start: int)
    requires Plain(spec) && start >= 0 && (YearGiven(spec) || OccursAfter(spec, days, start))
    ensures SearchEnds(start, Some(spec), days)
    ensures var t := NextTime(start, Some(spec), days);
            if OccursAfter(spec, days, start) then OccursFirst(spec, days, start, t) else t == 0
  {
    hide NextTime, FindNext, Qualifies, Collides, WellFormed, Returns;
    if !YearGiven(spec) {
      var t :| t > start && Occurs(spec, days, t);
      assert t / 60 * 60 > start && Qualifies(spec, days, t / 60);
    }
    var o := FindNextIsNext(start, spec, days);
    ReturnedIsNext(start, spec, days, o);
    match o
    case At(time) =>
      assert Occurs(spec, days, time);
      forall t | t > start && Occurs(spec, days, t)
        ensures time <= t
      {
        assert t / 60 * 60 > start && Qualifies(spec, days, t / 60);
      }
    case NoSchedule =>
      forall t | t > start
        ensures !Occurs(spec, days, t)
      {
        assert t % 60 == 0 ==> t / 60 * 60 > start;
      }
  }

  /** A task with an `at` specification and a duration starts switched on exactly
      when the first occurrence since `now - d` is not after `now` and ends before
      the occurrence that follows; then it is due at that end. Otherwise it is due
      at the next occurrence, if any. */
  lemma FirstSchedule(plan: Settings, spec: TimeSpec, days: seq<DaySpec>, now: int, on: int, next: int)
    requires plan.at == Some(spec) && plan.after == -1 && plan.during > 0 && now >= plan.during
    requires Plain(spec)
    requires OccursFirst(spec, days, now - plan.during, on) && on <= now
    ensures OccursFirst(spec, days, now, next) ==>
              FirstTiming(plan, now, days)
              == if on + plan.during < next then Timing(true, on + plan.during) else Timing(false, next)
    ensures YearGiven(spec) && !OccursAfter(spec, days, now) ==> FirstTiming(plan, now, days) == Timing(false, 0)
  {
    hide NextTime, Plain, Occurs;
    PlainNext(spec, days, now - plan.during);
    if OccursFirst(spec, days, now, next) || YearGiven(spec) {
      PlainNext(spec, days, now);
    }
  }

  lemma FirstScheduleOff(plan: Settings, spec: TimeSpec, days: seq<DaySpec>, now: int)
    requires plan.at == Some(spec) && plan.after == -1 && plan.during > 0 && now >= plan.during
    requires Plain(spec) && (YearGiven(spec) || OccursAfter(spec, days, now))
    requires !exists t :: now - plan.during < t <= now && Occurs(spec, days, t)
    ensures FirstTiming(plan, now, days) == Timing(false, NextTime(now, plan.at, days))
  {
    hide NextTime, Plain, Occurs;
    PlainNext(spec, days, now);
    if OccursAfter(spec, days, now) {
      var t :| t > now && Occurs(spec, days, t);
    }
    PlainNext(spec, days, now - plan.during);
  }

  /** Occurrences are more than `d` apart. */
  ghost predicate Spaced(spec: TimeSpec, days: seq<DaySpec>, d: int) {
    forall t, u :: Occurs(spec, days, t) && Occurs(spec, days, u) && t < u ==> t + d < u
  }

  /** With occurrences more than the duration apart and another one to come, the
      task starts on exactly when an occurrence lies in `(now - d, now]`. */
  lemma StartsOnIff(plan: Settings, spec: TimeSpec, days: seq<DaySpec>, now: int)
    requires plan.at == Some(spec) && plan.after == -1 && plan.during > 0 && now >= plan.during
    requires Plain(spec) && OccursAfter(spec, days, now) && Spaced(spec, days, plan.during)
    ensures var t := FirstTiming(plan, now, days);
            && (t.value <==> exists u :: now - plan.during < u <= now && Occurs(spec, days, u))
            && (if t.value
                then now - plan.during < t.next - plan.during <= now && Occurs(spec, days, t.next - plan.during)
                else OccursFirst(spec, days, now, t.next))
  {
    hide NextTime, Plain, Occurs, FirstTiming;
    PlainNext(spec, days, now);
    var next := NextTime(now, plan.at, days);
    if exists u :: now - plan.during < u <= now && Occurs(spec, days, u) {
      var u :| now - plan.during < u <= now && Occurs(spec, days, u);
      PlainNext(spec, days, now - plan.during);
      var on := NextTime(now - plan.during, plan.at, days);
      assert on <= u;
      FirstSchedule(plan, spec, days, now, on, next);
    } else {
      FirstScheduleOff(plan, spec, days, now);
    }
  }

  // -------------------------------------------------- switching on and off again

  /** The timing after the event of a task fires on time and the task is put back. */
  ghost function AfterEvent(plan: Settings, t: Timing, days: seq<DaySpec>): Timing {
    Rescheduled(plan, Timing(!t.value && plan.during != 0, t.next), t.next, days)
  }

  /** From an occurrence, a task goes on for its duration and then waits for the
      very next occurrence: none is missed. */
  lemma OnThenOff(plan: Settings, spec: TimeSpec, days: seq<DaySpec>, time: int)
    requires plan.at == Some(spec) && plan.after == -1 && plan.during > 0
    requires Plain(spec) && Spaced(spec, days, plan.during) && time > 0 && Occurs(spec, days, time)
    requires YearGiven(spec) || OccursAfter(spec, days, time)
    ensures AfterEvent(plan, Timing(false, time), days) == Timing(true, time + plan.during)
    ensures var t := AfterEvent(plan, Timing(true, time + plan.during), days);
            !t.value && if OccursAfter(spec, days, time) then OccursFirst(spec, days, time, t.next) else t.next == 0
  {
    hide NextTime, Plain, Occurs;
    if OccursAfter(spec, days, time) {
      var u :| u > time && Occurs(spec, days, u);
      assert u > time + plan.during;
    }
    PlainNext(spec, days, time + plan.during);
  }

  /** The search for a specification, if any, ends with the first occurrence or 0. */
  ghost predicate Searchable(next: Option<TimeSpec>, days: seq<DaySpec>, start: int) {
    next.Some? ==> Plain(next.value) && (YearGiven(next.value) || OccursAfter(next.value, days, start))
  }

  ghost predicate IsLeft(next: Option<TimeSpec>, days: seq<DaySpec>, start: int) {
    next.Some? && OccursAfter(next.value, days, start)
  }

  lemma NextOrNever(next: Option<TimeSpec>, days: seq<DaySpec>, start: int)
    requires Searchable(next, days, start) && start >= 0
    ensures SearchEnds(start, next, days)
    ensures IsNextTime(next, days, start, NextTime(start, next, days))
    ensures var t := NextTime(start, next, days);
            if IsLeft(next, days, start) then t > start else t == 0
  {
    if next.Some? {
      hide NextTime, SearchEnds, Plain, Occurs;
      PlainNext(next.value, days, start);
    }
  }

  /** `t` is the first occurrence after `start`, or 0 when there is none. */
  ghost predicate IsNextTime(next: Option<TimeSpec>, days: seq<DaySpec>, start: int, t: int) {
    if IsLeft(next, days, start) then OccursFirst(next.value, days, start, t) else t == 0
  }

  // -------------------------------------------- until a time, and after a delay

  /** A task that is on goes off after its duration, or at the first occurrence of its
      `until` specification. */
  lemma OnEnds(plan: Settings, days: seq<DaySpec>, t: Timing, now: int)
    requires now >= 0 && t.value && (t.next != 0 || plan.during == 0)
    requires plan.during == -1 ==> Searchable(plan.until, days, now)
    ensures var r := Rescheduled(plan, t, now, days);
            r.value && if plan.during == -1 then IsNextTime(plan.until, days, now, r.next)
                       else r.next == now + plan.during
  {
    hide NextTime, Occurs;
    if plan.during == -1 {
      NextOrNever(plan.until, days, now);
    }
  }

  /** A task that is off goes on after its delay, or at the first occurrence of its `at`
      specification. */
  lemma OffEnds(plan: Settings, days: seq<DaySpec>, t: Timing, now: int)
    requires now >= 0 && !t.value && (t.next != 0 || plan.during == 0)
    requires plan.after == -1 ==> Searchable(plan.at, days, now)
    ensures var r := Rescheduled(plan, t, now, days);
            !r.value && if plan.after == -1 then IsNextTime(plan.at, days, now, r.next)
                        else r.next == now + plan.after
  {
    hide NextTime, Occurs;
    if plan.after == -1 {
      NextOrNever(plan.at, days, now);
    }
  }

  /** A first schedule with an `until` specification is on exactly when the task has a
      start to come and the first `until`, if there is one, precedes it. It is then due at
      that `until`, and otherwise at that start. */
  lemma FirstUntil(plan: Settings, days: seq<DaySpec>, value: bool, now: int, stop: int, start: int)
    requires plan.during == -1 && plan.after >= -1 && now > 0
    requires Searchable(plan.until, days, now) && IsNextTime(plan.until, days, now, stop)
    requires if plan.after == -1 then Searchable(plan.at, days, now) && IsNextTime(plan.at, days, now, start)
             else start == now + plan.after
    ensures var r := Rescheduled(plan, Timing(value, 0), now, days);
            && (r.value <==> (plan.after == -1 ==> IsLeft(plan.at, days, now))
                             && (IsLeft(plan.until, days, now) ==> stop < start))
            && r.next == if r.value then stop else start
  {
    hide NextTime, Occurs;
    NextOrNever(plan.until, days, now);
    if plan.after == -1 {
      NextOrNever(plan.at, days, now);
    }
  }

  /** A first schedule with two delays is on exactly when the task goes off first. */
  lemma FirstDelays(plan: Settings, days: seq<DaySpec>, value: bool, now: int)
    requires plan.during > 0 && plan.after >= 0
    ensures Rescheduled(plan, Timing(value, 0), now, days)
            == if plan.during < plan.after then Timing(true, now + plan.during) else Timing(false, now + plan.after)
  {
  }

  /** From its start, a task is on until the very next `until`, and then off until the
      very next start. */
  lemma OnUntil(plan: Settings, days: seq<DaySpec>, time: int)
    requires plan.during == -1 && time > 0 && Searchable(plan.until, days, time)
    ensures var t := AfterEvent(plan, Timing(false, time), days);
            && t.value && IsNextTime(plan.until, days, time, t.next)
            && (t.next > 0 && (plan.after == -1 ==> Searchable(plan.at, days, t.next)) ==>
                  var u := AfterEvent(plan, t, days);
                  !u.value && if plan.after == -1 then IsNextTime(plan.at, days, t.next, u.next)
                              else u.next == t.next + plan.after)
  {
    hide NextTime, Occurs;
    OnEnds(plan, days, Timing(true, time), time);
    var t := AfterEvent(plan, Timing(false, time), days);
    if t.next > 0 && (plan.after == -1 ==> Searchable(plan.at, days, t.next)) {
      OffEnds(plan, days, Timing(false, t.next), t.next);
    }
  }

  // ------------------------------------------------------ when a task is due next

  /** The next event is due at once: the delay that decides it is 0. */
  ghost predicate AtOnce(plan: Settings, t: Timing, now: int, days: seq<DaySpec>) {
    if t.next == 0 && plan.during != 0 then plan.after == 0 && (plan.during == -1 ==> IsLeft(plan.until, days, now))
    else if t.value then plan.during == 0
    else plan.after == 0
  }

  /** Rescheduling a task puts it in the queue at a later time or not at all, unless a
      delay of 0 makes it due at once. */
  lemma RescheduledLaterIff(plan: Settings, days: seq<DaySpec>, t: Timing, now: int)
    requires plan.during >= -1 && plan.after >= -1 && now > 0
    requires Searchable(plan.at, days, now) && Searchable(plan.until, days, now)
    requires plan.after == -1 && plan.at.Some? ==> now >= plan.during
    ensures SearchesEnd(plan, t, now, days)
    ensures var next := Rescheduled(plan, t, now, days).next;
            (next == 0 || next > now) <==> !AtOnce(plan, t, now, days)
  {
    hide NextTime, SearchEnds, Plain, Occurs;
    NextOrNever(plan.at, days, now);
    NextOrNever(plan.until, days, now);
    if plan.after == -1 && plan.during > 0 {
      SearchedEarlier(plan.at, days, now - plan.during, now);
    }
  }

  lemma SearchedEarlier(next: Option<TimeSpec>, days: seq<DaySpec>, start: int, now: int)
    requires Searchable(next, days, now) && start < now && (next.Some? ==> start >= 0)
    ensures SearchEnds(start, next, days) && (IsLeft(next, days, now) ==> IsLeft(next, days, start))
    ensures var t := NextTime(start, next, days);
            if IsLeft(next, days, start) then t > start else t == 0
  {
    if next.Some? {
      if OccursAfter(next.value, days, now) {
        var u :| u > now && Occurs(next.value, days, u);
      }
      NextOrNever(next, days, start);
    }
  }
}
