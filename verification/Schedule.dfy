/** Time specifications and the search for their next occurrence, as functions.
    Class `PeriodicTask` in module `PeriodicTasks` runs the same search. Times
    are in seconds since 1970-01-01 00:00 UTC; in a specification, -1 stands for
    a field that is not given. */
module Schedule {
  import opened Calendar
  import opened Resolver

  datatype Exceptions = No | Yes | DontCare

  /** `wdays` holds the allowed days of the week, Monday being 0; the empty set
      stands for no constraint. `offset` is in seconds. */
  datatype TimeSpec = TimeSpec(min: int, hour: int, day: int, mon: int, year: int,
                               wdays: set<int>, offset: int, exception: Exceptions)

  datatype DaySpec = DaySpec(day: int, mon: int, year: int)

  /** What a search for the next occurrence ends with. All but `At` are returned
      to the caller as time 0. */
  datatype Outcome = At(time: int) | NoSchedule | InvalidSpec | TimerError {
    function Time(): int {
      if At? then time else 0
    }
  }

  predicate IsValid(spec: TimeSpec) {
    if spec.day != -1 && spec.mon != -1 && spec.year != -1 then
      var n := FieldsOf(Minutes([spec.year, spec.mon, spec.day, 0, 0]));
      n[YEAR] == spec.year && n[MONTH] == spec.mon && n[DAY] == spec.day
    else
      && (spec.mon != -1 ==> 0 <= spec.mon <= 11)
      && (spec.day != -1 ==> 1 <= spec.day <= LongestMonth(spec.mon))
      && (spec.hour != -1 ==> 0 <= spec.hour <= 23)
      && (spec.min != -1 ==> 0 <= spec.min <= 59)
  }

  /** The length of month `mon` in its longest year, or of the longest month. */
  function LongestMonth(mon: int): int {
    if mon == 1 then 29
    else if mon == 3 || mon == 5 || mon == 8 || mon == 10 then 30
    else 31
  }

  predicate IsException(days: seq<DaySpec>, time: int) {
    var f := FieldsOf(time / 60);
    exists i | 0 <= i < |days| ::
      && (days[i].year == -1 || days[i].year == f[YEAR])
      && (days[i].mon == -1 || days[i].mon == f[MONTH])
      && (days[i].day == -1 || days[i].day == f[DAY])
  }

  /** The minute after the one `start` lies in. */
  function FirstMinute(start: int): Fields {
    var f := FieldsOf(start / 60);
    FieldsOf(Minutes(f[MINUTE := f[MINUTE] + 1]))
  }

  /** The target of the search for the date. Days of the week take the place of
      year, month and day. */
  function DateTarget(spec: TimeSpec, cur: Fields): State {
    var given := spec.wdays == {};
    var s := State(cur, {0, 1, 2, 3, 4}, {});
    var s := SetField(s, YEAR, if given then spec.year else -1, true);
    var s := SetField(s, MONTH, if given then spec.mon else -1, true);
    var s := SetField(s, DAY, if given then spec.day else -1, true);
    s.(wd := spec.wdays)
  }

  /** The target of the search for the time of day, from the date found. */
  function TimeTarget(spec: TimeSpec, s: State): State {
    SetField(SetField(s, HOUR, spec.hour, true), MINUTE, spec.min, true)
  }

  /** 23:59 on the day of the target, in seconds. */
  function EndOfDay(s: State): int {
    var f := FieldsOf(Minutes(s.f));
    Minutes(f[HOUR := 23][MINUTE := 59]) * 60
  }

  /** The recursion of `findNext`, within `n` calls. */
  function FindNext(n: nat, start: int, spec: TimeSpec, days: seq<DaySpec>): Run<Outcome>
    decreases n, 1
  {
    if n == 0 then Running
    else if !IsValid(spec) then Done(InvalidSpec)
    else
      var cur := FirstMinute(start);
      match TryResolve(n, DateTarget(spec, cur), cur, YEAR, DAY)
      case Running => Running
      case Done((s, Unresolved)) => FindNext(n - 1, EndOfDay(s), spec, days)
      case Done((_, Impossible)) => Done(NoSchedule)
      case Done((s, Resolved)) =>
        match TryResolve(n, TimeTarget(spec, s), cur, HOUR, MINUTE)
        case Running => Running
        case Done((t, Unresolved)) => FindNext(n - 1, EndOfDay(t), spec, days)
        case Done((_, Impossible)) => Done(NoSchedule)
        case Done((t, Resolved)) => Deliver(n, start, spec, days, t)
  }

  /** The end of `findNext` once a calendar time is found: exception days and the
      offset. */
  function Deliver(n: nat, start: int, spec: TimeSpec, days: seq<DaySpec>, t: State): Run<Outcome>
    requires n > 0
    decreases n, 0
  {
    var next := Minutes(t.f) * 60;
    var isException := IsException(days, next);
    if next <= start then Done(TimerError)
    else if (isException && spec.exception == No) || (!isException && spec.exception == Yes) then
      FindNext(n - 1, EndOfDay(t), spec, days)
    else if next + spec.offset <= start then FindNext(n - 1, next, spec, days)
    else Done(At(next + spec.offset))
  }
}
