/** Why `findNext` returns the next occurrence of a time specification. */
module ScheduleProof {
  import opened Calendar
  import opened Resolver
  import opened ResolverProof
  import opened Schedule

  // ------------------------------------------------------------- occurrences

  predicate Meets(given: int, actual: int) {
    given == -1 || actual == given
  }

  /** Days of the week take the place of the date. Instants are in minutes. */
  predicate MatchesDate(spec: TimeSpec, t: int) {
    if spec.wdays != {} then Weekday(t) in spec.wdays
    else
      var f := FieldsOf(t);
      Meets(spec.year, f[YEAR]) && Meets(spec.mon, f[MONTH]) && Meets(spec.day, f[DAY])
  }

  predicate MatchesTime(spec: TimeSpec, t: int) {
    Meets(spec.hour, FieldsOf(t)[HOUR]) && Meets(spec.min, FieldsOf(t)[MINUTE])
  }

  predicate Matches(spec: TimeSpec, t: int) {
    MatchesDate(spec, t) && MatchesTime(spec, t)
  }

  /** The fields are a calendar time with every given field of a specification, its days
      of the week left aside. */
  predicate IsTimeOf(spec: TimeSpec, f: Fields) {
    && Proper(f)
    && Meets(spec.year, f[YEAR]) && Meets(spec.mon, f[MONTH]) && Meets(spec.day, f[DAY])
    && Meets(spec.hour, f[HOUR]) && Meets(spec.min, f[MINUTE])
  }

  /** Some calendar time has every given field, and the days of the week are such. */
  ghost predicate WellFormed(spec: TimeSpec) {
    spec.wdays <= {0, 1, 2, 3, 4, 5, 6} && exists f :: IsTimeOf(spec, f)
  }

  /** The same in terms of ranges: what `isValid` accepts, with the range of the time of
      day checked also when the full date is given. */
  predicate InRange(spec: TimeSpec) {
    && IsValid(spec)
    && spec.wdays <= {0, 1, 2, 3, 4, 5, 6}
    && (spec.hour == -1 || 0 <= spec.hour <= 23)
    && (spec.min == -1 || 0 <= spec.min <= 59)
  }

  predicate DateGiven(spec: TimeSpec) {
    spec.year != -1 && spec.mon != -1 && spec.day != -1
  }

  /** A calendar time with every given field that `isValid` looks at: next to a full date,
      it does not look at the time of day. */
  predicate IsCheckedTimeOf(spec: TimeSpec, f: Fields) {
    IsTimeOf(if DateGiven(spec) then spec.(hour := -1, min := -1) else spec, f)
  }

  /** `isValid` accepts a specification exactly when some calendar time has every given
      field that it looks at. */
  lemma ValidIff(spec: TimeSpec)
    ensures IsValid(spec) <==> exists f :: IsCheckedTimeOf(spec, f)
  {
    hide FieldsOf, Minutes;
    if IsValid(spec) {
      var f := SomeTimeOf(spec);
      assert IsCheckedTimeOf(spec, f);
    }
    if exists f :: IsCheckedTimeOf(spec, f) {
      var f :| IsCheckedTimeOf(spec, f);
      MktimeKeepsProper([f[0], f[1], f[2], 0, 0]);
    }
  }

  lemma SomeTimeOf(spec: TimeSpec) returns (f: Fields)
    requires IsValid(spec)
    ensures IsCheckedTimeOf(spec, f)
  {
    hide FieldsOf, Minutes;
    var time := spec.(hour := GivenOr(spec.hour, 0), min := GivenOr(spec.min, 0));
    if DateGiven(spec) {
      f := [spec.year, spec.mon, spec.day, 0, 0];
      FieldsOfProper(Minutes(f));
    } else {
      f := [GivenOr(spec.year, 72), GivenOr(spec.mon, 0), GivenOr(spec.day, 1), time.hour, time.min];
    }
  }

  lemma WellFormedIff(spec: TimeSpec)
    ensures WellFormed(spec) <==> InRange(spec)
  {
    hide IsValid;
    ValidIff(spec);
    if InRange(spec) {
      var f :| IsCheckedTimeOf(spec, f);
      var g := f[HOUR := GivenOr(spec.hour, f[HOUR])][MINUTE := GivenOr(spec.min, f[MINUTE])];
      assert IsTimeOf(spec, g);
    }
    if WellFormed(spec) {
      var f :| IsTimeOf(spec, f);
      assert IsCheckedTimeOf(spec, f);
    }
  }

  /** The given time of day can already be over on its own day. */
  predicate CanBeOver(spec: TimeSpec) {
    if spec.hour == -1 then spec.min != -1 && spec.min < 59
    else spec.hour < 23 || (spec.min != -1 && spec.min < 59)
  }

  /** The shapes of specifications that the search gets wrong: when the time of
      day is over, the carry into the next day meets a given field after it has
      already changed a field above. */
  predicate Collides(spec: TimeSpec) {
    && spec.wdays == {} && CanBeOver(spec)
    && (|| (spec.mon == 11 && spec.year == -1 && (spec.day == -1 || (spec.day == 31 && spec.hour == -1)))
        || (spec.hour == -1 && spec.mon == -1 && spec.day != -1
            && (spec.year == -1 || spec.year >= 70)
            && EndsSomeMonth(spec.day, spec.year == -1, spec.year)))
  }

  // ------------------------------------------------------------- the targets

  lemma FirstMinuteIs(start: int)
    requires start >= 0
    ensures FirstMinute(start) == FieldsOf(start / 60 + 1)
    ensures Proper(FirstMinute(start)) && Minutes(FirstMinute(start)) == start / 60 + 1
    ensures FirstMinute(start)[0] >= 70
  {
    hide FieldsOf, Minutes;
    FieldsOfProper(start / 60);
    FieldsOfProper(start / 60 + 1);
    AfterEpoch(start / 60 + 1);
    NextMinute(FieldsOf(start / 60));
  }

  lemma NextMinute(f: Fields)
    ensures Minutes(f[MINUTE := f[MINUTE] + 1]) == Minutes(f) + 1
  {
    hide DayNumber;
  }

  lemma AfterEpoch(t: int)
    requires t >= 0
    ensures FieldsOf(t)[0] >= 70
  {
    if FieldsOf(t)[0] < 70 {
      FieldsOfProper(t);
      LaterDate(FieldsOf(t)[0], FieldsOf(t)[1], FieldsOf(t)[2], 70, 0, 1);
    }
  }

  lemma FullDateExists(spec: TimeSpec)
    requires IsValid(spec) && spec.year != -1 && spec.mon != -1 && spec.day != -1
    ensures 0 <= spec.mon <= 11 && 1 <= spec.day <= DaysInMonth(spec.year, spec.mon)
  {
    FieldsOfProper(Minutes([spec.year, spec.mon, spec.day, 0, 0]));
  }

  /** The value of the first target. */
  function GivenOr(given: int, value: int): int {
    if given == -1 then value else given
  }

  function FirstFields(spec: TimeSpec, cur: Fields): Fields {
    if spec.wdays != {} then cur
    else if spec.year != -1 then [spec.year, GivenOr(spec.mon, 0), GivenOr(spec.day, 1), 0, 0]
    else if spec.mon != -1 then [cur[0], spec.mon, GivenOr(spec.day, 1), 0, 0]
    else if spec.day != -1 then [cur[0], cur[1], spec.day, 0, 0]
    else cur
  }

  lemma DateTargetIs(spec: TimeSpec, cur: Fields)
    ensures var s := DateTarget(spec, cur);
            && s.f == FirstFields(spec, cur) && s.wd == spec.wdays
            && (0 in s.free <==> spec.wdays != {} || spec.year == -1)
            && (1 in s.free <==> spec.wdays != {} || spec.mon == -1)
            && (2 in s.free <==> spec.wdays != {} || spec.day == -1)
            && 3 in s.free && 4 in s.free
  {
    var s := DateTarget(spec, cur);
    assert s.f == [s.f[0], s.f[1], s.f[2], s.f[3], s.f[4]];
    assert cur == [cur[0], cur[1], cur[2], cur[3], cur[4]];
  }

  lemma DateTargetReady(spec: TimeSpec, cur: Fields)
    requires InRange(spec) && Proper(cur) && cur[0] >= 70
    ensures var s := DateTarget(spec, cur);
            && Sane(s, cur) && Settled(s, cur) && Bound(s, cur) && Safe(s)
            && 3 in s.free && 4 in s.free
            && forall t :: Fits(s, t) <==> MatchesDate(spec, t)
  {
    hide FieldsOf, Minutes, DateTarget;
    var s := DateTarget(spec, cur);
    DateTargetIs(spec, cur);
    if spec.year != -1 && spec.mon != -1 && spec.day != -1 {
      FullDateExists(spec);
    }
    forall t | t >= Minutes(cur) && Fits(s, t)
      ensures Minutes(s.f) <= t
    {
      FromCur(cur, t);
      CalmBound(s.f, FieldsOf(t));
    }
  }

  /** The search for the time of day starts from the date found, and the carry
      it may need is harmless unless the specification collides. */
  lemma TimeTargetReady(spec: TimeSpec, cur: Fields, s: State)
    requires InRange(spec) && !Collides(spec) && Proper(cur) && cur[0] >= 70
    requires Placed(s, DateTarget(spec, cur), cur, DAY)
    ensures var t := TimeTarget(spec, s);
            && Sane(t, cur) && Settled(t, cur) && Bound(t, cur) && Safe(t) && Ahead(t.f, cur, DAY)
            && forall i :: Fits(t, i) <==> MatchesDate(spec, i) && MatchesTime(spec, i)
  {
    hide FieldsOf, Minutes, DateTarget, Weekday;
    var s0 := DateTarget(spec, cur);
    var t := TimeTarget(spec, s);
    DateTargetReady(spec, cur);
    DateTargetIs(spec, cur);
    SameFits(s0, s);
    TimeTargetIs(spec, s);
    forall i
      ensures Fits(t, i) <==> Fits(s, i) && MatchesTime(spec, i)
    {
    }
    forall i | i >= Minutes(cur) && Fits(t, i)
      ensures Minutes(t.f) <= i
    {
      FieldsOfProper(i);
      LexLessIsEarlier(FieldsOf(i), s.f);
      CalmBound(t.f, FieldsOf(i));
    }
  }

  lemma TimeTargetIs(spec: TimeSpec, s: State)
    requires InRange(spec) && 3 in s.free && 4 in s.free
    ensures var t := TimeTarget(spec, s);
            && t.wd == s.wd
            && (forall i | 0 <= i <= 2 :: i in t.free <==> i in s.free)
            && (3 in t.free <==> spec.hour == -1) && (4 in t.free <==> spec.min == -1)
            && t.f == [s.f[0], s.f[1], s.f[2], GivenOr(spec.hour, s.f[3]),
                       GivenOr(spec.min, if spec.hour == -1 then s.f[4] else 0)]
  {
    var t := TimeTarget(spec, s);
    assert t.f == [t.f[0], t.f[1], t.f[2], t.f[3], t.f[4]];
  }

  // ----------------------------------------------------- the next occurrence

  /** An occurrence the exception days do not filter out. */
  predicate Qualifies(spec: TimeSpec, days: seq<DaySpec>, t: int) {
    && Matches(spec, t)
    && (spec.exception == No ==> !IsException(days, t * 60))
    && (spec.exception == Yes ==> IsException(days, t * 60))
  }

  ghost predicate Earliest(spec: TimeSpec, days: seq<DaySpec>, start: int, t: int) {
    && t * 60 > start && Qualifies(spec, days, t)
    && forall u :: u * 60 > start && Qualifies(spec, days, u) ==> t <= u
  }

  ghost predicate NoneAfter(spec: TimeSpec, days: seq<DaySpec>, start: int) {
    forall u :: u * 60 > start ==> !Qualifies(spec, days, u)
  }

  /** What a caller of `findNext` asks for: the earliest occurrence after `start`,
      shifted by the offset, or the absence of one. */
  ghost predicate IsNext(o: Outcome, start: int, spec: TimeSpec, days: seq<DaySpec>) {
    match o
    case At(time) => (time - spec.offset) % 60 == 0 && Earliest(spec, days, start, (time - spec.offset) / 60)
    case NoSchedule => NoneAfter(spec, days, start)
    case InvalidSpec => false
    case TimerError => false
  }

  /** `findNext` returns, with outcome `o`. */
  ghost predicate Returns(start: int, spec: TimeSpec, days: seq<DaySpec>, o: Outcome) {
    exists n: nat :: FindNext(n, start, spec, days) == Done(o)
  }

  lemma EndOfDayIs(s: State)
    ensures EndOfDay(s) == (Minutes(s.f) / 1440 * 1440 + 1439) * 60
  {
    hide FieldsOf;
    var t := Minutes(s.f);
    FieldsOfProper(t);
    DayOfMinutes(FieldsOf(t));
    var f := FieldsOf(t);
    assert Minutes(f[HOUR := 23][MINUTE := 59]) == DayNumber(f[0], f[1], f[2]) * 1440 + 1439;
  }

  lemma SameDayException(days: seq<DaySpec>, t: int, u: int)
    requires t / 1440 == u / 1440
    ensures IsException(days, t * 60) == IsException(days, u * 60)
  {
    hide FieldsOf;
    SameDate(t, u, 0);
    SameDate(t, u, 1);
    SameDate(t, u, 2);
  }

  /** How one call of `findNext` goes on: it has an outcome, it restarts at the end of a
      day, it passes over an occurrence shifted to the start or before, or it stops for
      want of calls. */
  datatype Step = Ends(o: Outcome) | GoesOn(start: int) | Passes(t: int) | Stops

  /** The earliest occurrence is shifted to the start or before. */
  ghost predicate PassedOver(t: int, start: int, spec: TimeSpec, days: seq<DaySpec>) {
    spec.offset < 0 && Earliest(spec, days, start, t) && t * 60 + spec.offset <= start
  }

  /** The search restarts at the end of a day before which nothing qualifies. */
  ghost predicate Restarts(start: int, next: int, spec: TimeSpec, days: seq<DaySpec>) {
    && next / 60 > start / 60
    && forall u :: u * 60 > start && Qualifies(spec, days, u) ==> u * 60 > next
  }

  lemma SkipRestarts(s: State, s0: State, cur: Fields, start: int, spec: TimeSpec, days: seq<DaySpec>)
    requires start >= 0 && Minutes(cur) == start / 60 + 1
    requires SkipsTo(s0, cur, Minutes(s.f) / 1440)
    requires forall t :: Matches(spec, t) ==> Fits(s0, t)
    ensures Restarts(start, EndOfDay(s), spec, days)
  {
    hide FieldsOf, Minutes, Weekday;
    EndOfDayIs(s);
  }

  lemma FoundStep(n: nat, start: int, spec: TimeSpec, days: seq<DaySpec>, cur: Fields, t: State, s1: State)
    returns (step: Step)
    requires n >= 1 && start >= 0 && Minutes(cur) == start / 60 + 1
    requires Placed(t, s1, cur, MINUTE) && Bound(s1, cur) && Proper(cur)
    requires forall i :: Fits(s1, i) <==> Matches(spec, i)
    ensures match step
            case Ends(o) => o.At? && o.time > start
                            && Deliver(n, start, spec, days, t) == Done(o) && IsNext(o, start, spec, days)
            case GoesOn(next) => Deliver(n, start, spec, days, t) == FindNext(n - 1, next, spec, days)
                                 && Restarts(start, next, spec, days)
            case Passes(u) => Deliver(n, start, spec, days, t) == FindNext(n - 1, u * 60, spec, days)
                              && PassedOver(u, start, spec, days)
            case Stops => false
  {
    hide FieldsOf, Minutes, Weekday, IsException, FindNext;
    var i := Minutes(t.f);
    SameFits(s1, t);
    LexLessIsEarlier(t.f, cur);
    MktimeKeepsProper(t.f);
    assert Matches(spec, i);
    if Qualifies(spec, days, i) {
      step := if i * 60 + spec.offset > start then Ends(At(i * 60 + spec.offset)) else Passes(i);
    } else {
      EndOfDayIs(t);
      step := GoesOn(EndOfDay(t));
      forall u | u * 60 > start && Qualifies(spec, days, u)
        ensures u * 60 > EndOfDay(t)
      {
        if u / 1440 == i / 1440 {
          SameDayException(days, u, i);
        }
      }
    }
  }

  /** One call of `findNext`, which stops short only for want of calls. */
  lemma OneStep(n: nat, start: int, spec: TimeSpec, days: seq<DaySpec>) returns (step: Step)
    requires n >= 1 && start >= 0 && InRange(spec) && !Collides(spec)
    ensures match step
            case Ends(o) => FindNext(n, start, spec, days) == Done(o) && IsNext(o, start, spec, days)
                            && (o.At? ==> o.time > start)
                            && (o == NoSchedule ==> forall u :: u * 60 > start ==> !Matches(spec, u))
            case GoesOn(next) => FindNext(n, start, spec, days) == FindNext(n - 1, next, spec, days)
                                 && Restarts(start, next, spec, days)
            case Passes(t) => FindNext(n, start, spec, days) == FindNext(n - 1, t * 60, spec, days)
                              && PassedOver(t, start, spec, days)
            case Stops => n < 8 && FindNext(n, start, spec, days) == Running
  {
    hide FieldsOf, Minutes, Weekday, IsException, TryResolve, IsValid, DateTarget, TimeTarget, Deliver, EndOfDay;
    FirstMinuteIs(start);
    var cur := FirstMinute(start);
    var s0 := DateTarget(spec, cur);
    DateTargetReady(spec, cur);
    TryResolveKeeps(n, s0, cur, YEAR, DAY);
    match TryResolve(n, s0, cur, YEAR, DAY)
    case Running =>
      step := Stops;
    case Done((s, Impossible)) =>
      step := Ends(NoSchedule);
    case Done((s, Unresolved)) =>
      SkipRestarts(s, s0, cur, start, spec, days);
      step := GoesOn(EndOfDay(s));
    case Done((s, Resolved)) =>
      var s1 := TimeTarget(spec, s);
      TimeTargetReady(spec, cur, s);
      TryResolveKeeps(n, s1, cur, HOUR, MINUTE);
      match TryResolve(n, s1, cur, HOUR, MINUTE)
      case Running =>
        step := Stops;
      case Done((t, Impossible)) =>
        step := Ends(NoSchedule);
      case Done((t, Unresolved)) =>
        SkipRestarts(t, s1, cur, start, spec, days);
        step := GoesOn(EndOfDay(t));
      case Done((t, Resolved)) =>
        step := FoundStep(n, start, spec, days, cur, t, s1);
  }

  /** The year is given, and so the occurrences come to an end. */
  predicate YearGiven(spec: TimeSpec) {
    spec.wdays == {} && spec.year != -1
  }

  lemma PastYear(n: nat, start: int, spec: TimeSpec, days: seq<DaySpec>)
    requires n >= 1 && start >= 0 && InRange(spec)
    requires YearGiven(spec) && start / 60 + 1 >= YearStart(spec.year + 1) * 1440
    ensures FindNext(n, start, spec, days) == Done(NoSchedule)
    ensures forall u :: u * 60 > start ==> !Matches(spec, u)
  {
    hide FieldsOf, Minutes, IsValid, DateTarget;
    FirstMinuteIs(start);
    var cur := FirstMinute(start);
    DateTargetIs(spec, cur);
    YearAtLeast(spec.year, start / 60 + 1);
    var s := DateTarget(spec, cur);
    assert WithoutWeekdays(s, cur, YEAR, DAY) == (s, false);
    forall u | u * 60 > start
      ensures !Matches(spec, u)
    {
      YearAtLeast(spec.year, u);
    }
  }

  lemma YearAtLeast(y: int, t: int)
    requires t >= YearStart(y + 1) * 1440
    ensures FieldsOf(t)[0] > y
  {
    hide FieldsOf;
    FieldsOfProper(t);
    if FieldsOf(t)[0] <= y {
      LexLessIsEarlier(FieldsOf(t), [y + 1, 0, 1, 0, 0]);
    }
  }

  /** A bound on the search: an occurrence, or the end of the given year. */
  ghost predicate Horizon(limit: int, start: int, spec: TimeSpec, days: seq<DaySpec>) {
    || (limit * 60 > start && Qualifies(spec, days, limit))
    || (YearGiven(spec) && limit == YearStart(spec.year + 1) * 1440)
  }

  lemma {:induction false} EndsWithin(n: nat, start: int, spec: TimeSpec, days: seq<DaySpec>, limit: int)
    requires start >= 0 && spec.offset >= 0 && InRange(spec) && !Collides(spec)
    requires Horizon(limit, start, spec, days)
    requires n >= 8 && n >= 8 + limit - start / 60
    ensures var r := FindNext(n, start, spec, days); r.Done? && IsNext(r.value, start, spec, days)
    decreases n
  {
    hide FieldsOf, Minutes, Weekday, IsException, FindNext, Matches, YearStart;
    if YearGiven(spec) && start / 60 + 1 >= YearStart(spec.year + 1) * 1440 {
      PastYear(n, start, spec, days);
    } else {
      var step := OneStep(n, start, spec, days);
      if step.GoesOn? {
        EndsWithin(n - 1, step.start, spec, days, limit);
      }
    }
  }

  // ---------------------------------------------------------- main theorems

  /** `findNext` returns the earliest occurrence after `start`, whenever there is
      one, and reports that there is none when the year is given. */
  lemma FindNextIsNext(start: int, spec: TimeSpec, days: seq<DaySpec>) returns (o: Outcome)
    requires start >= 0 && spec.offset >= 0 && WellFormed(spec) && !Collides(spec)
    requires YearGiven(spec) || exists u :: u * 60 > start && Qualifies(spec, days, u)
    ensures Returns(start, spec, days, o) && IsNext(o, start, spec, days)
  {
    WellFormedIff(spec);
    hide FindNext, IsNext, Qualifies;
    var limit := YearStart(spec.year + 1) * 1440;
    if !YearGiven(spec) {
      limit :| limit * 60 > start && Qualifies(spec, days, limit);
    }
    var n: nat := 8 + if limit > start / 60 then limit - start / 60 else 0;
    EndsWithin(n, start, spec, days, limit);
    o := FindNext(n, start, spec, days).value;
  }

  /** Whatever the offset, a result is an occurrence shifted by it, and lies after the
      start. */
  lemma {:induction false} ShiftedLater(n: nat, start: int, spec: TimeSpec, days: seq<DaySpec>)
    requires start >= 0 && WellFormed(spec) && !Collides(spec)
    ensures var r := FindNext(n, start, spec, days);
            r.Done? && r.value.At? ==>
              && r.value.time > start && (r.value.time - spec.offset) % 60 == 0
              && Qualifies(spec, days, (r.value.time - spec.offset) / 60)
              && r.value.time - spec.offset > start
    decreases n
  {
    WellFormedIff(spec);
    hide FindNext, Qualifies, IsValid;
    if n == 0 {
      NoCallsYet(start, spec, days);
    } else {
      var step := OneStep(n, start, spec, days);
      match step
      case Ends(o) =>
      case GoesOn(next) => ShiftedLater(n - 1, next, spec, days);
      case Passes(t) => ShiftedLater(n - 1, t * 60, spec, days);
      case Stops =>
    }
  }

  lemma NoCallsYet(start: int, spec: TimeSpec, days: seq<DaySpec>)
    ensures FindNext(0, start, spec, days) == Running
  {
  }

  /** A day is an exception exactly when an exception day has every given field of it. */
  lemma ExceptionIff(days: seq<DaySpec>, t: int)
    ensures var f := FieldsOf(t);
            IsException(days, t * 60) <==>
            exists i | 0 <= i < |days| ::
              Meets(days[i].year, f[YEAR]) && Meets(days[i].mon, f[MONTH]) && Meets(days[i].day, f[DAY])
  {
    hide FieldsOf;
    assert t * 60 / 60 == t;
  }

  lemma NextLeapYear(y: int) returns (z: int)
    ensures z > y && IsLeap(z)
  {
    z := ((y + 1900) / 400 + 1) * 400 - 1900;
    assert (z + 1900) % 400 == 0 && (z + 1900) % 4 == 0;
  }

  lemma OccursOnWeekday(spec: TimeSpec, t0: int) returns (t: int)
    requires InRange(spec) && spec.wdays != {}
    ensures t > t0 && Matches(spec, t)
  {
    hide FieldsOf, IsValid;
    var day := t0 / 1440 + 1;
    var j := DaysToWeekday(day + 3, spec.wdays);
    var h, m := GivenOr(spec.hour, 0), GivenOr(spec.min, 0);
    t := (day + j) * 1440 + h * 60 + m;
    TimeOn(day + j, h, m);
  }

  lemma TimeOn(day: int, h: int, m: int)
    requires 0 <= h <= 23 && 0 <= m <= 59
    ensures var t := day * 1440 + h * 60 + m;
            t / 1440 == day && FieldsOf(t)[HOUR] == h && FieldsOf(t)[MINUTE] == m
  {
    var t := day * 1440 + h * 60 + m;
    assert t / 1440 == day && t % 1440 == h * 60 + m by {
      hide FieldsOf;
    }
    assert t % 60 == m by {
      hide FieldsOf;
      assert t == (day * 24 + h) * 60 + m;
    }
    hide YearOf, YearStart, MonthStart;
  }

  /** Without a given year, occurrences never come to an end. */
  lemma OccursAgain(spec: TimeSpec, t0: int) returns (t: int)
    requires WellFormed(spec) && !YearGiven(spec)
    ensures t > t0 && Matches(spec, t)
  {
    WellFormedIff(spec);
    hide FieldsOf, Minutes, Weekday, IsValid;
    if spec.wdays != {} {
      t := OccursOnWeekday(spec, t0);
    } else {
      var y := NextLeapYear(FieldsOf(t0)[0]);
      var f := [y, GivenOr(spec.mon, 0), GivenOr(spec.day, 1), GivenOr(spec.hour, 0), GivenOr(spec.min, 0)];
      PartialDateExists(spec, y);
      FieldsOfProper(t0);
      LexLessIsEarlier(FieldsOf(t0), f);
      MktimeKeepsProper(f);
      t := Minutes(f);
    }
  }

  lemma PartialDateExists(spec: TimeSpec, y: int)
    requires InRange(spec) && spec.year == -1 && IsLeap(y)
    ensures Proper([y, GivenOr(spec.mon, 0), GivenOr(spec.day, 1), GivenOr(spec.hour, 0), GivenOr(spec.min, 0)])
  {
  }
}
