/** The limits of the search for the next occurrence: when it ends, that it has
    one outcome, and exactly which specifications it gets wrong. */
module ScheduleLimits {
  import opened Calendar
  import opened Resolver
  import opened ResolverProof
  import opened ResolverClimb
  import opened Schedule
  import opened ScheduleProof

  // -------------------------------------------- more calls change no outcome

  lemma {:induction false} MoreCalls(n: nat, m: nat, start: int, spec: TimeSpec, days: seq<DaySpec>)
    requires n <= m && FindNext(n, start, spec, days).Done?
    ensures FindNext(m, start, spec, days) == FindNext(n, start, spec, days)
    decreases n
  {
    hide Minutes, FieldsOf, IsValid, IsException, TryResolve, DateTarget, TimeTarget, FirstMinute, EndOfDay;
    if IsValid(spec) {
      var cur := FirstMinute(start);
      var s0 := DateTarget(spec, cur);
      MoreResolves(n, m, s0, cur, YEAR, DAY);
      var (s, r) := TryResolve(n, s0, cur, YEAR, DAY).value;
      if r == Unresolved {
        MoreCalls(n - 1, m - 1, EndOfDay(s), spec, days);
      } else if r == Resolved {
        var s1 := TimeTarget(spec, s);
        MoreResolves(n, m, s1, cur, HOUR, MINUTE);
        var (t, r') := TryResolve(n, s1, cur, HOUR, MINUTE).value;
        if r' == Unresolved {
          MoreCalls(n - 1, m - 1, EndOfDay(t), spec, days);
        } else if r' == Resolved {
          MoreDeliver(n, m, start, spec, days, t);
        }
      }
    }
  }

  lemma {:induction false} MoreDeliver(n: nat, m: nat, start: int, spec: TimeSpec, days: seq<DaySpec>, t: State)
    requires 0 < n <= m && Deliver(n, start, spec, days, t).Done?
    ensures Deliver(m, start, spec, days, t) == Deliver(n, start, spec, days, t)
    decreases n, 0
  {
    hide Minutes, FieldsOf, IsException, FindNext, EndOfDay;
    var next := Minutes(t.f) * 60;
    if next > start {
      if FindNext(n - 1, EndOfDay(t), spec, days).Done? {
        MoreCalls(n - 1, m - 1, EndOfDay(t), spec, days);
      }
      if FindNext(n - 1, next, spec, days).Done? {
        MoreCalls(n - 1, m - 1, next, spec, days);
      }
    }
  }

  /** `findNext` has at most one outcome. */
  lemma OneOutcome(start: int, spec: TimeSpec, days: seq<DaySpec>, o: Outcome, o': Outcome)
    requires Returns(start, spec, days, o) && Returns(start, spec, days, o')
    ensures o == o'
  {
    hide FindNext;
    var n: nat :| FindNext(n, start, spec, days) == Done(o);
    var m: nat :| FindNext(m, start, spec, days) == Done(o');
    if n <= m {
      MoreCalls(n, m, start, spec, days);
    } else {
      MoreCalls(m, n, start, spec, days);
    }
  }

  // ------------------------------------------------------- when it ends

  lemma {:induction false} NeverEnds(n: nat, start: int, spec: TimeSpec, days: seq<DaySpec>)
    requires start >= 0 && spec.offset >= 0 && InRange(spec) && !Collides(spec)
    requires !YearGiven(spec) && NoneAfter(spec, days, start)
    ensures FindNext(n, start, spec, days) == Running
    decreases n
  {
    hide FindNext, Matches, IsException, IsValid;
    if n == 0 {
      NoCallsYet(start, spec, days);
    } else {
      var step := OneStep(n, start, spec, days);
      match step
      case Stops =>
      case GoesOn(next) => NeverEnds(n - 1, next, spec, days);
      case Ends(o) =>
        WellFormedIff(spec);
        var t := OccursAgain(spec, start);
        assert false;
    }
  }

  /** `findNext` ends exactly when an occurrence is left or the year is given. */
  lemma EndsIff(start: int, spec: TimeSpec, days: seq<DaySpec>)
    requires start >= 0 && spec.offset >= 0 && WellFormed(spec) && !Collides(spec)
    ensures (exists o :: Returns(start, spec, days, o))
            <==> YearGiven(spec) || exists u :: u * 60 > start && Qualifies(spec, days, u)
  {
    WellFormedIff(spec);
    hide FindNext, Matches, IsException, IsValid, Qualifies;
    if YearGiven(spec) || exists u :: u * 60 > start && Qualifies(spec, days, u) {
      var o := FindNextIsNext(start, spec, days);
    } else if exists o :: Returns(start, spec, days, o) {
      var o :| Returns(start, spec, days, o);
      var n: nat :| FindNext(n, start, spec, days) == Done(o);
      NeverEnds(n, start, spec, days);
    }
  }

  // ------------------------------------------------ the search only goes forward

  /** The state of the search for the time of day of a specification without
      days of the week. */
  predicate Dated(s: State, cur: Fields) {
    Low(s.f) && Ahead(s.f, cur, DAY) && s.wd == {} && (0 in s.free ==> s.f[0] >= 0)
  }

  lemma PassStaysAhead(s: State, cur: Fields)
    requires Proper(cur) && Dated(s, cur)
    ensures Dated(WithoutWeekdays(s, cur, HOUR, MINUTE).0, cur)
  {
    hide Minutes;
    CompareDates(s.f, cur);
  }

  lemma {:induction false} StaysAhead(n: nat, s: State, cur: Fields)
    requires Proper(cur) && cur[0] >= 0 && Dated(s, cur)
    ensures var r := TryResolve(n, s, cur, HOUR, MINUTE);
            r.Done? ==> Dated(r.value.0, cur)
  {
    hide Minutes, FieldsOf, StopAt, WithoutWeekdays;
    if n > 0 {
      PassStaysAhead(s, cur);
      var (s1, ok) := WithoutWeekdays(s, cur, HOUR, MINUTE);
      if ok {
        ProjectionStaysAhead(s1, cur);
        if Project(s1).1 == Changed {
          StaysAhead(n - 1, Project(s1).0, cur);
        }
      }
    }
  }

  lemma ProjectionStaysAhead(s: State, cur: Fields)
    requires Proper(cur) && cur[0] >= 0 && Dated(s, cur)
    ensures Dated(Project(s).0, cur)
  {
    hide Minutes, FieldsOf, Project;
    ProjectionClimbs(s);
  }

  /** Each outcome, before the offset, lies after the time the search started
      from. */
  lemma {:induction false} OutcomeAfter(n: nat, start: int, spec: TimeSpec, days: seq<DaySpec>)
    requires start >= 0 && InRange(spec) && spec.wdays == {}
    requires spec.offset >= 0 && spec.exception == DontCare
    ensures var r := FindNext(n, start, spec, days);
            r.Done? && r.value.At? ==> r.value.time - spec.offset > start
    decreases n
  {
    hide FieldsOf, Minutes, IsException, TryResolve, IsValid, DateTarget, TimeTarget, EndOfDay;
    if n > 0 {
      FirstMinuteIs(start);
      var cur := FirstMinute(start);
      var s0 := DateTarget(spec, cur);
      DateTargetReady(spec, cur);
      TryResolveKeeps(n, s0, cur, YEAR, DAY);
      match TryResolve(n, s0, cur, YEAR, DAY)
      case Running =>
      case Done((s, Impossible)) =>
      case Done((s, Unresolved)) =>
        EndOfDayIs(s);
        OutcomeAfter(n - 1, EndOfDay(s), spec, days);
      case Done((s, Resolved)) =>
        var s1 := TimeTarget(spec, s);
        DateTargetIs(spec, cur);
        TimeTargetIs(spec, s);
        StaysAhead(n, s1, cur);
        match TryResolve(n, s1, cur, HOUR, MINUTE)
        case Running =>
        case Done((t, Unresolved)) =>
          DatedDay(t, cur);
          EndOfDayIs(t);
          OutcomeAfter(n - 1, EndOfDay(t), spec, days);
        case Done((_, _)) =>
    }
  }

  lemma DatedDay(s: State, cur: Fields)
    requires Proper(cur) && Dated(s, cur)
    ensures Minutes(s.f) / 1440 >= Minutes(cur) / 1440
  {
    DayOfMinutes(cur);
    var v := s.f;
    assert Minutes(v) / 1440 >= DayNumber(v[0], v[1], v[2]);
    MonthsAsYears(v[0], v[1], v[2]);
    if Later(v, cur) {
      LaterDate(cur[0], cur[1], cur[2], v[0] + v[1] / 12, v[1] % 12, v[2]);
    }
  }

  // ------------------------------------------- every search of `findNext` climbs

  /** Both searches of a call of `findNext` climb from each call of `tryResolve` to
      the next. */
  lemma SearchesClimb(n: nat, start: int, spec: TimeSpec)
    requires start >= 0 && WellFormed(spec)
    ensures var cur := FirstMinute(start);
            var s0 := DateTarget(spec, cur);
            var r := TryResolve(n, s0, cur, YEAR, DAY);
            && Climbing(Calls(n, s0, cur, YEAR, DAY))
            && (r.Done? ==> Climbing(Calls(n, TimeTarget(spec, r.value.0), cur, HOUR, MINUTE)))
  {
    WellFormedIff(spec);
    hide FieldsOf, Minutes, DateTarget, TimeTarget, FirstMinute, TryResolve, Calls, Climbing, IsValid;
    var cur := FirstMinute(start);
    var s0 := DateTarget(spec, cur);
    FirstMinuteIs(start);
    DateTargetClimbs(spec, cur);
    CallsClimb(n, s0, cur, YEAR, DAY);
    match TryResolve(n, s0, cur, YEAR, DAY)
    case Running =>
    case Done((s, _)) =>
      GivenFieldsStay(n, s0, cur, YEAR, DAY);
      TimeTargetIs(spec, s);
      CallsClimb(n, TimeTarget(spec, s), cur, HOUR, MINUTE);
  }

  lemma DateTargetClimbs(spec: TimeSpec, cur: Fields)
    requires InRange(spec) && Proper(cur) && cur[0] >= 0
    ensures Upward(DateTarget(spec, cur)) && {3, 4} <= DateTarget(spec, cur).free
  {
    hide FieldsOf, Minutes, DateTarget;
    DateTargetIs(spec, cur);
    if spec.year != -1 && spec.mon != -1 && spec.day != -1 {
      FullDateExists(spec);
    }
  }
}
