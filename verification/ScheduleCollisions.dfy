/** Every specification whose carry collides is searched wrongly from some time:
    the condition of the main theorem cannot be weakened. */
module ScheduleCollisions {
  import opened Calendar
  import opened Resolver
  import opened ResolverProof
  import opened Schedule
  import opened ScheduleProof
  import opened ScheduleLimits

  /** Start of the last minute of day `cur` but one, in seconds. */
  function JustBefore(cur: Fields): int {
    (Minutes(cur) - 1) * 60
  }

  lemma JustBeforeIs(cur: Fields)
    requires Proper(cur) && cur[0] >= 70 && cur[3] == 23 && cur[4] == 59
    ensures JustBefore(cur) >= 0 && FirstMinute(JustBefore(cur)) == cur
    ensures JustBefore(cur) / 60 + 1 == Minutes(cur)
  {
    hide FieldsOf, Minutes;
    LexLessIsEarlier(cur, [70, 0, 1, 0, 1]);
    assert Minutes([70, 0, 1, 0, 1]) == 1 by { JanuaryFirst(); }
    FirstMinuteIs(JustBefore(cur));
    MktimeKeepsProper(cur);
  }

  lemma JanuaryFirst()
    ensures Minutes([70, 0, 1, 0, 1]) == 1
  {
  }

  /** When the current day fits, the search for the date stays on it. */
  lemma DateStays(n: nat, spec: TimeSpec, cur: Fields)
    requires InRange(spec) && Proper(cur) && cur[0] >= 70 && MatchesDate(spec, Minutes(cur))
    ensures var r := TryResolve(n, DateTarget(spec, cur), cur, YEAR, DAY);
            r.Done? ==> r.value.1 == Resolved && SameDay(r.value.0, cur) && Proper(r.value.0.f)
                        && SameGiven(DateTarget(spec, cur), r.value.0)
  {
    hide FieldsOf, Minutes, TryResolve, DateTarget;
    var s0 := DateTarget(spec, cur);
    DateTargetReady(spec, cur);
    TryResolveKeeps(n, s0, cur, YEAR, DAY);
    var r := TryResolve(n, s0, cur, YEAR, DAY);
    assert Fits(s0, Minutes(cur));
    if r.Done? && r.value.1 == Resolved {
      SameFits(s0, r.value.0);
      LexLessIsEarlier(cur, r.value.0.f);
    }
  }

  /** A given minute that is over moves a free hour to 24. */
  lemma HourOverflows(s: State, cur: Fields)
    requires SameDay(s, cur) && cur[3] == 23 && cur[4] == 59
    requires 3 in s.free && 4 !in s.free && 0 <= s.f[3] <= 23 && 0 <= s.f[4] < 59
    ensures WithoutWeekdays(s, cur, HOUR, MINUTE) == (s.(f := [s.f[0], s.f[1], s.f[2], 24, s.f[4]]), true)
  {
    var w := s.(f := [s.f[0], s.f[1], s.f[2], 24, s.f[4]]);
    CompareDates(s.f, cur);
    var s1 := SetField(s, 3, 23, false);
    assert s1.f == [s.f[0], s.f[1], s.f[2], 23, s.f[4]];
    assert s.f[3] == 23 ==> s1.f == s.f;
    assert Advance(s, cur, 3, 4) == Advance(s1, cur, 4, 4) == Increase(s1, 4);
    assert SetField(s1, 3, 24, false).f == w.f;
  }

  /** A given time of day that is over moves a free day past the month's end. */
  lemma DayOverflows(s: State, cur: Fields)
    requires SameDay(s, cur) && cur[3] == 23 && cur[4] == 59 && s.f[2] > 0
    requires 2 in s.free && 3 !in s.free && 0 <= s.f[3] <= 23 && 0 <= s.f[4] <= 59
    requires s.f[3] < 23 || (4 !in s.free && s.f[4] < 59)
    ensures var (s1, ok) := WithoutWeekdays(s, cur, HOUR, MINUTE);
            ok && SameGiven(s, s1) && s1.f[0] == s.f[0] && s1.f[1] == s.f[1] && s1.f[2] == s.f[2] + 1
            && s1.f[3] == s.f[3] && 0 <= s1.f[4] <= 59
  {
    CompareDates(s.f, cur);
  }

  /** A pass that finds the date ahead goes straight to the projection. */
  lemma NextProjection(n: nat, s: State, cur: Fields)
    requires n >= 1 && Later(s.f, cur) && s.wd == {}
    ensures TryResolve(n, s, cur, HOUR, MINUTE)
            == Conclude(Project(s), TryResolve(n - 1, Project(s).0, cur, HOUR, MINUTE))
  {
    hide Minutes, FieldsOf, Project, WithoutWeekdays;
    LaterPasses(s, cur, HOUR, MINUTE);
    TryResolveCall(n, s, cur, HOUR, MINUTE, s);
  }

  // ------------------------------------------------------ where it never ends

  /** Past 31 December with the month given: the year grows for ever. */
  predicate StuckInDecember(s: State) {
    && s.wd == {} && 0 in s.free && 1 !in s.free && s.f[1] == 11 && 0 <= s.f[4] <= 59
    && (if s.f[2] == 32 then 0 <= s.f[3] <= 23 else s.f[2] == 31 && s.f[3] == 24)
  }

  lemma DecemberResolves(v: Fields)
    requires v[1] == 11 && 0 <= v[4] <= 59
    requires if v[2] == 32 then 0 <= v[3] <= 23 else v[2] == 31 && v[3] == 24
    ensures FieldsOf(Minutes(v))[0] == v[0] + 1 && FieldsOf(Minutes(v))[1] == 0
  {
    hide FieldsOf;
    if v[2] == 32 {
      DayAfterResolves(v);
    } else {
      HourOverResolves(v);
    }
  }

  lemma {:induction false} NeverLeavesDecember(n: nat, s: State, cur: Fields)
    requires StuckInDecember(s) && Later(s.f, cur)
    ensures TryResolve(n, s, cur, HOUR, MINUTE) == Running
  {
    hide Minutes, FieldsOf, TryResolve;
    if n == 0 {
      NoRounds(s, cur);
    } else {
      DecemberResolves(s.f);
      NextProjection(n, s, cur);
      var c := FieldsOf(Minutes(s.f));
      assert StopAt(s, c, 0) == 1 by {
        assert StopAt(s, c, 0) == StopAt(s, c, 1);
      }
      NeverLeavesDecember(n - 1, Project(s).0, cur);
    }
  }

  lemma NoRounds(s: State, cur: Fields)
    ensures TryResolve(0, s, cur, HOUR, MINUTE) == Running
  {
  }

  /** At hour 24 of a given 31st: every month is skipped for ever. */
  predicate StuckOnThirtyFirst(s: State) {
    && s.wd == {} && 0 in s.free && 1 in s.free && 2 !in s.free
    && 0 <= s.f[1] <= 11 && s.f[2] == 31 && s.f[3] == 24 && 0 <= s.f[4] <= 59
  }

  lemma ThirtyFirstResolves(v: Fields)
    requires 0 <= v[1] <= 11 && v[2] == 31 && v[3] == 24 && 0 <= v[4] <= 59
    ensures var n := FieldsOf(Minutes(v));
            n == [if v[1] == 11 then v[0] + 1 else v[0], if v[1] == 11 then 0 else v[1] + 1,
                  32 - DaysInMonth(v[0], v[1]), 0, v[4]]
  {
    DayCarry(v[0], v[1], 32);
    ResolvesTo(v, [if v[1] == 11 then v[0] + 1 else v[0], if v[1] == 11 then 0 else v[1] + 1,
                   32 - DaysInMonth(v[0], v[1]), 0, v[4]]);
  }

  lemma {:induction false} NeverLeavesThirtyFirst(n: nat, s: State, cur: Fields)
    requires StuckOnThirtyFirst(s) && Later(s.f, cur)
    ensures TryResolve(n, s, cur, HOUR, MINUTE) == Running
  {
    hide Minutes, FieldsOf, TryResolve;
    if n == 0 {
      NoRounds(s, cur);
    } else {
      ThirtyFirstResolves(s.f);
      NextProjection(n, s, cur);
      var c := FieldsOf(Minutes(s.f));
      assert StopAt(s, c, 0) == StopAt(s, c, 1) == StopAt(s, c, 2) == 2;
      assert Moves(s, c, 2) by {
        assert s.f[1] != c[1];
      }
      NeverLeavesThirtyFirst(n - 1, Project(s).0, cur);
    }
  }

  // ------------------------------------------------ where it skips or gives up

  /** At hour 24 of the last day of a month, with only that day given: the next
      month, which is longer by then, is tried at hour 24 and given up. */
  lemma SkipsAMonth(n: nat, s: State, cur: Fields, d: int)
    requires Later(s.f, cur) && s.wd == {} && 1 in s.free && 2 !in s.free
    requires 0 <= s.f[1] <= 11 && DaysInMonth(s.f[0], s.f[1]) == 31
    requires s.f[2] == d && 28 <= d <= 30 && s.f[3] == 24 && 0 <= s.f[4] <= 59
    ensures var r := TryResolve(n, s, cur, HOUR, MINUTE); r == Running || r == Done((s, Unresolved))
  {
    hide Minutes, FieldsOf, TryResolve;
    if n == 0 {
      NoRounds(s, cur);
    } else {
      HourOverResolves(s.f);
      NextProjection(n, s, cur);
      var c := FieldsOf(Minutes(s.f));
      assert c == [s.f[0], s.f[1], d + 1, 0, s.f[4]];
      assert StopAt(s, c, 0) == StopAt(s, c, 1) == StopAt(s, c, 2) == 2;
      assert Loose(s, 2) && !Moves(s, c, 2);
      assert Project(s).0.f == s.f;
    }
  }

  /** The first overflow at the end of a month with only the day given. */
  lemma CarryIntoMonth(n: nat, s: State, cur: Fields, mi: int)
    requires Proper(cur) && cur[3] == 23 && cur[4] == 59 && cur[2] == DaysInMonth(cur[0], cur[1]) && cur[1] < 11
    requires SameDay(s, cur) && s.wd == {} && 1 in s.free && 2 !in s.free && 3 in s.free && 4 !in s.free
    requires 0 <= s.f[3] <= 23 && s.f[4] == mi && 0 <= mi < 59
    ensures n >= 1 ==> TryResolve(n, s, cur, HOUR, MINUTE)
                       == TryResolve(n - 1, s.(f := [cur[0], cur[1] + 1, cur[2], 24, mi]), cur, HOUR, MINUTE)
  {
    hide Minutes, FieldsOf, TryResolve, WithoutWeekdays;
    if n >= 1 {
      HourOverflows(s, cur);
      var s1 := s.(f := [s.f[0], s.f[1], s.f[2], 24, s.f[4]]);
      HourOverResolves(s1.f);
      TryResolveCall(n, s, cur, HOUR, MINUTE, s1);
      var c := FieldsOf(Minutes(s1.f));
      assert c == [cur[0], cur[1] + 1, 1, 0, mi];
      assert StopAt(s1, c, 0) == StopAt(s1, c, 1) == StopAt(s1, c, 2) == 2;
      assert Moves(s1, c, 2) by {
        assert s1.f[1] != c[1];
      }
      assert Project(s1).0.f == [cur[0], cur[1] + 1, cur[2], 24, mi];
    }
  }

  /** At hour 24 of 30 November of the given year, with the 31st given: the year
      runs out. */
  lemma GivesUp(n: nat, s: State, cur: Fields)
    requires Later(s.f, cur) && s.wd == {} && 0 !in s.free && 1 in s.free && 2 !in s.free
    requires s.f[1] == 10 && s.f[2] == 31 && s.f[3] == 24 && 0 <= s.f[4] <= 59
    ensures var r := TryResolve(n, s, cur, HOUR, MINUTE); r == Running || (r.Done? && r.value.1 == Impossible)
  {
    hide Minutes, FieldsOf, TryResolve;
    if n == 0 {
      NoRounds(s, cur);
    } else {
      ThirtyFirstResolves(s.f);
      NextProjection(n, s, cur);
      var c := FieldsOf(Minutes(s.f));
      assert StopAt(s, c, 0) == StopAt(s, c, 1) == StopAt(s, c, 2) == 2;
      assert Moves(s, c, 2) by {
        assert s.f[1] != c[1];
      }
      var s2 := Project(s).0;
      assert s2.f == [s.f[0], 11, 31, 24, s.f[4]];
      if n == 1 {
        NoRounds(s2, cur);
      } else {
        ThirtyFirstResolves(s2.f);
        NextProjection(n - 1, s2, cur);
        var c2 := FieldsOf(Minutes(s2.f));
        assert StopAt(s2, c2, 0) == 0;
      }
    }
  }

  // ------------------------------------------------------------ the whole call

  /** From 23:58 on a day that fits, `findNext` searches the time of day of that
      day. */
  lemma SearchesTheDay(n: nat, spec: TimeSpec, days: seq<DaySpec>, cur: Fields) returns (s: State)
    requires InRange(spec) && spec.wdays == {}
    requires Proper(cur) && cur[0] >= 70 && cur[3] == 23 && cur[4] == 59 && MatchesDate(spec, Minutes(cur))
    requires FindNext(n, JustBefore(cur), spec, days) != Running
    ensures n >= 1
    ensures SameDay(s, cur) && s.wd == {}
    ensures (0 in s.free <==> spec.year == -1) && (1 in s.free <==> spec.mon == -1) && (2 in s.free <==> spec.day == -1)
    ensures (3 in s.free <==> spec.hour == -1) && (4 in s.free <==> spec.min == -1)
    ensures (if spec.hour == -1 then 0 <= s.f[3] <= 23 else s.f[3] == spec.hour)
    ensures (if spec.min == -1 then 0 <= s.f[4] <= 59 else s.f[4] == spec.min)
    ensures match TryResolve(n, s, cur, HOUR, MINUTE)
            case Running => false
            case Done((t, Unresolved)) =>
              FindNext(n, JustBefore(cur), spec, days) == FindNext(n - 1, EndOfDay(t), spec, days)
            case Done((_, Impossible)) => FindNext(n, JustBefore(cur), spec, days) == Done(NoSchedule)
            case Done((_, Resolved)) => true
  {
    hide FieldsOf, Minutes, IsException, TryResolve, IsValid, DateTarget, TimeTarget, EndOfDay, Deliver, JustBefore;
    JustBeforeIs(cur);
    DateStays(n, spec, cur);
    DateTargetIs(spec, cur);
    match TryResolve(n, DateTarget(spec, cur), cur, YEAR, DAY)
    case Running =>
    case Done((s0, r)) =>
      TimeTargetIs(spec, s0);
      s := TimeTarget(spec, s0);
  }

  /** An outcome that is not next, as occurrence `u` is missed. */
  lemma MissesOccurrence(o: Outcome, start: int, spec: TimeSpec, days: seq<DaySpec>, u: int)
    requires u * 60 > start && Qualifies(spec, days, u)
    requires o.At? ==> o.time - spec.offset > u * 60
    ensures !IsNext(o, start, spec, days)
  {
  }

  lemma DateOccurs(spec: TimeSpec, days: seq<DaySpec>, f: Fields)
    requires Proper(f) && spec.wdays == {} && spec.exception == DontCare
    requires Meets(spec.year, f[0]) && Meets(spec.mon, f[1]) && Meets(spec.day, f[2])
    ensures MatchesDate(spec, Minutes(f))
    ensures Meets(spec.hour, f[3]) && Meets(spec.min, f[4]) ==> Qualifies(spec, days, Minutes(f))
  {
    hide FieldsOf, Minutes;
    MktimeKeepsProper(f);
  }

  /** December of any year: the search from its last minutes does not end. */
  lemma DecemberFails(spec: TimeSpec, days: seq<DaySpec>, n: nat)
    requires InRange(spec) && spec.exception == DontCare && spec.wdays == {} && CanBeOver(spec)
    requires spec.mon == 11 && spec.year == -1 && (spec.day == -1 || (spec.day == 31 && spec.hour == -1))
    ensures FindNext(n, JustBefore([70, 11, 31, 23, 59]), spec, days) == Running
  {
    hide FieldsOf, Minutes, FindNext, TryResolve, JustBefore, WithoutWeekdays;
    var cur := [70, 11, 31, 23, 59];
    DateOccurs(spec, days, cur);
    if FindNext(n, JustBefore(cur), spec, days) != Running {
      var s := SearchesTheDay(n, spec, days, cur);
      if spec.hour == -1 {
        HourOverflows(s, cur);
      } else {
        DayOverflows(s, cur);
      }
      var s1 := WithoutWeekdays(s, cur, HOUR, MINUTE).0;
      TryResolveCall(n, s, cur, HOUR, MINUTE, s1);
      DecemberResolves(s1.f);
      var c := FieldsOf(Minutes(s1.f));
      assert StopAt(s1, c, 0) == StopAt(s1, c, 1) == 1;
      NeverLeavesDecember(n - 1, Project(s1).0, cur);
      assert false;
    }
  }

  /** The end of a month at which a specification with only the day given fails. */
  function FailingDay(spec: TimeSpec): Fields {
    [if spec.year != -1 then spec.year else if spec.day == 29 then 72 else 70,
     if spec.day == 31 then 9 else if spec.day == 30 then 10 else 1,
     spec.day, 23, 59]
  }

  /** The occurrence missed: in the next month, or on 31 December. */
  function MissedDay(spec: TimeSpec): Fields {
    var f := FailingDay(spec);
    [f[0], if spec.day == 31 then 11 else f[1] + 1, spec.day, 0, spec.min]
  }

  lemma FailingDayIs(spec: TimeSpec, days: seq<DaySpec>)
    requires InRange(spec) && Collides(spec) && spec.mon == -1 && spec.exception == DontCare
    ensures var f := FailingDay(spec);
            Proper(f) && f[0] >= 70 && f[2] == DaysInMonth(f[0], f[1]) && MatchesDate(spec, Minutes(f))
    ensures Proper(MissedDay(spec)) && Qualifies(spec, days, Minutes(MissedDay(spec)))
    ensures Minutes(MissedDay(spec)) * 60 > JustBefore(FailingDay(spec))
  {
    hide FieldsOf, Minutes, IsValid;
    DateOccurs(spec, days, FailingDay(spec));
    DateOccurs(spec, days, MissedDay(spec));
    LexLessIsEarlier(FailingDay(spec), MissedDay(spec));
  }

  /** With only the day given, no outcome from the end of that day's month is the
      next occurrence. */
  lemma DayFails(spec: TimeSpec, days: seq<DaySpec>, n: nat)
    requires InRange(spec) && Collides(spec) && spec.mon == -1
    requires spec.exception == DontCare && spec.offset >= 0
    ensures var r := FindNext(n, JustBefore(FailingDay(spec)), spec, days);
            r.Done? ==> !IsNext(r.value, JustBefore(FailingDay(spec)), spec, days)
  {
    hide FieldsOf, Minutes, FindNext, TryResolve, JustBefore, WithoutWeekdays;
    hide IsNext, Qualifies, IsValid, MatchesDate, EndOfDay;
    var cur := FailingDay(spec);
    var start := JustBefore(cur);
    FailingDayIs(spec, days);
    if FindNext(n, start, spec, days) != Running {
      var s := SearchesTheDay(n, spec, days, cur);
      CarryIntoMonth(n, s, cur, spec.min);
      var s1 := s.(f := [cur[0], cur[1] + 1, cur[2], 24, spec.min]);
      var u := Minutes(MissedDay(spec));
      if spec.day < 31 {
        SkipsAMonth(n - 1, s1, cur, spec.day);
        SkipsPast(s1, MissedDay(spec));
        JustBeforeIs(cur);
        OutcomeAfter(n - 1, EndOfDay(s1), spec, days);
      } else if spec.year == -1 {
        NeverLeavesThirtyFirst(n - 1, s1, cur);
        assert false;
      } else {
        GivesUp(n - 1, s1, cur);
      }
      MissesOccurrence(FindNext(n, start, spec, days).value, start, spec, days, u);
    }
  }

  lemma SkipsPast(s: State, f: Fields)
    requires Proper(f) && f[0] >= 70
    requires s.f == [f[0], f[1], f[2], 24, f[4]]
    ensures EndOfDay(s) > Minutes(f) * 60 && EndOfDay(s) >= 0
  {
    hide FieldsOf;
    EndOfDayIs(s);
    DayOfMinutes(f);
    LexLessIsEarlier([70, 0, 1, 0, 0], f);
    LexLessIsEarlier(f, [70, 0, 1, 0, 0]);
    assert Minutes(s.f) == DayNumber(f[0], f[1], f[2]) * 1440 + 1440 + f[4];
    assert Minutes([70, 0, 1, 0, 0]) == 0;
  }

  // ------------------------------------------------------------ the conclusion

  /** `findNext` returns the next occurrence. */
  ghost predicate FindsNext(start: int, spec: TimeSpec, days: seq<DaySpec>) {
    exists o :: Returns(start, spec, days, o) && IsNext(o, start, spec, days)
  }

  /** Without exception days, `findNext` is right from every start time exactly
      when the carry of the specification does not collide. */
  lemma AlwaysNextIff(spec: TimeSpec, days: seq<DaySpec>)
    requires WellFormed(spec) && spec.exception == DontCare && spec.offset >= 0
    ensures (forall start | start >= 0 :: FindsNext(start, spec, days)) <==> !Collides(spec)
  {
    hide FindNext, IsNext, Collides, WellFormed, Matches, IsException;
    if !Collides(spec) {
      forall start | start >= 0
        ensures FindsNext(start, spec, days)
      {
        if !YearGiven(spec) {
          var u := OccursAgain(spec, start);
          assert u * 60 > start && Qualifies(spec, days, u);
        }
        var o := FindNextIsNext(start, spec, days);
      }
    } else {
      var start := CollisionFails(spec, days);
      assert !FindsNext(start, spec, days);
    }
  }

  /** A start time from which no outcome is the next occurrence. */
  lemma CollisionFails(spec: TimeSpec, days: seq<DaySpec>) returns (start: int)
    requires WellFormed(spec) && spec.exception == DontCare && spec.offset >= 0 && Collides(spec)
    ensures start >= 0
    ensures forall o | Returns(start, spec, days, o) :: !IsNext(o, start, spec, days)
  {
    WellFormedIff(spec);
    hide FindNext, IsNext, Matches, IsException, FieldsOf, Minutes, IsValid, WellFormed;
    start := JustBefore(if spec.mon == 11 then [70, 11, 31, 23, 59] else FailingDay(spec));
    if spec.mon == 11 {
      JustBeforeIs([70, 11, 31, 23, 59]);
    } else {
      FailingDayIs(spec, days);
      JustBeforeIs(FailingDay(spec));
    }
    forall o | Returns(start, spec, days, o)
      ensures !IsNext(o, start, spec, days)
    {
      var n: nat :| FindNext(n, start, spec, days) == Done(o);
      if spec.mon == 11 {
        DecemberFails(spec, days, n);
      } else {
        DayFails(spec, days, n);
      }
    }
  }
}
