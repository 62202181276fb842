/** Why the search of `DateTime` stops at the earliest time that fits. */
module ResolverProof {
  import opened Calendar
  import opened Resolver

  // ---------------------------------------------------------------- instants

  /** The fields agree with every given field of `s`. */
  predicate Agrees(s: State, g: Fields) {
    && (0 in s.free || g[0] == s.f[0])
    && (1 in s.free || g[1] == s.f[1])
    && (2 in s.free || g[2] == s.f[2])
    && (3 in s.free || g[3] == s.f[3])
    && (4 in s.free || g[4] == s.f[4])
  }

  /** Instant `t` meets the constraints of `s`. */
  predicate Fits(s: State, t: int) {
    Agrees(s, FieldsOf(t)) && (s.wd == {} || Weekday(t) in s.wd)
  }

  /** No instant from `cur` on that fits lies before the instant of `s`. */
  ghost predicate Bound(s: State, cur: Fields) {
    forall t :: t >= Minutes(cur) && Fits(s, t) ==> Minutes(s.f) <= t
  }

  ghost predicate NoFit(s: State, cur: Fields) {
    forall t :: t >= Minutes(cur) ==> !Fits(s, t)
  }

  /** Same constraints, whatever the values of the free fields. */
  predicate SameGiven(a: State, b: State) {
    && a.free == b.free && a.wd == b.wd
    && Agrees(a, b.f)
  }

  lemma SameFits(a: State, b: State)
    requires SameGiven(a, b)
    ensures forall t :: Fits(a, t) <==> Fits(b, t)
  {
  }

  // ------------------------------------------------------------- carry lemmas

  predicate Calm(f: Fields) {
    0 <= f[1] <= 11 && 1 <= f[2] <= 31 && 0 <= f[3] <= 23 && 0 <= f[4] <= 59
  }

  /** A day past the end of its month falls into the next month. */
  lemma DayCarry(y: int, m: int, d: int)
    requires 0 <= m <= 11
    ensures m < 11 ==> DayNumber(y, m, d) == DayNumber(y, m + 1, d - DaysInMonth(y, m))
    ensures m == 11 ==> DayNumber(y, m, d) == DayNumber(y + 1, 0, d - DaysInMonth(y, m))
  {
    YearLength(y);
  }

  lemma MonthCarry(y: int, d: int)
    ensures DayNumber(y, 12, d) == DayNumber(y + 1, 0, d)
  {
  }

  /** Fields that are in range and not after proper fields resolve to an instant
      not after theirs, when both name the same overlong day. */
  lemma CalmBound(v: Fields, g: Fields)
    requires Calm(v) && Proper(g) && !LexLess(g, v)
    requires v[2] > DaysInMonth(v[0], v[1]) ==> g[2] == v[2]
    ensures Minutes(v) <= Minutes(g)
  {
    if v[2] <= DaysInMonth(v[0], v[1]) {
      LexLessIsEarlier(g, v);
    } else {
      DayCarry(v[0], v[1], v[2]);
      var w := [v[0], v[1] + 1, v[2] - DaysInMonth(v[0], v[1]), v[3], v[4]];
      assert Proper(w) && LexLess(w, g);
      LexLessIsEarlier(w, g);
    }
  }

  // ------------------------------------------------------ what a search keeps

  /** Holds of the target at every point of a search from `cur`. */
  ghost predicate Sane(s: State, cur: Fields) {
    && Proper(cur) && cur[0] >= 70
    && (0 in s.free ==> s.f[0] >= 0)
    && s.wd <= {0, 1, 2, 3, 4, 5, 6}
    && (s.wd != {} ==> {0, 1, 2} <= s.free)
  }

  predicate SameDay(s: State, cur: Fields) {
    s.f[0] == cur[0] && s.f[1] == cur[1] && s.f[2] == cur[2]
  }

  predicate LowTime(s: State) {
    (3 in s.free ==> s.f[3] == 0) && (4 in s.free ==> s.f[4] == 0)
  }

  /** In range, with a day of the month that exists unless it is given. */
  predicate Settled(s: State, cur: Fields) {
    && Calm(s.f)
    && (2 in s.free ==> s.f[2] <= DaysInMonth(s.f[0], s.f[1]))
    && (SameDay(s, cur) || LowTime(s))
  }

  /** The fields up to `last` are not before those of `cur`. */
  predicate Ahead(f: Fields, cur: Fields, last: int)
    requires 0 <= last <= 4
  {
    || f[0] > cur[0]
    || (f[0] == cur[0] && (last == 0
      || f[1] > cur[1]
      || (f[1] == cur[1] && (last == 1
        || f[2] > cur[2]
        || (f[2] == cur[2] && (last == 2
          || f[3] > cur[3]
          || (f[3] == cur[3] && (last == 3 || f[4] >= cur[4]))))))))
  }

  ghost predicate Equal(f: Fields, cur: Fields, k: int) {
    forall i | 0 <= i < k && i < 5 :: f[i] == cur[i]
  }

  /** The given time of day can lie in the past of its own day. */
  predicate Passable(s: State) {
    if 3 in s.free then 4 !in s.free && s.f[4] < 59
    else s.f[3] < 23 || (4 !in s.free && s.f[4] < 59)
  }

  // A target out of range, before it is projected on the calendar.

  /** The month ran past December. */
  predicate MonthOver(s: State) {
    && 1 in s.free && s.f[1] == 12
    && 1 <= s.f[2] <= 31 && 0 <= s.f[3] <= 23 && 0 <= s.f[4] <= 59
    && LowTime(s) && s.wd == {}
  }

  /** The day may have run past the end of its month. */
  predicate DayOver(s: State) {
    && 2 in s.free && 0 <= s.f[1] <= 11 && 1 <= s.f[2]
    && 0 <= s.f[3] <= 23 && 0 <= s.f[4] <= 59
    && LowTime(s)
  }

  /** The hour ran past the end of the current day. */
  predicate HourOver(s: State, cur: Fields) {
    && SameDay(s, cur)
    && 3 in s.free && 4 !in s.free && s.f[3] == 24 && 0 <= s.f[4] <= 59
    && Passable(s)
  }

  /** The state after a successful pass over the fields. */
  ghost predicate Advanced(s1: State, s: State, cur: Fields, last: int)
    requires 0 <= last <= 4
  {
    && SameGiven(s, s1) && Sane(s1, cur) && Bound(s1, cur) && Ahead(s1.f, cur, last)
    && (|| Settled(s1, cur)
        || MonthOver(s1)
        || (DayOver(s1) && s1.f[0] == cur[0] && s1.f[1] == cur[1] && s1.f[2] == cur[2] + 1 && Passable(s1))
        || HourOver(s1, cur))
  }

  /** An instant from `cur` on, as fields. */
  lemma FromCur(cur: Fields, t: int)
    requires Proper(cur) && t >= Minutes(cur)
    ensures Proper(FieldsOf(t)) && Minutes(FieldsOf(t)) == t && !LexLess(FieldsOf(t), cur)
  {
    FieldsOfProper(t);
    LexLessIsEarlier(FieldsOf(t), cur);
  }

  lemma SetToCurrent(s: State, cur: Fields, k: int)
    requires 0 <= k < 5 && k in s.free && Equal(s.f, cur, k) && s.f[k] < cur[k]
    requires Sane(s, cur) && Settled(s, cur)
    ensures var s1 := SetField(s, k, cur[k], false);
            SameGiven(s, s1) && Sane(s1, cur) && Settled(s1, cur) && Equal(s1.f, cur, k + 1) && Bound(s1, cur)
  {
    hide FieldsOf, Minutes;
    var s1 := SetField(s, k, cur[k], false);
    SetShape(s, cur, k);
    assert Bound(s1, cur) by {
      forall t | t >= Minutes(cur) && Fits(s1, t)
        ensures Minutes(s1.f) <= t
      {
        FromCur(cur, t);
        SetBound(s, s1, cur, k, FieldsOf(t));
      }
    }
  }

  lemma SetShape(s: State, cur: Fields, k: int)
    requires 0 <= k < 5 && k in s.free && Equal(s.f, cur, k) && s.f[k] < cur[k]
    requires Sane(s, cur) && Settled(s, cur)
    ensures var s1 := SetField(s, k, cur[k], false);
            SameGiven(s, s1) && Sane(s1, cur) && Settled(s1, cur) && Equal(s1.f, cur, k + 1)
  {
    if k == 0 {
    } else if k == 1 {
    } else if k == 2 {
    } else {
    }
  }

  lemma LowestBelow(s: State, k: int, value: int)
    requires 0 <= k < 5 && value != -1
    ensures forall i | k < i < 5 && i in s.free :: SetField(s, k, value, false).f[i] == Lowest(i)
    ensures forall i | k < i < 5 && i !in s.free :: SetField(s, k, value, false).f[i] == s.f[i]
    ensures forall i | 0 <= i < k :: SetField(s, k, value, false).f[i] == s.f[i]
    ensures SetField(s, k, value, false).f[k] == value
  {
  }

  lemma SetBound(s: State, s1: State, cur: Fields, k: int, f: Fields)
    requires 0 <= k < 5 && s1 == SetField(s, k, cur[k], false)
    requires Proper(cur) && cur[0] >= 70 && Settled(s1, cur) && Equal(s1.f, cur, k + 1)
    requires Proper(f) && Agrees(s1, f) && !LexLess(f, cur)
    ensures Minutes(s1.f) <= Minutes(f)
  {
    LowestBelow(s, k, cur[k]);
    CalmBound(s1.f, f);
  }

  /** A given field behind `cur` with nothing free above it rules every later
      instant out. */
  lemma StuckBehind(s: State, cur: Fields, k: int)
    requires 0 <= k < 5 && ClosestFree(s.free, k) == -1
    requires Equal(s.f, cur, k) && s.f[k] < cur[k] && Proper(cur)
    ensures NoFit(s, cur)
  {
    hide FieldsOf, Minutes;
    forall t | t >= Minutes(cur)
      ensures !Fits(s, t)
    {
      FromCur(cur, t);
    }
  }

  /** The fields of an instant that fits come after `cur` above the field that
      is behind. */
  lemma FitsBeyond(s: State, cur: Fields, k: int, g: int, t: int)
    requires 0 <= g < k < 5 && g == ClosestFree(s.free, k)
    requires Equal(s.f, cur, k) && s.f[k] < cur[k]
    requires Proper(cur) && t >= Minutes(cur) && Fits(s, t)
    ensures Proper(FieldsOf(t)) && Minutes(FieldsOf(t)) == t
    ensures Ahead(FieldsOf(t), cur, g) && !Equal(FieldsOf(t), cur, g + 1)
  {
    hide FieldsOf, Minutes;
    FromCur(cur, t);
  }

  lemma BumpBehind(s: State, cur: Fields, k: int, last: int)
    requires 0 <= k <= last <= 4 && k !in s.free && ClosestFree(s.free, k) >= 0
    requires Equal(s.f, cur, k) && s.f[k] < cur[k]
    requires Sane(s, cur) && Settled(s, cur)
    ensures Advanced(Increase(s, k).0, s, cur, last)
  {
    hide FieldsOf, Minutes;
    var g := ClosestFree(s.free, k);
    var s1 := SetField(s, g, s.f[g] + 1, false);
    BumpShape(s, cur, k, g, last);
    assert Bound(s1, cur) by {
      forall t | t >= Minutes(cur) && Fits(s1, t)
        ensures Minutes(s1.f) <= t
      {
        assert Fits(s, t);
        FitsBeyond(s, cur, k, g, t);
        BumpBound(s, s1, cur, k, g, FieldsOf(t));
      }
    }
  }

  lemma BumpShape(s: State, cur: Fields, k: int, g: int, last: int)
    requires 0 <= g < k <= last <= 4 && g == ClosestFree(s.free, k)
    requires Equal(s.f, cur, k) && s.f[k] < cur[k]
    requires Sane(s, cur) && Settled(s, cur)
    ensures var s1 := SetField(s, g, s.f[g] + 1, false);
            && SameGiven(s, s1) && Sane(s1, cur) && Ahead(s1.f, cur, last)
            && (|| Settled(s1, cur)
                || MonthOver(s1)
                || (DayOver(s1) && s1.f[0] == cur[0] && s1.f[1] == cur[1] && s1.f[2] == cur[2] + 1 && Passable(s1))
                || HourOver(s1, cur))
  {
    hide FieldsOf, Minutes;
    if g == 0 {
    } else if g == 1 {
    } else if g == 2 {
    } else {
    }
  }

  lemma BumpBound(s: State, s1: State, cur: Fields, k: int, g: int, f: Fields)
    requires 0 <= g < k <= 4 && g == ClosestFree(s.free, k)
    requires Equal(s.f, cur, k) && s.f[k] < cur[k]
    requires Sane(s, cur) && Settled(s, cur)
    requires s1 == SetField(s, g, s.f[g] + 1, false)
    requires Proper(f) && Agrees(s1, f) && Ahead(f, cur, g)
    requires !Equal(f, cur, g + 1)
    ensures Minutes(s1.f) <= Minutes(f)
  {
    hide FieldsOf, Minutes;
    LowestBelow(s, g, s.f[g] + 1);
    var v := s1.f;
    if g == 1 && cur[1] == 11 {
      OverYearBound(v, f);
    } else if g == 2 && cur[2] == DaysInMonth(cur[0], cur[1]) {
      OverMonthBound(v, f);
    } else if g == 3 && cur[3] == 23 {
      NextDayBound(cur, v[4], f);
    } else {
      CalmBound(v, f);
    }
  }

  /** A thirteenth month stands for January of the next year. */
  lemma OverYearBound(v: Fields, f: Fields)
    requires v[1] == 12 && 1 <= v[2] <= 31 && 0 <= v[3] <= 23 && 0 <= v[4] <= 59
    requires Proper(f) && f[0] > v[0] && !LexLess(f, [v[0] + 1, 0, v[2], v[3], v[4]])
    ensures Minutes(v) <= Minutes(f)
  {
    MonthCarry(v[0], v[2]);
    CalmBound([v[0] + 1, 0, v[2], v[3], v[4]], f);
  }

  /** The day after the last of a month stands for the first of the next. */
  lemma OverMonthBound(v: Fields, f: Fields)
    requires 0 <= v[1] <= 11 && v[2] == DaysInMonth(v[0], v[1]) + 1 && 0 <= v[3] <= 23 && 0 <= v[4] <= 59
    requires Proper(f) && (f[0] > v[0] || (f[0] == v[0] && f[1] > v[1]))
    requires !LexLess([0, 0, 0, f[3], f[4]], [0, 0, 0, v[3], v[4]])
    ensures Minutes(v) <= Minutes(f)
  {
    DayCarry(v[0], v[1], v[2]);
    CalmBound(if v[1] == 11 then [v[0] + 1, 0, 1, v[3], v[4]] else [v[0], v[1] + 1, 1, v[3], v[4]], f);
  }

  /** Midnight plus some minutes after day `cur`, written as hour 24. */
  lemma NextDayBound(cur: Fields, mi: int, f: Fields)
    requires Proper(cur) && Proper(f) && 0 <= mi <= 59 && f[4] == mi
    requires !LexLess(f, cur) && (f[0] != cur[0] || f[1] != cur[1] || f[2] != cur[2])
    ensures Minutes([cur[0], cur[1], cur[2], 24, mi]) <= Minutes(f)
  {
    LaterDate(cur[0], cur[1], cur[2], f[0], f[1], f[2]);
  }

  /** One pass over the fields either leaves an earliest candidate or shows that
      nothing fits. */
  lemma {:induction false} AdvanceKeeps(s: State, cur: Fields, k: int, last: int)
    requires 0 <= last <= 4 && 0 <= k <= last + 1 && Equal(s.f, cur, k)
    requires Sane(s, cur) && Settled(s, cur) && Bound(s, cur)
    ensures var (s1, ok) := Advance(s, cur, k, last);
            if ok then Advanced(s1, s, cur, last) else NoFit(s, cur)
    decreases last + 1 - k
  {
    hide FieldsOf, Minutes;
    if k <= last && s.f[k] <= cur[k] {
      if s.f[k] == cur[k] {
        AdvanceKeeps(s, cur, k + 1, last);
      } else if k in s.free {
        SetToCurrent(s, cur, k);
        var s1 := SetField(s, k, cur[k], false);
        AdvanceKeeps(s1, cur, k + 1, last);
        SameFits(s, s1);
      } else if ClosestFree(s.free, k) == -1 {
        StuckBehind(s, cur, k);
      } else {
        BumpBehind(s, cur, k, last);
      }
    }
  }

  // ------------------------------------------------------------ days of week

  /** The two calls of `tryResolve`: for the date, then for the time of day. */
  predicate Stage(from: int, last: int) {
    (from == YEAR && last == DAY) || (from == HOUR && last == MINUTE)
  }

  /** The date is after that of `cur`. */
  predicate Later(f: Fields, cur: Fields) {
    || f[0] > cur[0]
    || (f[0] == cur[0] && (f[1] > cur[1] || (f[1] == cur[1] && f[2] > cur[2])))
  }

  lemma LaterPasses(s: State, cur: Fields, from: int, last: int)
    requires Stage(from, last) && Later(s.f, cur)
    ensures WithoutWeekdays(s, cur, from, last) == (s, true)
  {
    if from == HOUR {
      assert Compare(s.f, cur, 0, 3) > 0 by {
        assert Compare(s.f, cur, 1, 3) == if s.f[1] != cur[1] then s.f[1] - cur[1] else Compare(s.f, cur, 2, 3);
        assert Compare(s.f, cur, 2, 3) == if s.f[2] != cur[2] then s.f[2] - cur[2] else 0;
      }
    } else if s.f[0] == cur[0] {
      assert Advance(s, cur, 0, 2) == Advance(s, cur, 1, 2);
      if s.f[1] == cur[1] {
        assert Advance(s, cur, 1, 2) == Advance(s, cur, 2, 2);
      }
    }
  }

  lemma CompareDates(f: Fields, cur: Fields)
    requires Ahead(f, cur, DAY)
    ensures Compare(f, cur, 0, 3) == 0 <==> Equal(f, cur, 3)
    ensures Compare(f, cur, 0, 3) >= 0
  {
    assert Compare(f, cur, 1, 3) == if f[1] != cur[1] then f[1] - cur[1] else Compare(f, cur, 2, 3);
    assert Compare(f, cur, 2, 3) == if f[2] != cur[2] then f[2] - cur[2] else 0;
  }

  lemma PassKeeps(s: State, cur: Fields, from: int, last: int)
    requires Stage(from, last) && (from == HOUR ==> Ahead(s.f, cur, DAY))
    requires Sane(s, cur) && Settled(s, cur) && Bound(s, cur)
    ensures var (s1, ok) := WithoutWeekdays(s, cur, from, last);
            if ok then Advanced(s1, s, cur, last) else NoFit(s, cur)
  {
    if from == HOUR {
      CompareDates(s.f, cur);
    }
    if from == YEAR || Equal(s.f, cur, 3) {
      AdvanceKeeps(s, cur, from, last);
    }
  }

  /** In range but for the day of the month. */
  predicate Ranged(s: State) {
    0 <= s.f[1] <= 11 && 1 <= s.f[2] && 0 <= s.f[3] <= 23 && 0 <= s.f[4] <= 59
  }

  lemma TimeOfDay(t: int)
    ensures FieldsOf(t)[3] * 60 + FieldsOf(t)[4] == t % 1440
  {
  }

  lemma DayOfMinutes(f: Fields)
    requires 0 <= f[3] <= 23 && 0 <= f[4] <= 59
    ensures Minutes(f) / 1440 == DayNumber(f[0], f[1], f[2])
  {
  }

  /** A bump of the day from a date of the wrong weekday passes over no fit. */
  lemma WeekdayStep(s: State, cur: Fields)
    requires Sane(s, cur) && Bound(s, cur) && Ranged(s) && Ahead(s.f, cur, DAY)
    requires s.wd != {} && !Compatible(s)
    ensures var s1 := SetField(s, DAY, s.f[DAY] + 1, false);
            && Increase(s, DAY) == (s1, true)
            && SameGiven(s, s1) && Sane(s1, cur) && Bound(s1, cur) && DayOver(s1) && Later(s1.f, cur)
            && s1.f[2] == s.f[2] + 1
            && Minutes(s1.f) / 1440 == Minutes(s.f) / 1440 + 1
  {
    var s1 := SetField(s, DAY, s.f[DAY] + 1, false);
    LowestBelow(s, DAY, s.f[DAY] + 1);
    DayOfMinutes(s.f);
    DayOfMinutes(s1.f);
    SameFits(s, s1);
    forall t | t >= Minutes(cur) && Fits(s1, t)
      ensures Minutes(s1.f) <= t
    {
      NextDayAtLeast(s1.f, Minutes(s.f), t);
    }
  }

  lemma NextDayAtLeast(f: Fields, t0: int, t: int)
    requires 0 <= f[3] <= 23 && 0 <= f[4] <= 59
    requires DayNumber(f[0], f[1], f[2]) == t0 / 1440 + 1
    requires t0 <= t && Weekday(t0) != Weekday(t)
    requires FieldsOf(t)[3] > f[3] || (FieldsOf(t)[3] == f[3] && FieldsOf(t)[4] >= f[4])
    ensures Minutes(f) <= t
  {
    TimeOfDay(t);
  }

  /** Hour 24 of a day of the right weekday becomes the next day. */
  lemma HourOverStep(s: State, cur: Fields)
    requires Sane(s, cur) && Bound(s, cur) && HourOver(s, cur)
    requires s.wd != {}
    ensures var s1 := SetField(s, DAY, s.f[DAY] + 1, false);
            && Increase(s, DAY) == (s1, true)
            && SameGiven(s, s1) && Sane(s1, cur) && Bound(s1, cur) && DayOver(s1) && Later(s1.f, cur)
            && Minutes(s1.f) / 1440 == Minutes(s.f) / 1440
  {
    var s1 := SetField(s, DAY, s.f[DAY] + 1, false);
    LowestBelow(s, DAY, s.f[DAY] + 1);
    assert Minutes(s1.f) == Minutes(s.f);
    SameFits(s, s1);
  }

  /** After `j` days the weekday is right: the loop ends within `j` more bumps. */
  lemma {:induction false} WeekdayLoop(n: nat, s: State, cur: Fields, from: int, last: int, j: nat)
    requires Stage(from, last) && n > j && s.wd != {}
    requires Sane(s, cur) && Bound(s, cur) && DayOver(s) && Later(s.f, cur)
    requires (Minutes(s.f) / 1440 + j + 3) % 7 in s.wd
    ensures var r := Unprojected(n, s, cur, from, last);
            r.Done? && r.value.1 &&
            var s1 := r.value.0;
            && SameGiven(s, s1) && Sane(s1, cur) && Bound(s1, cur) && DayOver(s1) && Later(s1.f, cur)
            && Compatible(s1)
            && s.f[2] <= s1.f[2] <= s.f[2] + j
  {
    hide FieldsOf, Minutes;
    LaterPasses(s, cur, from, last);
    if !Compatible(s) {
      WeekdayStep(s, cur);
      WeekdayLoop(n - 1, SetField(s, DAY, s.f[DAY] + 1, false), cur, from, last, j - 1);
    }
  }

  lemma DaysToWeekday(w0: int, wd: set<int>) returns (j: nat)
    requires wd != {} && wd <= {0, 1, 2, 3, 4, 5, 6}
    ensures j <= 6 && (w0 + j) % 7 in wd
  {
    var w :| w in wd;
    j := (w - w0) % 7;
    assert (w0 + j) % 7 == w;
  }

  /** A target that may be projected: an earliest candidate on a right weekday. */
  ghost predicate Candidate(s1: State, s: State, cur: Fields, last: int)
    requires 0 <= last <= 4
  {
    && SameGiven(s, s1) && Sane(s1, cur) && Bound(s1, cur) && Ahead(s1.f, cur, last) && Compatible(s1)
    && (|| Settled(s1, cur)
        || MonthOver(s1)
        || (DayOver(s1)
            && (s1.wd != {} || (s1.f[0] == cur[0] && s1.f[1] == cur[1] && s1.f[2] == cur[2] + 1 && Passable(s1))))
        || HourOver(s1, cur))
  }

  /** From a successful pass, six bumps of the day reach a right weekday; seven
      when the hour ran past midnight. */
  lemma FinishWeekdays(n: nat, s: State, s1: State, cur: Fields, from: int, last: int)
    requires Stage(from, last) && Advanced(s1, s, cur, last)
    requires n >= if HourOver(s1, cur) then 8 else 7
    requires WithoutWeekdays(s, cur, from, last) == (s1, true)
    ensures var r := Unprojected(n, s, cur, from, last);
            r.Done? && r.value.1 && Candidate(r.value.0, s, cur, last)
  {
    hide FieldsOf, Minutes;
    if !Compatible(s1) {
      var w := Minutes(s1.f) / 1440 + 3;
      var j := DaysToWeekday(w, s1.wd);
      var s2 := SetField(s1, DAY, s1.f[DAY] + 1, false);
      if HourOver(s1, cur) {
        HourOverStep(s1, cur);
        WeekdayLoop(n - 1, s2, cur, from, last, j);
      } else {
        WeekdayStep(s1, cur);
        WeekdayLoop(n - 1, s2, cur, from, last, j - 1);
      }
    }
  }

  lemma UnprojectedKeeps(n: nat, s: State, cur: Fields, from: int, last: int)
    requires n >= 8 && Stage(from, last) && (from == HOUR ==> Ahead(s.f, cur, DAY))
    requires Sane(s, cur) && Settled(s, cur) && Bound(s, cur)
    ensures var r := Unprojected(n, s, cur, from, last);
            r.Done? && if r.value.1 then Candidate(r.value.0, s, cur, last) else NoFit(s, cur)
  {
    hide FieldsOf, Minutes;
    PassKeeps(s, cur, from, last);
    var (s1, ok) := WithoutWeekdays(s, cur, from, last);
    if ok {
      FinishWeekdays(n, s, s1, cur, from, last);
    }
  }

  // -------------------------------------------------------------- projection

  /** Some month (of the given year, if any) ends on day `d`. */
  predicate EndsSomeMonth(d: int, yearFree: bool, y: int) {
    || d == 30 || d == 31
    || (d == 28 && (yearFree || !IsLeap(y)))
    || (d == 29 && (yearFree || IsLeap(y)))
  }

  /** Overflow of the time of day into the next day cannot collide with a given
      month or day after a higher field was already carried. */
  predicate Safe(s: State) {
    Passable(s) ==>
      && !(0 in s.free && 1 !in s.free && s.f[1] == 11 && (2 in s.free || (3 in s.free && s.f[2] == 31)))
      && !(3 in s.free && 1 in s.free && 2 !in s.free && (0 in s.free || s.f[0] >= 70)
           && EndsSomeMonth(s.f[2], 0 in s.free, s.f[0]))
  }

  lemma ResolvesTo(v: Fields, w: Fields)
    requires Proper(w) && Minutes(v) == Minutes(w)
    ensures FieldsOf(Minutes(v)) == w
  {
    MktimeKeepsProper(w);
  }

  /** What the calendar makes of a candidate: never earlier in any field order,
      with the same minute, and the same hour unless that ran past midnight. */
  predicate Resolves(s1: State, cur: Fields, n: Fields) {
    && Proper(n) && Minutes(n) == Minutes(s1.f) && !LexLess(n, s1.f)
    && n[4] == s1.f[4]
    && (if HourOver(s1, cur) then n == DayAfter([s1.f[0], s1.f[1], s1.f[2] + 1, 0, s1.f[4]]) else n[3] == s1.f[3])
    && (Settled(s1, cur) ==> n == s1.f || (IsLong(s1.f) && n == InNextMonth(s1.f)))
    && (MonthOver(s1) ==> n == [s1.f[0] + 1, 0, s1.f[2], s1.f[3], s1.f[4]])
    && (DayOver(s1) && s1.wd == {} ==> Settled(s1, cur) || n == DayAfter(s1.f))
  }

  predicate IsLong(v: Fields) {
    v[1] < 11 && v[2] > DaysInMonth(v[0], v[1])
  }

  function InNextMonth(v: Fields): Fields {
    [v[0], v[1] + 1, v[2] - DaysInMonth(v[0], v[1]), v[3], v[4]]
  }

  /** The fields with the day one past a day of the calendar. */
  function DayAfter(v: Fields): Fields {
    if v[2] <= DaysInMonth(v[0], v[1]) then v
    else if v[1] < 11 then [v[0], v[1] + 1, 1, v[3], v[4]]
    else [v[0] + 1, 0, 1, v[3], v[4]]
  }

  lemma CandidateResolves(s1: State, s: State, cur: Fields, last: int)
    requires 0 <= last <= 4 && Candidate(s1, s, cur, last)
    ensures Resolves(s1, cur, FieldsOf(Minutes(s1.f)))
  {
    hide FieldsOf, Minutes;
    var v := s1.f;
    FieldsOfProper(Minutes(v));
    if Settled(s1, cur) {
      SettledResolves(v);
    } else if MonthOver(s1) {
      MonthOverResolves(v);
    } else if HourOver(s1, cur) {
      HourOverResolves(v);
    } else {
      if s1.wd == {} {
        DayAfterResolves(v);
      }
      DayOverResolves(v, FieldsOf(Minutes(v)));
    }
  }

  lemma LongDate(v: Fields)
    requires 0 <= v[1] && IsLong(v)
    ensures Minutes(v) == Minutes(InNextMonth(v))
  {
    DayCarry(v[0], v[1], v[2]);
  }

  lemma SettledResolves(v: Fields)
    requires Calm(v)
    ensures var n := FieldsOf(Minutes(v)); n == v || (IsLong(v) && n == InNextMonth(v))
  {
    hide FieldsOf, Minutes;
    if v[2] <= DaysInMonth(v[0], v[1]) {
      ResolvesTo(v, v);
    } else {
      LongDate(v);
      ResolvesTo(v, InNextMonth(v));
    }
  }

  lemma MonthOverResolves(v: Fields)
    requires v[1] == 12 && 1 <= v[2] <= 31 && 0 <= v[3] <= 23 && 0 <= v[4] <= 59
    ensures FieldsOf(Minutes(v)) == [v[0] + 1, 0, v[2], v[3], v[4]]
  {
    MonthCarry(v[0], v[2]);
    ResolvesTo(v, [v[0] + 1, 0, v[2], v[3], v[4]]);
  }

  lemma HourOverResolves(v: Fields)
    requires 0 <= v[1] <= 11 && 1 <= v[2] <= DaysInMonth(v[0], v[1]) && v[3] == 24 && 0 <= v[4] <= 59
    ensures FieldsOf(Minutes(v)) == DayAfter([v[0], v[1], v[2] + 1, 0, v[4]])
  {
    hide FieldsOf;
    DayAfterResolves([v[0], v[1], v[2] + 1, 0, v[4]]);
    assert Minutes(v) == Minutes([v[0], v[1], v[2] + 1, 0, v[4]]);
  }

  lemma DayAfterResolves(v: Fields)
    requires 0 <= v[1] <= 11 && 1 <= v[2] <= DaysInMonth(v[0], v[1]) + 1
    requires 0 <= v[3] <= 23 && 0 <= v[4] <= 59
    ensures FieldsOf(Minutes(v)) == DayAfter(v)
  {
    DayCarry(v[0], v[1], v[2]);
    ResolvesTo(v, DayAfter(v));
  }

  lemma DayOverResolves(v: Fields, n: Fields)
    requires 0 <= v[1] <= 11 && 1 <= v[2] && 0 <= v[3] <= 23 && 0 <= v[4] <= 59
    requires Proper(n) && Minutes(n) == Minutes(v)
    ensures n[3] == v[3] && n[4] == v[4] && !LexLess(n, v)
    ensures n[0] == v[0] && n[1] == v[1] ==> n[2] == v[2]
  {
    DayOfMinutes(n);
    DayOfMinutes(v);
    if n[0] < v[0] || (n[0] == v[0] && n[1] < v[1]) {
      LaterDate(n[0], n[1], n[2], v[0], v[1], v[2]);
    }
  }

  /** No instant from `cur` to the end of day `day` fits, and that day is not
      before the day of `cur`. */
  ghost predicate SkipsTo(s: State, cur: Fields, day: int) {
    && Minutes(cur) / 1440 <= day
    && forall t :: t >= Minutes(cur) && Fits(s, t) ==> t / 1440 > day
  }

  lemma AheadByDay(n: Fields, cur: Fields)
    requires Proper(n) && Proper(cur) && Ahead(n, cur, DAY)
    ensures Minutes(cur) / 1440 <= Minutes(n) / 1440
  {
    DayOfMinutes(n);
    DayOfMinutes(cur);
    if n[0] != cur[0] || n[1] != cur[1] || n[2] != cur[2] {
      LaterDate(cur[0], cur[1], cur[2], n[0], n[1], n[2]);
    }
  }

  lemma SameDate(t: int, u: int, j: int)
    requires t / 1440 == u / 1440 && 0 <= j <= 2
    ensures FieldsOf(t)[j] == FieldsOf(u)[j]
  {
  }

  /** A projection that stops at a given field before changing anything shows
      that the day it stands for does not fit. */
  lemma StopRulesOutDay(s: State, cur: Fields, n: Fields, j: int)
    requires Sane(s, cur) && Bound(s, cur)
    requires Proper(n) && n == FieldsOf(Minutes(s.f)) && Minutes(n) == Minutes(s.f)
    requires 0 <= j <= 2 && j !in s.free && s.f[j] != n[j]
    requires Ahead(n, cur, DAY)
    ensures SkipsTo(s, cur, Minutes(s.f) / 1440)
  {
    AheadByDay(n, cur);
    forall t | t >= Minutes(cur) && Fits(s, t)
      ensures t / 1440 > Minutes(s.f) / 1440
    {
      if t / 1440 == Minutes(s.f) / 1440 {
        SameDate(t, Minutes(s.f), j);
      }
    }
  }

  /** When in addition every field above is given, nothing fits at all. */
  lemma StopRulesOutAll(s: State, cur: Fields, n: Fields, j: int)
    requires Bound(s, cur)
    requires Proper(n) && Minutes(n) == Minutes(s.f) && !LexLess(n, s.f)
    requires 0 <= j <= 4 && j !in s.free && s.f[j] != n[j]
    requires forall i | 0 <= i < j :: i !in s.free && s.f[i] == n[i]
    ensures NoFit(s, cur)
  {
    forall t | t >= Minutes(cur) && Fits(s, t)
      ensures false
    {
      FieldsOfProper(t);
      LexLessIsEarlier(FieldsOf(t), n);
    }
  }

  /** A calendar time that nothing earlier can replace. */
  ghost predicate Placed(s2: State, s: State, cur: Fields, last: int)
    requires 0 <= last <= 4
  {
    && SameGiven(s, s2) && Sane(s2, cur) && Bound(s2, cur) && Ahead(s2.f, cur, last)
    && Proper(s2.f) && Compatible(s2) && (SameDay(s2, cur) || LowTime(s2))
  }

  lemma PlacedInFull(s1: State, s: State, cur: Fields, last: int, s2: State)
    requires 0 <= last <= 4 && Candidate(s1, s, cur, last)
    requires Resolves(s1, cur, s2.f)
    requires s2.free == s1.free && s2.wd == s1.wd && Agrees(s1, s2.f)
    ensures Placed(s2, s, cur, last)
  {
    SameFits(s1, s2);
  }

  /** Only a given day past the end of a month is left behind by a projection
      that changed a higher field; the next month has that day. */
  lemma StopAfterChange(s1: State, s: State, cur: Fields, last: int, n: Fields, j: int)
    requires 0 <= last <= 4 && Candidate(s1, s, cur, last) && Safe(s1) && Resolves(s1, cur, n)
    requires 0 <= j < 5 && j !in s1.free && s1.f[j] != n[j]
    requires forall i | 0 <= i < j :: i in s1.free || s1.f[i] == n[i]
    ensures j <= 2
    ensures Moves(s1, n, j) ==> j == 2 && Settled(s1, cur) && IsLong(s1.f) && n == InNextMonth(s1.f) && 1 in s1.free
  {
    hide FieldsOf, Minutes;
  }

  lemma LongMonthBound(s1: State, cur: Fields, s2: State)
    requires Sane(s1, cur) && Settled(s1, cur) && Bound(s1, cur) && IsLong(s1.f) && 1 in s1.free && 2 !in s1.free
    requires s2 == s1.(f := [s1.f[0], s1.f[1] + 1, s1.f[2], s1.f[3], s1.f[4]])
    ensures Bound(s2, cur)
  {
    hide FieldsOf, Minutes;
    SameFits(s1, s2);
    forall t | t >= Minutes(cur) && Fits(s2, t)
      ensures Minutes(s2.f) <= t
    {
      FieldsOfProper(t);
      var g := FieldsOf(t);
      LongDate(s1.f);
      LexLessIsEarlier(g, InNextMonth(s1.f));
      CalmBound(s2.f, g);
    }
  }

  lemma StopWithoutChange(s1: State, s: State, cur: Fields, last: int, n: Fields, j: int)
    requires 2 <= last <= 4 && Candidate(s1, s, cur, last)
    requires n == FieldsOf(Minutes(s1.f)) && Resolves(s1, cur, n)
    requires 0 <= j <= 2 && j !in s1.free && s1.f[j] != n[j]
    requires forall i | 0 <= i < j :: i in s1.free || s1.f[i] == n[i]
    requires !Moves(s1, n, j)
    ensures if Loose(s1, j) then SkipsTo(s, cur, Minutes(s1.f) / 1440) else NoFit(s, cur)
  {
    SameFits(s, s1);
    if Loose(s1, j) {
      StopRulesOutDay(s1, cur, n, j);
    } else {
      StopRulesOutAll(s1, cur, n, j);
    }
  }

  ghost predicate Projected(r: (State, Projection), s: State, cur: Fields, last: int)
    requires 0 <= last <= 4
  {
    match r.1
    case Succeeded => Placed(r.0, s, cur, last)
    case Changed => Placed(r.0, s, cur, last)
    case Failed => SkipsTo(s, cur, Minutes(r.0.f) / 1440)
    case Unfit => NoFit(s, cur)
  }

  /** One projection of a candidate. */
  lemma ProjectKeeps(s1: State, s: State, cur: Fields, last: int)
    requires 2 <= last <= 4 && Candidate(s1, s, cur, last) && Safe(s1)
    ensures Projected(Project(s1), s, cur, last)
  {
    hide FieldsOf, Minutes;
    var n := FieldsOf(Minutes(s1.f));
    var (s2, p) := Project(s1);
    var j := StopAt(s1, n, 0);
    CandidateResolves(s1, s, cur, last);
    if j == 5 {
      assert s2.f == n;
      PlacedInFull(s1, s, cur, last, s2);
      if !Moves(s1, n, 5) {
        assert s1.f == n;
      }
    } else {
      StopAfterChange(s1, s, cur, last, n, j);
      if Moves(s1, n, j) {
        assert s2.f == [s1.f[0], s1.f[1] + 1, s1.f[2], s1.f[3], s1.f[4]];
        LongMonthBound(s1, cur, s2);
      } else {
        assert s2.f == s1.f;
        StopWithoutChange(s1, s, cur, last, n, j);
      }
    }
  }

  // ------------------------------------------------------------- the recursion

  lemma AheadPasses(s: State, cur: Fields, from: int, last: int)
    requires Stage(from, last) && Ahead(s.f, cur, last)
    ensures WithoutWeekdays(s, cur, from, last) == (s, true)
  {
    if Later(s.f, cur) {
      LaterPasses(s, cur, from, last);
    } else {
      CompareDates(s.f, cur);
      if from == HOUR {
        assert s.f[3] == cur[3] ==> Advance(s, cur, 3, 4) == Advance(s, cur, 4, 4);
      } else {
        assert Advance(s, cur, 0, 2) == Advance(s, cur, 1, 2) == Advance(s, cur, 2, 2);
      }
    }
  }

  /** A further call leaves a calendar time found by a projection as it is. */
  lemma PlacedResolves(n: nat, s2: State, s: State, cur: Fields, from: int, last: int)
    requires n >= 1 && Stage(from, last) && Placed(s2, s, cur, last)
    ensures TryResolve(n, s2, cur, from, last) == Done((s2, Resolved))
  {
    AheadPasses(s2, cur, from, last);
    MktimeKeepsProper(s2.f);
    var (s3, p) := Project(s2);
    assert s3.f == s2.f;
  }

  /** What a call of `tryResolve` may end with: the earliest time that fits, a day
      without a fit after which the search must go on, or no fit at all. */
  ghost predicate Answers(r: (State, Resolution), s: State, cur: Fields, last: int)
    requires 0 <= last <= 4
  {
    match r.1
    case Resolved => Placed(r.0, s, cur, last)
    case Unresolved => SkipsTo(s, cur, Minutes(r.0.f) / 1440)
    case Impossible => NoFit(s, cur)
  }

  /** How a call goes on from a projection, given what the next call returns. */
  function Conclude(r: (State, Projection), next: Run<(State, Resolution)>): Run<(State, Resolution)> {
    match r.1
    case Changed => next
    case Succeeded => Done((r.0, Resolved))
    case Failed => Done((r.0, Unresolved))
    case Unfit => Done((r.0, Impossible))
  }

  lemma TryResolveCall(n: nat, s: State, cur: Fields, from: int, last: int, s1: State)
    requires n >= 1 && Stage(from, last)
    requires Unprojected(n, s, cur, from, last) == Done((s1, true))
    ensures TryResolve(n, s, cur, from, last)
            == Conclude(Project(s1), TryResolve(n - 1, Project(s1).0, cur, from, last))
  {
  }

  ghost predicate EndsWell(r: Run<(State, Resolution)>, s: State, cur: Fields, last: int)
    requires 0 <= last <= 4
  {
    r.Done? && Answers(r.value, s, cur, last)
  }

  lemma ConcludeEndsWell(r: (State, Projection), next: Run<(State, Resolution)>, s: State, cur: Fields, last: int)
    requires 0 <= last <= 4 && Projected(r, s, cur, last)
    requires r.1 == Changed ==> next == Done((r.0, Resolved))
    ensures EndsWell(Conclude(r, next), s, cur, last)
  {
  }

  lemma NextCall(n: nat, r: (State, Projection), s: State, cur: Fields, from: int, last: int)
    returns (next: Run<(State, Resolution)>)
    requires n >= 1 && Stage(from, last) && Projected(r, s, cur, last)
    ensures next == TryResolve(n, r.0, cur, from, last)
    ensures r.1 == Changed ==> next == Done((r.0, Resolved))
  {
    next := TryResolve(n, r.0, cur, from, last);
    if r.1 == Changed {
      PlacedResolves(n, r.0, s, cur, from, last);
    }
  }

  lemma ProjectThenResolve(n: nat, s1: State, s: State, cur: Fields, from: int, last: int)
    requires n >= 2 && Stage(from, last) && Projected(Project(s1), s, cur, last)
    requires Unprojected(n, s, cur, from, last) == Done((s1, true))
    ensures EndsWell(TryResolve(n, s, cur, from, last), s, cur, last)
  {
    hide Project, TryResolve, Unprojected, Projected, EndsWell, Conclude;
    var next := NextCall(n - 1, Project(s1), s, cur, from, last);
    ConcludeEndsWell(Project(s1), next, s, cur, last);
    TryResolveCall(n, s, cur, from, last, s1);
  }

  /** `tryResolve` ends, with a right answer. */
  lemma TryResolveKeeps(n: nat, s: State, cur: Fields, from: int, last: int)
    requires Stage(from, last) && (from == HOUR ==> Ahead(s.f, cur, DAY))
    requires Sane(s, cur) && Settled(s, cur) && Bound(s, cur) && Safe(s)
    ensures n >= 8 ==> TryResolve(n, s, cur, from, last).Done?
    ensures TryResolve(n, s, cur, from, last).Done? ==> EndsWell(TryResolve(n, s, cur, from, last), s, cur, last)
  {
    hide TryResolve;
    if n >= 8 {
      TryResolveEnds(n, s, cur, from, last);
    } else if TryResolve(n, s, cur, from, last).Done? {
      MoreResolves(n, 8, s, cur, from, last);
      TryResolveEnds(8, s, cur, from, last);
    }
  }

  lemma TryResolveEnds(n: nat, s: State, cur: Fields, from: int, last: int)
    requires n >= 8 && Stage(from, last) && (from == HOUR ==> Ahead(s.f, cur, DAY))
    requires Sane(s, cur) && Settled(s, cur) && Bound(s, cur) && Safe(s)
    ensures EndsWell(TryResolve(n, s, cur, from, last), s, cur, last)
  {
    UnprojectedKeeps(n, s, cur, from, last);
    var (s1, ok) := Unprojected(n, s, cur, from, last).value;
    if ok {
      SafeKept(s, s1);
      ProjectKeeps(s1, s, cur, last);
      ProjectThenResolve(n, s1, s, cur, from, last);
    }
  }

  // More rounds or calls change no outcome.

  lemma {:induction false} MoreRounds(n: nat, m: nat, s: State, cur: Fields, from: int, last: int)
    requires 0 <= from <= last <= 4 && n <= m && Unprojected(n, s, cur, from, last).Done?
    ensures Unprojected(m, s, cur, from, last) == Unprojected(n, s, cur, from, last)
  {
    hide Minutes, Weekday;
    var (s1, ok) := WithoutWeekdays(s, cur, from, last);
    if ok && !Compatible(s1) && Increase(s1, DAY).1 {
      MoreRounds(n - 1, m - 1, Increase(s1, DAY).0, cur, from, last);
    }
  }

  lemma {:induction false} MoreResolves(n: nat, m: nat, s: State, cur: Fields, from: int, last: int)
    requires 0 <= from <= last <= 4 && n <= m && TryResolve(n, s, cur, from, last).Done?
    ensures TryResolve(m, s, cur, from, last) == TryResolve(n, s, cur, from, last)
  {
    hide Minutes, FieldsOf, Unprojected, StopAt;
    MoreRounds(n, m, s, cur, from, last);
    var (s1, ok) := Unprojected(n, s, cur, from, last).value;
    if ok && Project(s1).1 == Changed {
      MoreResolves(n - 1, m - 1, Project(s1).0, cur, from, last);
    }
  }

  lemma SafeKept(s: State, s1: State)
    requires SameGiven(s, s1) && Safe(s)
    ensures Safe(s1)
  {
  }
}
