/** A search of `DateTime` never changes what is given, and only goes forward. */
module ResolverClimb {
  import opened Calendar
  import opened Resolver
  import opened ResolverProof

  // ------------------------------------------------------ given fields stay

  lemma GivenTwice(a: State, b: State, c: State)
    requires SameGiven(a, b) && SameGiven(b, c)
    ensures SameGiven(a, c)
  {
  }

  /** What setting a field does: -1 frees it; a value is stored, fixes it if asked to, and
      sets every free field below it back to its lowest value, 1 for the day. A date field
      is not fixed next to a weekday constraint. */
  lemma SetFieldIs(s: State, k: int, value: int, fixesIfChanged: bool)
    requires 0 <= k < 5
    ensures var r := SetField(s, k, value, fixesIfChanged);
            && r.wd == s.wd
            && (value == -1 ==> r.f == s.f && r.free == s.free + {k})
            && (value != -1 ==>
                  && r.f[k] == value && (forall i | 0 <= i < k :: r.f[i] == s.f[i])
                  && (forall i | k < i < 5 ::
                        r.f[i] == if i !in s.free then s.f[i] else if i == DAY then 1 else 0)
                  && r.free == if fixesIfChanged && !(k <= DAY && s.wd != {}) then s.free - {k} else s.free)
  {
  }

  lemma IncreaseGiven(s: State, k: int)
    requires 0 <= k < 5
    ensures SameGiven(s, Increase(s, k).0)
  {
  }

  lemma {:induction false} AdvanceGiven(s: State, cur: Fields, k: int, last: int)
    requires 0 <= k <= last + 1 <= 5
    ensures SameGiven(s, Advance(s, cur, k, last).0)
    decreases last + 1 - k
  {
    hide Increase;
    if k <= last && s.f[k] <= cur[k] {
      if s.f[k] == cur[k] {
        AdvanceGiven(s, cur, k + 1, last);
      } else if k in s.free {
        AdvanceGiven(SetField(s, k, cur[k], false), cur, k + 1, last);
      } else {
        IncreaseGiven(s, k);
      }
    }
  }

  lemma {:induction false} UnprojectedGiven(n: nat, s: State, cur: Fields, from: int, last: int)
    requires 0 <= from <= last <= 4
    ensures var r := Unprojected(n, s, cur, from, last);
            r.Done? ==> SameGiven(s, r.value.0)
    decreases n
  {
    hide Increase, Advance, SameGiven, Compatible;
    if n > 0 {
      var (s1, ok) := WithoutWeekdays(s, cur, from, last);
      AdvanceGiven(s, cur, from, last);
      Itself(s);
      if ok && !Compatible(s1) {
        var (s2, ok2) := Increase(s1, DAY);
        IncreaseGiven(s1, DAY);
        GivenTwice(s, s1, s2);
        if ok2 && Unprojected(n - 1, s2, cur, from, last).Done? {
          UnprojectedGiven(n - 1, s2, cur, from, last);
          GivenTwice(s, s2, Unprojected(n - 1, s2, cur, from, last).value.0);
        }
      }
    }
  }

  lemma Itself(s: State)
    ensures SameGiven(s, s)
  {
  }

  lemma ProjectGiven(s: State)
    ensures SameGiven(s, Project(s).0)
  {
    hide FieldsOf, Minutes;
  }

  /** The search never changes a given field or the allowed days of the week. */
  lemma {:induction false} GivenFieldsStay(n: nat, s: State, cur: Fields, from: int, last: int)
    requires 0 <= from <= last <= 4
    ensures var r := TryResolve(n, s, cur, from, last);
            r.Done? ==> SameGiven(s, r.value.0)
    decreases n
  {
    hide Unprojected, Project, SameGiven;
    if n > 0 && Unprojected(n, s, cur, from, last).Done? {
      var (s1, ok) := Unprojected(n, s, cur, from, last).value;
      UnprojectedGiven(n, s, cur, from, last);
      var s2 := Project(s1).0;
      ProjectGiven(s1);
      GivenTwice(s, s1, s2);
      if ok && Project(s1).1 == Changed && TryResolve(n - 1, s2, cur, from, last).Done? {
        GivenFieldsStay(n - 1, s2, cur, from, last);
        GivenTwice(s, s2, TryResolve(n - 1, s2, cur, from, last).value.0);
      }
    }
  }

  // ------------------------------------------------ the search only goes forward

  /** No field below its lowest value. */
  predicate Low(f: Fields) {
    0 <= f[1] && 1 <= f[2] && 0 <= f[3] && 0 <= f[4]
  }

  /** What a search climbs from; a free year is not one before 1900. */
  predicate Upward(s: State) {
    Low(s.f) && (0 in s.free ==> s.f[0] >= 0)
  }

  /** Months past December are months of later years. */
  lemma MonthsAsYears(y: int, m: int, d: int)
    requires 0 <= m
    ensures DayNumber(y, m, d) == DayNumber(y + m / 12, m % 12, d) && (m >= 12 ==> m / 12 > 0)
  {
  }

  /** The calendar resolves overflow upwards. */
  lemma NormClimbs(v: Fields)
    requires Low(v)
    ensures !LexLess(FieldsOf(Minutes(v)), v)
  {
    hide FieldsOf;
    var n := FieldsOf(Minutes(v));
    FieldsOfProper(Minutes(v));
    DayOfMinutes(n);
    assert Minutes(v) / 1440 >= DayNumber(v[0], v[1], v[2]);
    MonthsAsYears(v[0], v[1], v[2]);
    if LexLess(n, v) && !(n[0] == v[0] && n[1] == v[1] && n[2] >= v[2]) {
      LaterDate(n[0], n[1], n[2], v[0] + v[1] / 12, v[1] % 12, v[2]);
    }
  }

  /** A projection that changes fields makes them larger; none makes them smaller. */
  lemma ProjectionClimbs(s: State)
    requires Low(s.f)
    ensures var (s1, p) := Project(s);
            && s1.free == s.free && s1.wd == s.wd && Low(s1.f) && s1.f[0] >= s.f[0]
            && (if p == Changed then LexLess(s.f, s1.f) else !LexLess(s1.f, s.f))
  {
    hide FieldsOf, Minutes;
    NormClimbs(s.f);
    FieldsOfProper(Minutes(s.f));
  }

  /** A step leads upward. */
  predicate Climbs(s: State, s1: State) {
    Upward(s1) && s1.free == s.free && !LexLess(s1.f, s.f)
  }

  lemma ClimbsTwice(a: State, b: State, c: State)
    requires Climbs(a, b) && Climbs(b, c)
    ensures Climbs(a, c)
  {
  }

  lemma IncreaseClimbs(s: State, k: int)
    requires 0 <= k < 5 && Upward(s)
    ensures Climbs(s, Increase(s, k).0)
  {
  }

  lemma SetClimbs(s: State, cur: Fields, k: int)
    requires 0 <= k < 5 && Upward(s) && Proper(cur) && cur[0] >= 0 && k in s.free && s.f[k] < cur[k]
    ensures Climbs(s, SetField(s, k, cur[k], false))
  {
  }

  lemma {:induction false} AdvanceClimbs(s: State, cur: Fields, k: int, last: int)
    requires 0 <= k <= last + 1 <= 5 && Upward(s) && Proper(cur) && cur[0] >= 0
    ensures Climbs(s, Advance(s, cur, k, last).0)
    decreases last + 1 - k
  {
    hide Increase, SetField, Proper;
    if k <= last && s.f[k] <= cur[k] {
      if s.f[k] == cur[k] {
        AdvanceClimbs(s, cur, k + 1, last);
      } else if k in s.free {
        var s1 := SetField(s, k, cur[k], false);
        SetClimbs(s, cur, k);
        AdvanceClimbs(s1, cur, k + 1, last);
        ClimbsTwice(s, s1, Advance(s1, cur, k + 1, last).0);
      } else {
        IncreaseClimbs(s, k);
      }
    }
  }

  lemma {:induction false} UnprojectedClimbs(n: nat, s: State, cur: Fields, from: int, last: int)
    requires 0 <= from <= last <= 4 && Upward(s) && Proper(cur) && cur[0] >= 0
    ensures var r := Unprojected(n, s, cur, from, last);
            r.Done? ==> Climbs(s, r.value.0)
    decreases n
  {
    hide Increase, Advance, Compatible, Proper, LexLess;
    if n > 0 {
      var (s1, ok) := WithoutWeekdays(s, cur, from, last);
      AdvanceClimbs(s, cur, from, last);
      NoFall(s);
      if ok && !Compatible(s1) {
        var (s2, ok2) := Increase(s1, DAY);
        IncreaseClimbs(s1, DAY);
        ClimbsTwice(s, s1, s2);
        if ok2 && Unprojected(n - 1, s2, cur, from, last).Done? {
          UnprojectedClimbs(n - 1, s2, cur, from, last);
          ClimbsTwice(s, s2, Unprojected(n - 1, s2, cur, from, last).value.0);
        }
      }
    }
  }

  lemma NoFall(s: State)
    requires Upward(s)
    ensures Climbs(s, s)
  {
  }

  /** The states that the calls of `tryResolve` start from, the first `n` of them. */
  ghost function Calls(n: nat, s: State, cur: Fields, from: int, last: int): seq<State>
    requires 0 <= from <= last <= 4
  {
    if n == 0 then []
    else
      var r := Unprojected(n, s, cur, from, last);
      if r.Done? && r.value.1 && Project(r.value.0).1 == Changed
      then [s] + Calls(n - 1, Project(r.value.0).0, cur, from, last)
      else [s]
  }

  /** These are the calls of the recursion: each has the outcome of the first. */
  lemma {:induction false} CallsAreMade(n: nat, s: State, cur: Fields, from: int, last: int)
    requires 0 <= from <= last <= 4
    ensures var calls := Calls(n, s, cur, from, last);
            |calls| <= n && forall i | 0 <= i < |calls| ::
              TryResolve(n - i, calls[i], cur, from, last) == TryResolve(n, s, cur, from, last)
    decreases n
  {
    hide Unprojected, Project;
    if n > 0 {
      var r := Unprojected(n, s, cur, from, last);
      if r.Done? && r.value.1 && Project(r.value.0).1 == Changed {
        CallsAreMade(n - 1, Project(r.value.0).0, cur, from, last);
      }
    }
  }

  /** Each state has lexicographically larger fields than every one before it. */
  ghost predicate Climbing(calls: seq<State>) {
    forall i, j | 0 <= i < j < |calls| :: LexLess(calls[i].f, calls[j].f)
  }

  /** Every recursive call of `tryResolve` starts from larger fields than the calls
      before it, and the search ends on no smaller ones. */
  lemma {:induction false} CallsClimb(n: nat, s: State, cur: Fields, from: int, last: int)
    requires 0 <= from <= last <= 4 && Upward(s) && Proper(cur) && cur[0] >= 0
    ensures Climbing(Calls(n, s, cur, from, last))
    ensures forall c | c in Calls(n, s, cur, from, last) :: !LexLess(c.f, s.f)
    ensures var r := TryResolve(n, s, cur, from, last);
            r.Done? ==> Climbs(s, r.value.0)
    decreases n
  {
    hide Unprojected, Project, Proper, LexLess, Upward;
    if n > 0 && Unprojected(n, s, cur, from, last).Done? {
      var (s1, ok) := Unprojected(n, s, cur, from, last).value;
      UnprojectedClimbs(n, s, cur, from, last);
      var (s2, p) := Project(s1);
      OneCallClimbs(s, s1);
      if ok && p == Changed {
        CallsClimb(n - 1, s2, cur, from, last);
        CallsAfter(s, s2, Calls(n - 1, s2, cur, from, last));
        if TryResolve(n - 1, s2, cur, from, last).Done? {
          ClimbsTwice(s, s2, TryResolve(n - 1, s2, cur, from, last).value.0);
        }
      }
    }
    Irreflexive(s.f);
  }

  lemma Irreflexive(f: Fields)
    ensures !LexLess(f, f)
  {
  }

  lemma OneCallClimbs(s: State, s1: State)
    requires Climbs(s, s1)
    ensures var (s2, p) := Project(s1); Climbs(s, s2) && (p == Changed ==> LexLess(s.f, s2.f))
  {
    hide Project;
    ProjectionClimbs(s1);
  }

  lemma CallsAfter(s: State, s2: State, calls: seq<State>)
    requires LexLess(s.f, s2.f) && Climbing(calls) && forall c | c in calls :: !LexLess(c.f, s2.f)
    ensures Climbing([s] + calls) && forall c | c in [s] + calls :: !LexLess(c.f, s.f)
  {
    forall c | c in calls ensures LexLess(s.f, c.f) && !LexLess(c.f, s.f) {
      LargerStill(s.f, s2.f, c.f);
    }
    hide LexLess;
    Irreflexive(s.f);
  }

  lemma LargerStill(a: Fields, b: Fields, c: Fields)
    requires LexLess(a, b) && !LexLess(c, b)
    ensures LexLess(a, c) && !LexLess(c, a)
  {
  }
}
