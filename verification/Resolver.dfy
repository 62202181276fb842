/** The search of `DateTime` for a calendar time that meets a set of
    constraints, as functions on the value of a `DateTime`. Class `DateTime` in
    module `DateTimes` runs the same steps in place. */
module Resolver {
  import opened Calendar

  /** The value of a `DateTime`: its fields, the fields that are not given and
      may be adjusted, and the allowed days of the week (none means any). */
  datatype State = State(f: Fields, free: set<int>, wd: set<int>)

  /** The outcome of a computation that may not have ended within a number of
      calls. */
  datatype Run<+T> = Running | Done(value: T)

  datatype Projection = Succeeded | Failed | Changed | Unfit

  datatype Resolution = Resolved | Unresolved | Impossible

  function Lowest(k: int): int {
    if k == DAY then 1 else 0
  }

  function AfterReset(s: State, k: int, i: int): int
    requires 0 <= i < 5
  {
    if i >= k && i in s.free then Lowest(i) else s.f[i]
  }

  /** Every free field from `k` on goes back to its lowest value. */
  function ResetFrom(s: State, k: int): State {
    s.(f := [AfterReset(s, k, 0), AfterReset(s, k, 1), AfterReset(s, k, 2), AfterReset(s, k, 3), AfterReset(s, k, 4)])
  }

  function SetField(s: State, k: int, value: int, fixesIfChanged: bool): State
    requires 0 <= k < 5
  {
    if value == -1 then s.(free := s.free + {k})
    else
      var fixes := fixesIfChanged && (k > DAY || s.wd == {});
      ResetFrom(State(s.f[k := value], if fixes then s.free - {k} else s.free, s.wd), k + 1)
  }

  /** The closest free field at or above `k`, or -1. */
  function ClosestFree(free: set<int>, k: int): (g: int)
    requires k >= -1
    ensures -1 <= g <= k && (g >= 0 ==> g in free)
    ensures forall i :: g < i <= k ==> i !in free
  {
    if k == -1 || k in free then k else ClosestFree(free, k - 1)
  }

  function Increase(s: State, k: int): (State, bool)
    requires 0 <= k < 5
  {
    var g := ClosestFree(s.free, k);
    if g == -1 then (s, false) else (SetField(s, g, s.f[g] + 1, false), true)
  }

  /** How the fields from `k` to before `to` compare: negative, zero or positive. */
  function Compare(a: Fields, b: Fields, k: int, last: int): int
    requires 0 <= k <= last <= 5
    decreases last - k
  {
    if k == last then 0
    else if a[k] != b[k] then a[k] - b[k]
    else Compare(a, b, k + 1, last)
  }

  /** Moves the fields from `k` to `to` up to `cur`, as far as they are free. */
  function Advance(s: State, cur: Fields, k: int, last: int): (State, bool)
    requires 0 <= k <= last + 1 <= 5
    decreases last + 1 - k
  {
    if k > last || s.f[k] > cur[k] then (s, true)
    else if s.f[k] == cur[k] then Advance(s, cur, k + 1, last)
    else if k in s.free then Advance(SetField(s, k, cur[k], false), cur, k + 1, last)
    else Increase(s, k)
  }

  function WithoutWeekdays(s: State, cur: Fields, from: int, last: int): (State, bool)
    requires 0 <= from <= last <= 4
  {
    var c := Compare(s.f, cur, 0, from);
    if c > 0 then (s, true)
    else if c < 0 then (s, false)
    else Advance(s, cur, from, last)
  }

  predicate Compatible(s: State) {
    s.wd == {} || Weekday(Minutes(s.f)) in s.wd
  }

  /** The loop over days of the week, within `n` rounds. */
  function Unprojected(n: nat, s: State, cur: Fields, from: int, last: int): Run<(State, bool)>
    requires 0 <= from <= last <= 4
  {
    if n == 0 then Running
    else
      var (s1, ok) := WithoutWeekdays(s, cur, from, last);
      if !ok then Done((s1, false))
      else if Compatible(s1) then Done((s1, true))
      else
        var (s2, ok2) := Increase(s1, DAY);
        if ok2 then Unprojected(n - 1, s2, cur, from, last) else Done((s2, false))
  }

  /** The first given field from `k` on that differs from the calendar, or 5. */
  function StopAt(s: State, n: Fields, k: int): (j: int)
    requires 0 <= k <= 5
    ensures k <= j <= 5
    ensures j < 5 ==> j !in s.free && s.f[j] != n[j]
    ensures forall i :: k <= i < j ==> i in s.free || s.f[i] == n[i]
    decreases 5 - k
  {
    if k == 5 || (k !in s.free && s.f[k] != n[k]) then k else StopAt(s, n, k + 1)
  }

  predicate Moves(s: State, n: Fields, j: int)
    requires 0 <= j <= 5
  {
    exists i | 0 <= i < j :: s.f[i] != n[i]
  }

  predicate Loose(s: State, j: int) {
    exists i | 0 <= i < j :: i in s.free
  }

  /** Replaces the fields by those of the calendar, up to the first given field
      that the calendar does not confirm. */
  function Project(s: State): (State, Projection) {
    var n := FieldsOf(Minutes(s.f));
    var j := StopAt(s, n, 0);
    (s.(f := n[..j] + s.f[j..]),
     if Moves(s, n, j) then Changed else if j == 5 then Succeeded else if Loose(s, j) then Failed else Unfit)
  }

  /** The recursion of `tryResolve`, within `n` calls. */
  function TryResolve(n: nat, s: State, cur: Fields, from: int, last: int): Run<(State, Resolution)>
    requires 0 <= from <= last <= 4
  {
    if n == 0 then Running
    else
      match Unprojected(n, s, cur, from, last)
      case Running => Running
      case Done((s1, ok)) =>
        if !ok then Done((s1, Impossible))
        else
          var (s2, p) := Project(s1);
          match p
          case Changed => TryResolve(n - 1, s2, cur, from, last)
          case Succeeded => Done((s2, Resolved))
          case Failed => Done((s2, Unresolved))
          case Unfit => Done((s2, Impossible))
  }
}
