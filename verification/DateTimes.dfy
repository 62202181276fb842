/** `DateTime` as the class it is: five fields in an array, a set of free fields
    and a set of allowed weekdays, changed in place. */
module DateTimes {
  import opened Calendar
  import R = Resolver

  /** One more field compared with the calendar. */
  lemma MoreConfirmed(s: R.State, n: Fields, k: int)
    requires 0 <= k < 5
    ensures R.Moves(s, n, k + 1) == (R.Moves(s, n, k) || s.f[k] != n[k])
    ensures R.Loose(s, k + 1) == (R.Loose(s, k) || k in s.free)
    ensures k in s.free || s.f[k] == n[k] ==> R.StopAt(s, n, k + 1) == R.StopAt(s, n, k)
  {
    if R.Moves(s, n, k) {
      var i :| 0 <= i < k && s.f[i] != n[i];
      assert s.f[i] != n[i];
    }
  }

  lemma NothingConfirmed(s: R.State, n: Fields)
    ensures !R.Moves(s, n, 0) && !R.Loose(s, 0)
  {
  }

  /** The outcome of a projection that stops at field `j`. */
  lemma ProjectionEnds(s: R.State, n: Fields, j: int)
    requires n == FieldsOf(Minutes(s.f)) && j == R.StopAt(s, n, 0)
    ensures R.Project(s) == (s.(f := n[..j] + s.f[j..]),
                             if R.Moves(s, n, j) then R.Changed
                             else if j == 5 then R.Succeeded
                             else if R.Loose(s, j) then R.Failed
                             else R.Unfit)
  {
    hide FieldsOf, Minutes, R.Moves, R.Loose, R.StopAt;
  }

  class DateTime {
    const fields: array<int>
    var freeFields: set<int>
    var weekdays: set<int>

    ghost predicate Valid()
      reads this
    {
      fields.Length == 5
    }

    ghost function Value(): R.State
      requires Valid()
      reads this, fields
    {
      R.State(fields[..], freeFields, weekdays)
    }

    constructor (time: Fields)
      ensures Valid() && fresh(fields)
      ensures Value() == R.State(time, {0, 1, 2, 3, 4}, {})
    {
      fields := new int[5](i requires 0 <= i < 5 => time[i]);
      freeFields := {0, 1, 2, 3, 4};
      weekdays := {};
    }

    method SetField(field: int, value: int, fixesIfChanged: bool)
      requires Valid() && 0 <= field < 5
      modifies this, fields
      ensures Valid() && Value() == R.SetField(old(Value()), field, value, fixesIfChanged)
      decreases 5 - field, 0
    {
      if value == -1 {
        freeFields := freeFields + {field};
      } else {
        // A weekday constraint keeps the date adjustable.
        var fixes := fixesIfChanged && (field > DAY || weekdays == {});
        if fixes {
          freeFields := freeFields - {field};
        }
        fields[field] := value;
        ghost var set1 := Value();
        if field != MINUTE {
          ResetFieldIfFree(field + 1, true);
        }
        assert set1.f == old(Value()).f[field := value];
        assert field == MINUTE ==> R.ResetFrom(set1, field + 1).f == set1.f;
      }
    }

    method ResetFieldIfFree(field: int, recurses: bool)
      requires Valid() && 0 <= field < 5
      modifies this, fields
      ensures Valid()
      ensures Value() == if field in old(freeFields) || recurses then R.ResetFrom(old(Value()), field) else old(Value())
      decreases 5 - field, 1
    {
      if field in freeFields {
        var value := if field == DAY then 1 else 0;
        SetField(field, value, false);
        assert Value().f == R.ResetFrom(old(Value()), field).f;
      }
      if recurses && field != MINUTE {
        ResetFieldIfFree(field + 1, true);
      }
      assert recurses ==> Value().f == R.ResetFrom(old(Value()), field).f;
    }

    method TryIncreaseClosestGreaterFreeField(start: int) returns (ok: bool)
      requires Valid() && 0 <= start < 5
      modifies this, fields
      ensures Valid() && (Value(), ok) == R.Increase(old(Value()), start)
    {
      // From this field upwards, the first one that may be adjusted is bumped.
      var current := start;
      while current > -1 && current !in freeFields
        invariant -1 <= current <= start
        invariant R.ClosestFree(freeFields, start) == R.ClosestFree(freeFields, current)
      {
        current := current - 1;
      }
      if current != -1 {
        var newValue := IncreaseField(current, false);
        ok := true;
      } else {
        ok := false;
      }
    }

    method IncreaseField(field: int, fixes: bool) returns (newValue: int)
      requires Valid() && 0 <= field < 5
      modifies this, fields
      ensures Valid() && newValue == old(fields[field]) + 1
      ensures Value() == R.SetField(old(Value()), field, newValue, fixes)
    {
      newValue := fields[field] + 1;
      SetField(field, newValue, fixes);
    }

    method ProjectOnActualCalendar() returns (p: R.Projection)
      requires Valid()
      modifies this, fields
      ensures Valid() && (Value(), p) == R.Project(old(Value()))
    {
      hide FieldsOf, Minutes, R.Project, R.Moves, R.Loose, R.StopAt;
      var projected := FieldsOf(Minutes(fields[..]));
      var isChanged, hasFreeField := false, false;
      ghost var s, j := Value(), R.StopAt(Value(), projected, 0);
      var field := YEAR;
      NothingConfirmed(s, projected);
      while field <= MINUTE
        invariant 0 <= field <= j && Valid()
        invariant R.StopAt(s, projected, field) == j
        invariant freeFields == s.free && weekdays == s.wd
        invariant forall i | 0 <= i < field :: fields[i] == projected[i]
        invariant forall i | field <= i < 5 :: fields[i] == s.f[i]
        invariant isChanged == R.Moves(s, projected, field)
        invariant hasFreeField == R.Loose(s, field)
      {
        MoreConfirmed(s, projected, field);
        if fields[field] != projected[field] {
          if field in freeFields {
            fields[field] := projected[field];
            isChanged := true;
          } else {
            assert fields[..] == projected[..field] + s.f[field..];
            ProjectionEnds(s, projected, field);
            if isChanged {
              return R.Changed;
            } else {
              return if hasFreeField then R.Failed else R.Unfit;
            }
          }
        }
        hasFreeField := hasFreeField || field in freeFields;
        field := field + 1;
      }
      assert fields[..] == projected[..field] + s.f[field..];
      ProjectionEnds(s, projected, field);
      return if isChanged then R.Changed else R.Succeeded;
    }

    method TryResolveWithoutWeekdays(current: DateTime, from: int, last: int) returns (ok: bool)
      requires Valid() && current.Valid() && 0 <= from <= last <= 4
      requires current != this && current.fields != fields
      modifies this, fields
      ensures Valid() && (Value(), ok) == R.WithoutWeekdays(old(Value()), old(current.Value()).f, from, last)
    {
      // The fields above `from` decide unless they are all equal.
      var field := YEAR;
      while field < from
        invariant 0 <= field <= from && Value() == old(Value())
        invariant R.Compare(fields[..], current.fields[..], 0, from)
                  == R.Compare(fields[..], current.fields[..], field, from)
      {
        if fields[field] > current.fields[field] {
          return true;
        }
        if fields[field] < current.fields[field] {
          return false;
        }
        field := field + 1;
      }
      // From here on, free fields may be raised.
      while field <= last
        invariant from <= field <= last + 1 && Valid()
        invariant current.fields[..] == old(current.fields[..])
        invariant R.WithoutWeekdays(old(Value()), old(current.Value()).f, from, last)
                  == R.Advance(Value(), current.fields[..], field, last)
      {
        var currentField, targetField := current.fields[field], fields[field];
        if targetField < currentField {
          if field in freeFields {
            SetField(field, currentField, false);
          } else {
            ok := TryIncreaseClosestGreaterFreeField(field);
            return;
          }
        } else if targetField > currentField {
          return true;
        }
        field := field + 1;
      }
      return true;
    }

    predicate IsCompatibleWithWeekDays()
      requires Valid()
      reads this, fields
    {
      weekdays != {} ==> Weekday(Minutes(fields[..])) in weekdays
    }

    /** The loop runs for at most `n` rounds. */
    method TryResolveUnprojected(current: DateTime, from: int, last: int, ghost n: nat) returns (ok: bool)
      requires Valid() && current.Valid() && 0 <= from <= last <= 4
      requires current != this && current.fields != fields
      requires R.Unprojected(n, Value(), current.Value().f, from, last).Done?
      modifies this, fields
      ensures Valid() && R.Unprojected(n, old(Value()), old(current.Value()).f, from, last) == R.Done((Value(), ok))
    {
      ghost var k := n;
      while true
        invariant Valid() && current.fields[..] == old(current.fields[..])
        invariant R.Unprojected(k, Value(), current.fields[..], from, last)
                  == R.Unprojected(n, old(Value()), old(current.Value()).f, from, last)
        decreases k
      {
        ok := TryResolveWithoutWeekdays(current, from, last);
        if !ok {
          return;
        }
        if IsCompatibleWithWeekDays() {
          return;
        }
        ok := TryIncreaseClosestGreaterFreeField(DAY);
        if !ok {
          return;
        }
        k := k - 1;
      }
    }

    /** The recursion is at most `n` calls deep. */
    method TryResolve(current: DateTime, from: int, last: int, ghost n: nat) returns (r: R.Resolution)
      requires Valid() && current.Valid() && 0 <= from <= last <= 4
      requires current != this && current.fields != fields
      requires R.TryResolve(n, Value(), current.Value().f, from, last).Done?
      modifies this, fields
      ensures Valid() && R.TryResolve(n, old(Value()), old(current.Value()).f, from, last) == R.Done((Value(), r))
      decreases n
    {
      hide FieldsOf, Minutes, R.Project, R.Unprojected;
      var ok := TryResolveUnprojected(current, from, last, n);
      if !ok {
        return R.Impossible;
      }
      var p := ProjectOnActualCalendar();
      match p
      case Changed => r := TryResolve(current, from, last, n - 1);
      case Succeeded => r := R.Resolved;
      case Failed => r := R.Unresolved;
      case Unfit => r := R.Impossible;
    }
  }
}
