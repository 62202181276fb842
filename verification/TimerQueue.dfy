/** The task list of `TimerManager`: what its operations do to a queue of timed
    entries, and the class that keeps the list of task objects. */
module TimerQueue {

  datatype Entry<T> = Entry(task: T, time: int)

  datatype TimerCheck = Immediate | Short | Long

  /** An entry taken from the queue, and whether its task was run or skipped. */
  datatype Taken<T> = Taken(entry: Entry<T>, run: bool)

  predicate Sorted<T>(q: seq<Entry<T>>) {
    forall i, j | 0 <= i < j < |q| :: q[i].time <= q[j].time
  }

  ghost predicate Distinct<T>(q: seq<Entry<T>>) {
    forall i, j | 0 <= i < j < |q| :: q[i].task != q[j].task
  }

  /** The first position from `k` on with a later time. */
  function PositionFrom<T>(q: seq<Entry<T>>, time: int, k: nat): (i: nat)
    requires k <= |q|
    ensures k <= i <= |q|
    ensures forall j | k <= j < i :: q[j].time <= time
    ensures i < |q| ==> time < q[i].time
    decreases |q| - k
  {
    if k == |q| || time < q[k].time then k else PositionFrom(q, time, k + 1)
  }

  function Insert<T>(q: seq<Entry<T>>, e: Entry<T>): seq<Entry<T>> {
    var i := PositionFrom(q, e.time, 0);
    q[..i] + [e] + q[i..]
  }

  function Without<T(==)>(q: seq<Entry<T>>, task: T): seq<Entry<T>> {
    if q == [] then []
    else if q[0].task == task then Without(q[1..], task)
    else [q[0]] + Without(q[1..], task)
  }

  /** The queue after a task is put back at a time, 0 standing for never. */
  function PutBack<T>(q: seq<Entry<T>>, task: T, time: int): seq<Entry<T>> {
    if time == 0 then q else Insert(q, Entry(task, time))
  }

  /** One check at `now`; `plan` gives the next time of a task. */
  function Check<T>(q: seq<Entry<T>>, now: int, plan: T -> int): (seq<Entry<T>>, seq<Taken<T>>, TimerCheck) {
    if q == [] then (q, [], Long)
    else if q[0].time > now then (q, [], Short)
    else (PutBack(q[1..], q[0].task, plan(q[0].task)), [Taken(q[0], q[0].time > now - 60)], Immediate)
  }

  // -------------------------------------------------------------- the order

  /** In a sorted queue the new entry goes after every entry that is not later
      and before every later one. */
  lemma {:induction false} InsertKeepsOrder<T>(q: seq<Entry<T>>, e: Entry<T>)
    requires Sorted(q)
    ensures var i := PositionFrom(q, e.time, 0);
            && Insert(q, e) == q[..i] + [e] + q[i..]
            && (forall j | 0 <= j < i :: q[j].time <= e.time)
            && (forall j | i <= j < |q| :: e.time < q[j].time)
    ensures Sorted(Insert(q, e))
  {
  }

  lemma InsertAdds<T>(q: seq<Entry<T>>, e: Entry<T>)
    ensures multiset(Insert(q, e)) == multiset(q) + multiset{e}
  {
    var i := PositionFrom(q, e.time, 0);
    assert q == q[..i] + q[i..];
  }

  lemma InsertKeepsDistinct<T>(q: seq<Entry<T>>, e: Entry<T>)
    requires Distinct(q) && forall i | 0 <= i < |q| :: q[i].task != e.task
    ensures Distinct(Insert(q, e))
  {
    var k := PositionFrom(q, e.time, 0);
    var r := Insert(q, e);
    forall i, j | 0 <= i < j < |r|
      ensures r[i].task != r[j].task
    {
      assert r[i] == if i < k then q[i] else if i == k then e else q[i - 1];
      assert r[j] == if j < k then q[j] else if j == k then e else q[j - 1];
    }
  }

  /** A removal drops every entry of the task and keeps the others. */
  lemma {:induction false} WithoutDrops<T>(q: seq<Entry<T>>, task: T, x: Entry<T>)
    ensures x in Without(q, task) <==> x in q && x.task != task
  {
    if q != [] {
      WithoutDrops(q[1..], task, x);
      assert q == [q[0]] + q[1..];
    }
  }

  lemma {:induction false} WithoutKeepsOrder<T>(q: seq<Entry<T>>, task: T)
    requires Sorted(q) && Distinct(q)
    ensures Sorted(Without(q, task)) && Distinct(Without(q, task))
  {
    if q != [] {
      WithoutKeepsOrder(q[1..], task);
      forall x | x in Without(q[1..], task)
        ensures q[0].time <= x.time && q[0].task != x.task
      {
        WithoutDrops(q[1..], task, x);
        HeadFirst(q, x);
      }
    }
  }

  lemma HeadFirst<T>(q: seq<Entry<T>>, x: Entry<T>)
    requires Sorted(q) && Distinct(q) && q != [] && x in q[1..]
    ensures q[0].time <= x.time && q[0].task != x.task
  {
    var i :| 0 <= i < |q[1..]| && q[1..][i] == x;
    assert x == q[i + 1];
  }

  /** Adding a task and removing it again leaves the queue as it was. */
  lemma {:induction false} WithoutInserted<T>(q: seq<Entry<T>>, e: Entry<T>)
    requires forall i | 0 <= i < |q| :: q[i].task != e.task
    ensures Without(Insert(q, e), e.task) == q
  {
    var k := PositionFrom(q, e.time, 0);
    WithoutBetween(q[..k], e, q[k..]);
    assert q[..k] + q[k..] == q;
  }

  lemma WithoutBetween<T>(a: seq<Entry<T>>, e: Entry<T>, b: seq<Entry<T>>)
    requires forall i | 0 <= i < |a| :: a[i].task != e.task
    requires forall i | 0 <= i < |b| :: b[i].task != e.task
    ensures Without(a + [e] + b, e.task) == a + b
  {
    var r := [e] + b;
    assert a + [e] + b == a + r && r[1..] == b && b + [] == b;
    WithoutOther(b, [], e.task);
    assert Without(r, e.task) == b;
    hide Without;
    WithoutOther(a, r, e.task);
  }

  lemma {:induction false} WithoutOther<T>(a: seq<Entry<T>>, b: seq<Entry<T>>, task: T)
    requires forall i | 0 <= i < |a| :: a[i].task != task
    ensures Without(a + b, task) == a + Without(b, task)
  {
    if a == [] {
      assert a + b == b;
    } else {
      WithoutOther(a[1..], b, task);
      assert (a + b)[1..] == a[1..] + b;
    }
  }

  // ---------------------------------------------------- draining the queue

  /** The number of entries that are due at the head of the queue. */
  function Due<T>(q: seq<Entry<T>>, now: int): (k: nat)
    ensures k <= |q|
    ensures forall i | 0 <= i < k :: q[i].time <= now
    ensures k < |q| ==> q[k].time > now
  {
    if q == [] || q[0].time > now then 0 else 1 + Due(q[1..], now)
  }

  /** No task is put back at a time that is already due. */
  ghost predicate LaterOnly<T(!new)>(plan: T -> int, now: int) {
    forall task :: plan(task) == 0 || plan(task) > now
  }

  lemma InsertBehind<T>(a: seq<Entry<T>>, b: seq<Entry<T>>, e: Entry<T>)
    requires forall i | 0 <= i < |a| :: a[i].time <= e.time
    ensures Insert(a + b, e) == a + Insert(b, e)
  {
    hide PositionFrom;
    var i, q := PositionFrom(b, e.time, 0), a + b;
    assert forall j | 0 <= j < |a| + i :: q[j].time <= e.time;
    assert i < |b| ==> q[|a| + i] == b[i];
    PositionIs(q, e.time, |a| + i);
    assert q[..|a| + i] == a + b[..i] && q[|a| + i..] == b[i..];
    assert (a + b[..i]) + [e] + b[i..] == a + (b[..i] + [e] + b[i..]);
  }

  lemma PositionIs<T>(q: seq<Entry<T>>, time: int, i: nat)
    requires i <= |q| && (forall j | 0 <= j < i :: q[j].time <= time) && (i < |q| ==> time < q[i].time)
    ensures PositionFrom(q, time, 0) == i
  {
    hide PositionFrom;
  }

  lemma DueOfParts<T>(a: seq<Entry<T>>, b: seq<Entry<T>>, now: int)
    requires forall i | 0 <= i < |a| :: a[i].time <= now
    requires b == [] || b[0].time > now
    ensures Due(a + b, now) == |a|
  {
    var q := a + b;
    assert forall i | 0 <= i < |a| :: q[i] == a[i];
    assert b != [] ==> q[|a|] == b[0];
  }

  /** A check of a queue with something due takes its head; what is put back goes
      behind everything due. */
  lemma CheckTakesOne<T(!new)>(q: seq<Entry<T>>, now: int, plan: T -> int)
    requires Sorted(q) && LaterOnly(plan, now) && Due(q, now) > 0
    ensures var (q1, taken, r) := Check(q, now, plan);
            && r == Immediate && Sorted(q1) && Due(q1, now) == Due(q, now) - 1
            && taken == [Taken(q[0], q[0].time > now - 60)]
            && q1 == q[1..Due(q, now)] + PutBack(q[Due(q, now)..], q[0].task, plan(q[0].task))
  {
    hide Due, PutBack;
    PutBackBehind(q, now, q[0].task, plan(q[0].task));
  }

  lemma PutBackBehind<T>(q: seq<Entry<T>>, now: int, task: T, time: int)
    requires Sorted(q) && Due(q, now) > 0 && (time == 0 || time > now)
    ensures var (k, r) := (Due(q, now), PutBack(q[1..], task, time));
            Sorted(r) && Due(r, now) == k - 1 && r == q[1..k] + PutBack(q[k..], task, time)
  {
    var k := Due(q, now);
    var e := Entry(task, time);
    var a, b := q[1..k], q[k..];
    TailAtDue(q, now);
    hide Due, Insert, Sorted;
    if time != 0 {
      InsertBehindDue(a, b, e, now);
    } else {
      DueOfParts(a, b, now);
    }
  }

  lemma TailAtDue<T>(q: seq<Entry<T>>, now: int)
    requires Sorted(q) && Due(q, now) > 0
    ensures var (a, b) := (q[1..Due(q, now)], q[Due(q, now)..]);
            && q[1..] == a + b && Sorted(a + b) && (b != [] ==> b[0].time > now)
            && forall i | 0 <= i < |a| :: a[i].time <= now
  {
    hide Due;
    assert q[1..] == q[1..Due(q, now)] + q[Due(q, now)..];
  }

  lemma InsertBehindDue<T>(a: seq<Entry<T>>, b: seq<Entry<T>>, e: Entry<T>, now: int)
    requires Sorted(a + b) && e.time > now && (b != [] ==> b[0].time > now)
    requires forall i | 0 <= i < |a| :: a[i].time <= now
    ensures Sorted(Insert(a + b, e)) && Due(Insert(a + b, e), now) == |a|
    ensures Insert(a + b, e) == a + Insert(b, e)
  {
    hide Due, Insert, Sorted;
    InsertBehind(a, b, e);
    InsertKeepsOrder(a + b, e);
    InsertedHead(b, e, now);
    DueOfParts(a, Insert(b, e), now);
  }

  lemma InsertedHead<T>(b: seq<Entry<T>>, e: Entry<T>, now: int)
    requires e.time > now && (b != [] ==> b[0].time > now)
    ensures Insert(b, e) != [] && Insert(b, e)[0].time > now
  {
    hide PositionFrom;
  }

  /** A task is put back exactly when its next time is not 0. */
  lemma PutBackAdds<T>(q: seq<Entry<T>>, task: T, time: int)
    ensures multiset(PutBack(q, task, time))
            == multiset(q) + if time == 0 then multiset{} else multiset{Entry(task, time)}
  {
    InsertAdds(q, Entry(task, time));
  }

  /** A check with nothing due leaves the queue alone. */
  lemma IdleCheck<T>(q: seq<Entry<T>>, now: int, plan: T -> int)
    requires Due(q, now) == 0
    ensures Check(q, now, plan) == (q, [], if q == [] then Long else Short)
  {
  }

  /** A check takes the first entry or none. Every other entry stays, as often as it was
      there; the task taken is put back at its next time unless that is 0. */
  lemma CheckConserves<T>(q: seq<Entry<T>>, now: int, plan: T -> int)
    ensures var (q1, taken, r) := Check(q, now, plan);
            if q == [] || q[0].time > now then q1 == q && taken == []
            else
              var time := plan(q[0].task);
              && |taken| == 1 && taken[0].entry == q[0]
              && multiset(q1) == multiset(q) - multiset{q[0]}
                                 + if time == 0 then multiset{} else multiset{Entry(q[0].task, time)}
  {
    if q != [] {
      PutBackAdds(q[1..], q[0].task, plan(q[0].task));
      assert q == [q[0]] + q[1..];
    }
  }

  /** A check keeps the queue sorted and free of duplicates. */
  lemma CheckKeepsQueue<T>(q: seq<Entry<T>>, now: int, plan: T -> int)
    requires Sorted(q) && Distinct(q)
    ensures var q1 := Check(q, now, plan).0; Sorted(q1) && Distinct(q1)
  {
    if q != [] {
      var e := Entry(q[0].task, plan(q[0].task));
      InsertKeepsOrder(q[1..], e);
      InsertKeepsDistinct(q[1..], e);
    }
  }

  /** Repeated checks at a fixed time, until nothing is due. */
  ghost function Drain<T(!new)>(q: seq<Entry<T>>, now: int, plan: T -> int): (seq<Entry<T>>, seq<Taken<T>>)
    requires Sorted(q) && LaterOnly(plan, now)
    decreases Due(q, now)
  {
    var (q1, taken, r) := Check(q, now, plan);
    if r != Immediate then (q1, taken)
    else
      CheckTakesOne(q, now, plan);
      var (q2, log) := Drain(q1, now, plan);
      (q2, taken + log)
  }

  function PutAllBack<T>(q: seq<Entry<T>>, due: seq<Entry<T>>, plan: T -> int): seq<Entry<T>>
    decreases |due|
  {
    if due == [] then q else PutAllBack(PutBack(q, due[0].task, plan(due[0].task)), due[1..], plan)
  }

  /** The record of the entries taken at `now`. */
  function RecordOf<T>(due: seq<Entry<T>>, now: int): (r: seq<Taken<T>>)
    ensures |r| == |due|
    ensures forall i | 0 <= i < |due| :: r[i] == Taken(due[i], due[i].time > now - 60)
  {
    if due == [] then [] else [Taken(due[0], due[0].time > now - 60)] + RecordOf(due[1..], now)
  }

  /** Draining takes every due entry once, in the order of the queue, runs exactly
      those less than a minute late, and puts the tasks back behind. */
  lemma {:induction false} DrainTakesAllDue<T(!new)>(q: seq<Entry<T>>, now: int, plan: T -> int)
    requires Sorted(q) && LaterOnly(plan, now)
    ensures var k := Due(q, now);
            Drain(q, now, plan) == (PutAllBack(q[k..], q[..k], plan), RecordOf(q[..k], now))
    decreases Due(q, now)
  {
    var k := Due(q, now);
    if k > 0 {
      CheckTakesOne(q, now, plan);
      var q1 := Check(q, now, plan).0;
      assert q1[..k - 1] == q[1..k] && q[..k][1..] == q[1..k];
      assert q1[k - 1..] == PutBack(q[k..], q[0].task, plan(q[0].task));
      DrainTakesAllDue(q1, now, plan);
    } else {
      assert q[..0] == [] && q[0..] == q;
    }
  }

  /** After draining, the queue is sorted and only later entries are left. */
  lemma DrainLeavesLater<T(!new)>(q: seq<Entry<T>>, now: int, plan: T -> int)
    requires Sorted(q) && LaterOnly(plan, now)
    ensures var rest := Drain(q, now, plan).0;
            Sorted(rest) && forall i | 0 <= i < |rest| :: rest[i].time > now
  {
    DrainTakesAllDue(q, now, plan);
    PutAllBackLater(q[Due(q, now)..], q[..Due(q, now)], now, plan);
  }

  lemma {:induction false} PutAllBackLater<T(!new)>(q: seq<Entry<T>>, due: seq<Entry<T>>, now: int, plan: T -> int)
    requires Sorted(q) && LaterOnly(plan, now) && (q == [] || q[0].time > now)
    ensures var rest := PutAllBack(q, due, plan);
            Sorted(rest) && forall i | 0 <= i < |rest| :: rest[i].time > now
    decreases |due|
  {
    if due != [] {
      var e := Entry(due[0].task, plan(due[0].task));
      if e.time != 0 {
        InsertKeepsOrder(q, e);
      }
      PutAllBackLater(PutBack(q, due[0].task, e.time), due[1..], now, plan);
    }
  }

  /** After draining, the queue holds the entries that were not due, and the due tasks
      at their next times. */
  lemma DrainKeepsOthers<T(!new)>(q: seq<Entry<T>>, now: int, plan: T -> int)
    requires Sorted(q) && LaterOnly(plan, now)
    ensures var k := Due(q, now);
            forall e :: e in Drain(q, now, plan).0 <==>
              e in q[k..] || (e.time != 0 && exists i | 0 <= i < k :: q[i].task == e.task && plan(e.task) == e.time)
  {
    hide Drain;
    var k := Due(q, now);
    DrainTakesAllDue(q, now, plan);
    forall e: Entry<T>
      ensures e in PutAllBack(q[k..], q[..k], plan) <==>
        e in q[k..] || (e.time != 0 && exists i | 0 <= i < k :: q[i].task == e.task && plan(e.task) == e.time)
    {
      PutAllBackMembers(q[k..], q[..k], plan, e);
      assert forall i | 0 <= i < k :: q[..k][i] == q[i];
    }
  }

  /** A task is put back at a time. */
  ghost predicate Returns<T(!new)>(due: seq<Entry<T>>, plan: T -> int, e: Entry<T>) {
    e.time != 0 && exists i | 0 <= i < |due| :: due[i].task == e.task && plan(e.task) == e.time
  }

  lemma {:induction false} PutAllBackMembers<T(!new)>(q: seq<Entry<T>>, due: seq<Entry<T>>, plan: T -> int, e: Entry<T>)
    ensures e in PutAllBack(q, due, plan) <==> e in q || Returns(due, plan, e)
    decreases |due|
  {
    if due != [] {
      var task := due[0].task;
      var q1 := PutBack(q, task, plan(task));
      PutBackAdds(q, task, plan(task));
      assert e in q1 <==> e in multiset(q1);
      PutAllBackMembers(q1, due[1..], plan, e);
      assert Returns(due, plan, e) <==>
             Returns(due[1..], plan, e) || (e.time != 0 && task == e.task && plan(task) == e.time) by {
        assert forall i | 0 < i < |due| :: due[1..][i - 1] == due[i];
        assert due[0].task == task;
      }
    }
  }

  // ------------------------------------------------------------- the objects

  /** A task whose event leaves the list alone; `plan` is the time it puts itself
      back at when rescheduled, 0 standing for never. */
  class TimerTask {
    const plan: int -> int
    var execTime: int
    /** The times at which the task was run. */
    var runs: seq<int>

    constructor (plan: int -> int, execTime: int)
      ensures this.plan == plan && this.execTime == execTime && runs == []
    {
      this.plan, this.execTime, runs := plan, execTime, [];
    }

    method OnTimer(now: int)
      modifies this`runs
      ensures runs == old(runs) + [now]
    {
      runs := runs + [now];
    }

    method Reschedule(now: int, manager: TimerManager)
      requires this !in manager.taskList
      modifies this`execTime, manager`taskList
      ensures execTime == plan(now)
      ensures manager.Queue() == PutBack(old(manager.Queue()), this, execTime)
    {
      execTime := plan(now);
      assert manager.Queue() == old(manager.Queue());
      if execTime != 0 {
        manager.AddTask(this);
      }
    }
  }

  /** The tasks of a list with the times they are due at. */
  ghost function Entries(list: seq<TimerTask>): seq<Entry<TimerTask>>
    reads list
  {
    seq(|list|, i requires 0 <= i < |list| reads list => Entry(list[i], list[i].execTime))
  }

  class TimerManager {
    var taskList: seq<TimerTask>

    constructor ()
      ensures taskList == []
    {
      taskList := [];
    }

    ghost function Queue(): seq<Entry<TimerTask>>
      reads this, taskList
    {
      Entries(taskList)
    }

    method AddTask(task: TimerTask)
      modifies this`taskList
      ensures Queue() == Insert(old(Queue()), Entry(task, task.execTime))
    {
      var execTime := task.execTime;
      var it := 0;
      while it != |taskList|
        invariant 0 <= it <= |taskList| && taskList == old(taskList)
        invariant forall j | 0 <= j < it :: taskList[j].execTime <= execTime
      {
        if execTime < taskList[it].execTime {
          break;
        }
        it := it + 1;
      }
      ghost var q := Queue();
      PositionIs(q, execTime, it);
      taskList := taskList[..it] + [task] + taskList[it..];
      assert Queue() == q[..it] + [Entry(task, execTime)] + q[it..];
    }

    method RemoveTask(task: TimerTask)
      modifies this`taskList
      ensures Queue() == Without(old(Queue()), task)
    {
      ghost var q := Queue();
      var kept := [];
      for i := 0 to |taskList|
        invariant taskList == old(taskList) && Queue() == q
        invariant forall t | t in kept :: t in taskList
        invariant Entries(kept) + Without(q[i..], task) == Without(q, task)
      {
        if taskList[i] != task {
          kept := kept + [taskList[i]];
        }
        assert q[i..][1..] == q[i + 1..];
      }
      taskList := kept;
    }

    /** Takes the first task of the list when it is due. */
    method CheckTaskList(now: int) returns (r: TimerCheck)
      requires Distinct(Queue())
      modifies this`taskList, taskList
      ensures var (q, taken, check) := Check(old(Queue()), now, (task: TimerTask) => task.plan(now));
              && r == check && Queue() == q
              && forall task | task in old(taskList) ::
                task.runs == old(task.runs)
                             + if exists x | x in taken :: x.entry.task == task && x.run then [now] else []
    {
      if taskList == [] {
        return Long;
      }
      ghost var q := Queue();
      var first := taskList[0];
      assert first !in taskList[1..] by {
        assert forall i | 0 < i < |taskList| :: q[i].task == taskList[i] && q[0].task != q[i].task;
      }
      var nextExec := first.execTime;
      if nextExec > now {
        return Short;
      }
      if nextExec > now - 60 {
        first.OnTimer(now);
      }
      if first == taskList[0] {
        taskList := taskList[1..];
        assert Queue() == q[1..];
        first.Reschedule(now, this);
      }
      r := Immediate;
    }
  }
}
