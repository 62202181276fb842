/** The condition that counts how long another condition has been true. */
module TimeCounter {

  datatype Settings = Settings(threshold: int, resetDelay: int)

  datatype Sample = Sample(time: int, value: bool)

  datatype State = State(lastTime: int, lastVal: bool, counter: int)

  /** One evaluation; also tells whether it took the resetting branch. */
  function Evaluated(c: Settings, s: State, x: Sample): (State, bool, bool) {
    var counter := if s.lastVal && s.counter < c.threshold then s.counter + x.time - s.lastTime else s.counter;
    var lastTime := if x.value || s.lastVal then x.time else s.lastTime;
    if (!x.value && lastTime > 0 && x.time - lastTime > c.resetDelay) || lastTime == 0
    then (State(0, x.value, 0), false, true)
    else (State(lastTime, x.value, counter), counter >= c.threshold, false)
  }

  function After(c: Settings, run: seq<Sample>): State {
    if run == [] then State(0, false, 0)
    else Evaluated(c, After(c, run[..|run| - 1]), run[|run| - 1]).0
  }

  // ------------------------------------------------- in terms of the samples

  /** Evaluation times are positive and do not go back. */
  ghost predicate Timely(run: seq<Sample>) {
    && (forall i | 0 <= i < |run| :: run[i].time > 0)
    && forall i, j | 0 <= i < j < |run| :: run[i].time <= run[j].time
  }

  /** Where the false samples at the end of a run begin. */
  function FalseFrom(run: seq<Sample>): (k: nat)
    ensures k <= |run| && (forall i | k <= i < |run| :: !run[i].value) && (k > 0 ==> run[k - 1].value)
  {
    if run == [] || run[|run| - 1].value then |run| else FalseFrom(run[..|run| - 1])
  }

  /** The last sample ends the count: the run is false now, and either was never true
      or has been false for longer than the delay. */
  ghost predicate Resets(c: Settings, run: seq<Sample>) {
    var n := |run|;
    var k := FalseFrom(run);
    k < n && (k == 0 || run[n - 1].time - run[k].time > c.resetDelay)
  }

  /** The time between samples that began true, since the count was last ended. */
  ghost function TrueTime(c: Settings, run: seq<Sample>): int {
    var n := |run|;
    if n == 0 || Resets(c, run) then 0
    else TrueTime(c, run[..n - 1]) + if n > 1 && run[n - 2].value then run[n - 1].time - run[n - 2].time else 0
  }

  /** The state in terms of the samples. */
  ghost predicate Follows(c: Settings, run: seq<Sample>, s: State) {
    var n := |run|;
    var t := TrueTime(c, run);
    && s.lastVal == (n > 0 && run[n - 1].value)
    && s.lastTime == (if n == 0 || Resets(c, run) then 0
                      else if run[n - 1].value then run[n - 1].time
                      else run[FalseFrom(run)].time)
    && (if t < c.threshold then s.counter == t else s.counter >= c.threshold)
  }

  lemma FalseFromLonger(run: seq<Sample>)
    requires run != []
    ensures var n := |run|;
            FalseFrom(run) == if run[n - 1].value then n else FalseFrom(run[..n - 1])
  {}

  lemma ResetsLonger(c: Settings, run: seq<Sample>)
    requires run != []
    ensures var n := |run|;
            var (before, x) := (run[..n - 1], run[n - 1]);
            var k := if x.value then n else FalseFrom(before);
            && FalseFrom(run) == k
            && (n > 1 && run[n - 2].value <==> FalseFrom(before) == n - 1 && n > 1)
            && (Resets(c, run) <==> !x.value && (k == 0 || x.time - run[k].time > c.resetDelay))
            && (n > 1 && !run[n - 2].value && !Resets(c, before) ==> 0 < FalseFrom(before) < n - 1)
  {
    FalseFromLonger(run);
  }

  /** A count that was ended stays ended while the condition stays false. */
  lemma ResetsAgain(c: Settings, run: seq<Sample>)
    requires Timely(run) && |run| > 1 && !run[|run| - 1].value && Resets(c, run[..|run| - 1])
    ensures Resets(c, run)
  {
    FalseFromLonger(run);
  }

  lemma {:induction false} StateFollows(c: Settings, run: seq<Sample>)
    requires Timely(run)
    ensures Follows(c, run, After(c, run))
  {
    if run != [] {
      var n := |run|;
      var before := run[..n - 1];
      StateFollows(c, before);
      StepFollows(c, run, After(c, before));
    }
  }

  lemma StepFollows(c: Settings, run: seq<Sample>, s: State)
    requires Timely(run) && run != [] && Follows(c, run[..|run| - 1], s)
    ensures var (after, result, reset) := Evaluated(c, s, run[|run| - 1]);
            && Follows(c, run, after) && reset == Resets(c, run)
            && result == (!Resets(c, run) && TrueTime(c, run) >= c.threshold)
  {
    var n := |run|;
    var before := run[..n - 1];
    if n > 1 && !run[n - 1].value && Resets(c, before) {
      ResetsAgain(c, run);
    }
    ResetsLonger(c, run);
    assert n > 1 ==> before[n - 2] == run[n - 2];
    hide FalseFrom, Resets;
  }

  /** An evaluation is true exactly when the count is not ended and the true time
      has reached the threshold. */
  lemma TrueIff(c: Settings, run: seq<Sample>)
    requires Timely(run) && run != []
    ensures var (after, result, reset) := Evaluated(c, After(c, run[..|run| - 1]), run[|run| - 1]);
            && (result <==> !Resets(c, run) && TrueTime(c, run) >= c.threshold)
            && (reset <==> Resets(c, run))
            && (TrueTime(c, run) < c.threshold ==> after.counter == TrueTime(c, run))
  {
    StateFollows(c, run[..|run| - 1]);
    StepFollows(c, run, After(c, run[..|run| - 1]));
  }

  /** The time a timer is set for when a true sample leaves the count short. */
  function WakeTime(c: Settings, s: State): int {
    s.lastTime + (c.threshold - s.counter) + 1
  }

  /** If the condition is still true when the timer fires, the evaluation is true; no
      true sample more than a second earlier would make it so. */
  lemma WakesWhenReached(c: Settings, run: seq<Sample>, time: int)
    requires Timely(run) && run != [] && run[|run| - 1].value && time >= run[|run| - 1].time
    requires After(c, run).counter < c.threshold
    ensures Evaluated(c, After(c, run), Sample(time, true)).1 <==> time >= WakeTime(c, After(c, run)) - 1
  {
    StateFollows(c, run);
  }

  class TimeCounterCondition {
    const settings: Settings
    var lastTime: int
    var lastVal: bool
    var counter: int
    /** The time of the timer task. */
    var execTime: int

    constructor (settings: Settings)
      ensures this.settings == settings && Value() == State(0, false, 0) && execTime == 0
    {
      this.settings := settings;
      lastTime, lastVal, counter, execTime := 0, false, 0, 0;
    }

    function Value(): State
      reads this
    {
      State(lastTime, lastVal, counter)
    }

    /** Evaluates the inner condition's value `val` at time `now`; `timed` tells that
        the timer task is set again. */
    method Evaluate(now: int, val: bool) returns (result: bool, timed: bool)
      modifies this
      ensures (Value(), result) == (Evaluated(settings, old(Value()), Sample(now, val)).0,
                                    Evaluated(settings, old(Value()), Sample(now, val)).1)
      ensures timed ==> execTime == if val then now + settings.threshold - CounterAfter(old(Value()), now) + 1
                                    else now + settings.resetDelay + 1
      ensures !timed ==> execTime == old(execTime)
      ensures timed <==> if val then CounterAfter(old(Value()), now) < settings.threshold else old(lastVal)
    {
      timed := false;
      if lastVal && counter < settings.threshold {
        counter := counter + now - lastTime;
      }
      if val {
        lastTime := now;
        lastVal := true;
        if counter < settings.threshold {
          execTime := now + (settings.threshold - counter) + 1;
          timed := true;
        }
      } else if lastVal {
        lastTime := now;
        lastVal := false;
        execTime := now + settings.resetDelay + 1;
        timed := true;
      }
      if (!lastVal && lastTime > 0 && now - lastTime > settings.resetDelay) || lastTime == 0 {
        counter := 0;
        lastTime := 0;
        result := false;
      } else {
        result := counter >= settings.threshold;
      }
    }

    function CounterAfter(s: State, now: int): int {
      if s.lastVal && s.counter < settings.threshold then s.counter + now - s.lastTime else s.counter
    }
  }
}
