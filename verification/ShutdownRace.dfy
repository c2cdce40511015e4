/** The shutdown sequence raced against its deadline. */
module ShutdownRace {
  import opened Wrappers

  datatype Reason = StepsDone | Deadline

  /** What can be seen from outside, in order. */
  datatype Mark = Began(step: nat) | Completed(reason: Reason)

  /** waiting: the step the loop is awaiting.  armed: the deadline timer. */
  datatype State = State(started: bool, finished: bool, armed: bool, waiting: Option<nat>, trace: seq<Mark>)

  /** Settled: the awaited step resolves or rejects; either way the loop goes on. */
  datatype Event = Start | Settled | DeadlineFires

  const FRESH := State(false, false, false, None, [])

  function Finish(st: State, reason: Reason): State {
    if st.finished then st else st.(finished := true, trace := st.trace + [Completed(reason)])
  }

  /** The loop from step i: steps that throw at once are passed over, the first that does
      not is awaited, and after the last the timer is cleared. */
  function Loop(throws: seq<bool>, st: State, i: nat): State
    requires i <= |throws|
    decreases |throws| - i
  {
    if st.finished || i == |throws| then Finish(st.(armed := false, waiting := None), StepsDone)
    else
      var st1 := st.(trace := st.trace + [Began(i)]);
      if throws[i] then Loop(throws, st1, i + 1) else st1.(waiting := Some(i))
  }

  function Step(throws: seq<bool>, st: State, e: Event): State {
    match e
    case Start =>
      if st.started then st else Loop(throws, st.(started := true, armed := true), 0)
    case Settled =>
      if st.waiting.Some? && st.waiting.value < |throws| then Loop(throws, st, st.waiting.value + 1) else st
    case DeadlineFires =>
      if st.armed then Finish(st.(armed := false), Deadline) else st
  }

  function Run(throws: seq<bool>, st: State, es: seq<Event>): State
    decreases |es|
  {
    if es == [] then st else Run(throws, Step(throws, st, es[0]), es[1..])
  }

  // ----- the object -----

  class ShutdownCoordinator {
    var started: bool
    var finished: bool
    var deadlineArmed: bool
    var awaiting: Option<nat>
    const stepThrows: seq<bool>          // whether each step throws as soon as it is called
    ghost var trace: seq<Mark>

    ghost function View(): State
      reads this
    {
      State(started, finished, deadlineArmed, awaiting, trace)
    }

    constructor (stepThrows: seq<bool>)
      ensures View() == FRESH && this.stepThrows == stepThrows
    {
      started, finished, deadlineArmed, awaiting := false, false, false, None;
      this.stepThrows := stepThrows;
      trace := [];
    }

    method Begin()
      modifies this
      ensures View() == Step(stepThrows, old(View()), Start)
    {
      if started {
        return;
      }
      started := true;
      deadlineArmed := true;
      RunSteps(0);
    }

    /** Continue the step loop until a step has to be awaited or the loop ends. */
    method RunSteps(from: nat)
      requires from <= |stepThrows|
      modifies this
      ensures View() == Loop(stepThrows, old(View()), from)
    {
      var i := from;
      while i < |stepThrows|
        invariant from <= i <= |stepThrows|
        invariant Loop(stepThrows, View(), i) == Loop(stepThrows, old(View()), from)
      {
        if finished {
          break;
        }
        trace := trace + [Began(i)];
        if !stepThrows[i] {
          awaiting := Some(i);
          return;
        }
        i := i + 1;
      }
      awaiting := None;
      deadlineArmed := false;
      FinishWith(StepsDone);
    }

    method StepSettled()
      modifies this
      ensures View() == Step(stepThrows, old(View()), Settled)
    {
      if awaiting.Some? && awaiting.value < |stepThrows| {
        RunSteps(awaiting.value + 1);
      }
    }

    method DeadlineReached()
      modifies this
      ensures View() == Step(stepThrows, old(View()), DeadlineFires)
    {
      if deadlineArmed {
        deadlineArmed := false;
        FinishWith(Deadline);
      }
    }

    method FinishWith(reason: Reason)
      modifies this`finished, this`trace
      ensures View() == Finish(old(View()), reason)
    {
      if finished {
        return;
      }
      finished := true;
      trace := trace + [Completed(reason)];
    }
  }

  // ----- what every run keeps -----

  /** Steps 0 to k - 1 in order. */
  function Begun(k: nat): (marks: seq<Mark>)
    ensures |marks| == k
  {
    if k == 0 then [] else Begun(k - 1) + [Began(k - 1)]
  }

  /** The steps so far, each once and in order, and after them at most one completion. */
  predicate Shape(throws: seq<bool>, st: State, k: nat, done: Option<Reason>) {
    && k <= |throws|
    && st.trace == Begun(k) + (if done.Some? then [Completed(done.value)] else [])
    && st.finished == done.Some?
    && (st.waiting.Some? ==> st.waiting.value + 1 == k && st.started && !throws[k - 1])
    && (!st.started ==> k == 0 && done.None? && !st.armed)
    && (st.started && done.None? ==> st.armed && st.waiting.Some?)
    && (done == Some(StepsDone) ==> k == |throws| && !st.armed)
    && (done == Some(Deadline) ==> !st.armed)
  }

  ghost predicate Inv(throws: seq<bool>, st: State) {
    exists k, done :: Shape(throws, st, k, done)
  }

  /** The loop, entered with k steps begun and nothing complete. */
  lemma {:induction false} LoopShape(throws: seq<bool>, st: State, k: nat) returns (k1: nat, done: Option<Reason>)
    requires k <= |throws| && st.trace == Begun(k) && !st.finished && st.started && st.armed
    ensures Shape(throws, Loop(throws, st, k), k1, done) && k <= k1
    ensures done != Some(Deadline)
    ensures var st1 := Loop(throws, st, k); st1.finished || (st1.waiting.Some? && st1.waiting.value >= k)
    decreases |throws| - k
  {
    if k == |throws| {
      k1, done := k, Some(StepsDone);
    } else {
      var st1 := st.(trace := st.trace + [Began(k)]);
      assert st1.trace == Begun(k + 1);
      if throws[k] {
        k1, done := LoopShape(throws, st1, k + 1);
      } else {
        k1, done := k + 1, None;
        assert Begun(k + 1) + [] == Begun(k + 1);
      }
    }
  }

  lemma StepShape(throws: seq<bool>, st: State, e: Event)
    requires Inv(throws, st)
    ensures Inv(throws, Step(throws, st, e))
  {
    var k, done :| Shape(throws, st, k, done);
    if done.None? {
      assert Begun(k) + [] == Begun(k);
    }
    match e {
      case Start =>
        if !st.started {
          var k1, done1 := LoopShape(throws, st.(started := true, armed := true), 0);
        }
      case Settled =>
        if st.waiting.Some? && st.waiting.value < |throws| && done.None? {
          var k1, done1 := LoopShape(throws, st, k);
        } else {
          assert Shape(throws, Step(throws, st, e), k, done);
        }
      case DeadlineFires =>
        assert Shape(throws, Step(throws, st, e), k, if st.armed && done.None? then Some(Deadline) else done);
    }
  }

  lemma {:induction false} RunShape(throws: seq<bool>, st: State, es: seq<Event>)
    requires Inv(throws, st)
    ensures Inv(throws, Run(throws, st, es))
    decreases |es|
  {
    if es != [] {
      StepShape(throws, st, es[0]);
      RunShape(throws, Step(throws, st, es[0]), es[1..]);
    }
  }

  /** In any order of starts, settling steps and the deadline: the steps begin in order,
      each at most once and none after completion, completion is reported at most once,
      and as "done" only after every step has begun. */
  lemma OrderlyOnce(throws: seq<bool>, es: seq<Event>)
    ensures exists k, done :: Shape(throws, Run(throws, FRESH, es), k, done)
  {
    assert Shape(throws, FRESH, 0, None);
    RunShape(throws, FRESH, es);
  }

  /** While a shutdown is not complete its deadline is armed, so when that fires it
      completes whatever the steps do: a step that never settles cannot hold it up. */
  lemma DeadlineCompletes(throws: seq<bool>, es: seq<Event>)
    ensures var st := Run(throws, FRESH, es);
            st.started ==> Step(throws, st, DeadlineFires).finished && (st.finished || st.armed)
  {
    OrderlyOnce(throws, es);
    var st := Run(throws, FRESH, es);
    var k, done :| Shape(throws, st, k, done);
  }

  /** And if every awaited step settles, the steps complete it. */
  lemma SettlingCompletes(throws: seq<bool>, es: seq<Event>, n: nat)
    requires Run(throws, FRESH, es).started && n >= |throws|
    ensures Run(throws, Run(throws, FRESH, es), Settles(n)).finished
  {
    OrderlyOnce(throws, es);
    var st := Run(throws, FRESH, es);
    var k, done :| Shape(throws, st, k, done);
    SettlesWithin(throws, st, n);
  }

  function Settles(n: nat): (es: seq<Event>)
    ensures |es| == n
  {
    if n == 0 then [] else [Settled] + Settles(n - 1)
  }

  /** Each settling moves the loop at least one step on. */
  lemma {:induction false} SettlesWithin(throws: seq<bool>, st: State, n: nat)
    requires Inv(throws, st) && st.started
    requires st.finished || (st.waiting.Some? && n + st.waiting.value >= |throws|)
    ensures Run(throws, st, Settles(n)).finished
    decreases n
  {
    var k, done :| Shape(throws, st, k, done);
    if n > 0 {
      var st1 := Step(throws, st, Settled);
      StepShape(throws, st, Settled);
      assert Settles(n)[1..] == Settles(n - 1);
      if !st.finished {
        assert Begun(k) + [] == Begun(k);
        var k1, done1 := LoopShape(throws, st, k);
      }
      SettlesWithin(throws, st1, n - 1);
    }
  }

  // ----- one step at a time -----

  /** The steps among the first k that have to be awaited. */
  function Awaited(throws: seq<bool>, k: nat): nat
    requires k <= |throws|
  {
    if k == 0 then 0 else Awaited(throws, k - 1) + if throws[k - 1] then 0 else 1
  }

  function SettledIn(es: seq<Event>): nat {
    if es == [] then 0 else (if es[0].Settled? then 1 else 0) + SettledIn(es[1..])
  }

  /** The steps begun so far. */
  function Steps(st: State): nat {
    if st.trace != [] && st.trace[|st.trace| - 1].Completed? then |st.trace| - 1 else |st.trace|
  }

  lemma {:induction false} LoopAwaitsOne(throws: seq<bool>, st: State, k: nat)
    requires k <= |throws| && st.trace == Begun(k) && !st.finished
    ensures var st1 := Loop(throws, st, k);
            Steps(st1) <= |throws| && Awaited(throws, Steps(st1)) <= Awaited(throws, k) + 1
    decreases |throws| - k
  {
    if k < |throws| && throws[k] {
      LoopAwaitsOne(throws, st.(trace := st.trace + [Began(k)]), k + 1);
    }
  }

  lemma StepAwaitsOne(throws: seq<bool>, st: State, e: Event)
    requires Inv(throws, st)
    ensures var st1 := Step(throws, st, e);
            && Steps(st) <= |throws| && Steps(st1) <= |throws|
            && Awaited(throws, Steps(st1))
               <= Awaited(throws, Steps(st)) + if e.Settled? || (e.Start? && !st.started) then 1 else 0
  {
    var k, done :| Shape(throws, st, k, done);
    if done.None? {
      assert Begun(k) + [] == Begun(k);
      if e.Start? && !st.started {
        LoopAwaitsOne(throws, st.(started := true, armed := true), 0);
      } else if e.Settled? && st.waiting.Some? && st.waiting.value < |throws| {
        LoopAwaitsOne(throws, st, k);
      }
    }
  }

  /** Each step waits for the one before: of the steps begun, those that do not throw at once
      are at most one more than the settlings so far. */
  lemma OneStepAtATime(throws: seq<bool>, es: seq<Event>)
    ensures var st := Run(throws, FRESH, es);
            Steps(st) <= |throws| && Awaited(throws, Steps(st)) <= SettledIn(es) + 1
  {
    assert Shape(throws, FRESH, 0, None);
    RunAwaits(throws, FRESH, es);
  }

  lemma {:induction false} RunAwaits(throws: seq<bool>, st: State, es: seq<Event>)
    requires Inv(throws, st)
    ensures var st1 := Run(throws, st, es);
            && Steps(st) <= |throws| && Steps(st1) <= |throws|
            && Awaited(throws, Steps(st1))
               <= Awaited(throws, Steps(st)) + SettledIn(es) + if st.started then 0 else 1
    decreases |es|
  {
    if es == [] {
      var k, done :| Shape(throws, st, k, done);
      assert Begun(k) + [] == Begun(k);
    } else {
      var st1 := Step(throws, st, es[0]);
      StepAwaitsOne(throws, st, es[0]);
      StepShape(throws, st, es[0]);
      LoopStarts(throws, st, es[0]);
      RunAwaits(throws, st1, es[1..]);
    }
  }

  lemma LoopStarts(throws: seq<bool>, st: State, e: Event)
    requires Inv(throws, st)
    ensures Step(throws, st, e).started <==> st.started || e.Start?
  {
    var k, done :| Shape(throws, st, k, done);
    LoopStarted(throws, st.(started := true, armed := true), 0);
    if st.waiting.Some? && st.waiting.value < |throws| {
      LoopStarted(throws, st, st.waiting.value + 1);
    }
  }

  lemma {:induction false} LoopStarted(throws: seq<bool>, st: State, i: nat)
    requires i <= |throws|
    ensures Loop(throws, st, i).started == st.started
    decreases |throws| - i
  {
    if !st.finished && i < |throws| && throws[i] {
      LoopStarted(throws, st.(trace := st.trace + [Began(i)]), i + 1);
    }
  }
}
