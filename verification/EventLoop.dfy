/**
 * The wakeup protocol of the event loop, as a state machine.
 *
 * One step is one critical section, one system call, one callback or one test of a flag.  Any number
 * of threads call queueInLoop and quit; `owed` counts those of them that have pushed their functor
 * (or set the flag) but have not written to the eventfd yet.
 */
module EventLoop {
  // Where the loop's own thread is.
  datatype Place =
    | Outside             // not inside loop()
    | AtPoll              // inside poll, or about to call it
    | Handling(ready: bool)  // calling the handlers of the active channels; ready: the eventfd's is still to come
    | Running             // in doPendingFunctors, after the swap
    | Waking              // in queueInLoop called by a functor, before the wakeup
    | Checking            // back at the loop's condition

  // What a push adds; functors are told apart by a number.
  type Functor = nat

  // An eventfd's counter stops here: the write fails and leaves it as it is.
  const MAX_EVENTS: nat := 0xffff_ffff_ffff_fffe

  datatype State = State(
    place: Place,
    pending: seq<Functor>,
    batch: seq<Functor>,  // swapped out and not yet called
    events: nat,  // the eventfd's counter
    owed: nat,
    quit: bool,
    queued: seq<Functor>,  // every functor ever queued, in order
    called: seq<Functor>  // every functor ever called, in order
  )

  datatype Step =
    | Queue(f: Functor)  // another thread
    | Quit               // another thread
    | Wakeup             // another thread
    | Loop
    | Poll(ready: bool)
    | HandleRead
    | QueueSelf(f: Functor)
    | WakeSelf
    | QuitSelf
    | Swap
    | Call
    | Done
    | Check

  ghost predicate Init(s: State) {
    s == State(Outside, [], [], 0, 0, false, [], [])
  }

  function Write(events: nat): nat {
    if events < MAX_EVENTS then events + 1 else events
  }

  ghost predicate Enabled(s: State, e: Step) {
    match e
    case Queue(_) => true
    case Quit => true
    case Wakeup => s.owed > 0
    case Loop => s.place == Outside
    // Poll may also return because of another channel or of its timeout.
    case Poll(ready) => s.place == AtPoll && (ready ==> s.events > 0)
    case HandleRead => s.place == Handling(true)
    case QueueSelf(_) => s.place.Outside? || s.place.Handling? || s.place.Running?
    case WakeSelf => s.place == Waking
    case QuitSelf => s.place.Outside? || s.place.Handling? || s.place.Running?
    case Swap => s.place == Handling(false)
    case Call => s.place == Running && s.batch != []
    case Done => s.place == Running && s.batch == []
    case Check => s.place == Checking
  }

  ghost function Apply(s: State, e: Step): State
    requires Enabled(s, e)
  {
    match e
    case Queue(f) => s.(pending := s.pending + [f], queued := s.queued + [f], owed := s.owed + 1)
    case Quit => s.(quit := true, owed := s.owed + 1)
    case Wakeup => s.(events := Write(s.events), owed := s.owed - 1)
    case Loop => s.(quit := false, place := Checking)
    case Poll(ready) => s.(place := Handling(ready))
    case HandleRead => s.(events := 0, place := Handling(false))
    case QueueSelf(f) => s.(pending := s.pending + [f], queued := s.queued + [f],
                            place := if s.place.Running? then Waking else s.place)
    case WakeSelf => s.(events := Write(s.events), place := Running)
    case QuitSelf => s.(quit := true)
    case Swap => s.(batch := s.pending, pending := [], place := Running)
    case Call => s.(batch := s.batch[1..], called := s.called + [s.batch[0]])
    case Done => s.(place := Checking)
    case Check => s.(place := if s.quit then Outside else AtPoll)
  }

  // ---------------------------------------------------------------- invariants

  // Functors are called in the order in which they were queued, each at most once.
  ghost predicate InOrder(s: State) {
    && s.called + s.batch + s.pending == s.queued
    && (s.batch != [] ==> s.place.Running? || s.place.Waking?)
  }

  // Functors are pending, and nothing will make poll return for them: the eventfd is not readable, no
  // thread is yet to write to it, and the loop's own thread is not on its way to the swap or to a wakeup.
  ghost predicate Stranded(s: State) {
    s.pending != [] && s.events == 0 && s.owed == 0 && !s.place.Handling? && !s.place.Waking?
  }

  // The loop's own thread queues outside loop(), where it does not wake itself, and nobody else does.
  ghost predicate QueuesAsleep(s: State, e: Step) {
    e.QueueSelf? && s.place.Outside? && s.events == 0 && s.owed == 0
  }

  // At poll a quit has a wakeup.  One made before loop() is gone by then, as loop() clears it.
  ghost predicate NoLostQuit(s: State) {
    s.place == AtPoll && s.quit ==> s.events > 0 || s.owed > 0
  }

  ghost predicate Inv(s: State) {
    InOrder(s) && !Stranded(s) && NoLostQuit(s)
  }

  lemma {:induction false} StepKeepsOrder(s: State, e: Step)
    requires InOrder(s) && Enabled(s, e)
    ensures InOrder(Apply(s, e))
    ensures s.called <= Apply(s, e).called && s.queued <= Apply(s, e).queued
  {
    match e {
      case Queue(f) =>
        assert s.called + s.batch + (s.pending + [f]) == s.called + s.batch + s.pending + [f];
      case QueueSelf(f) =>
        assert s.called + s.batch + (s.pending + [f]) == s.called + s.batch + s.pending + [f];
      case Swap =>
        assert s.called + s.pending + [] == s.called + [] + s.pending;
      case Call =>
        assert s.batch == [s.batch[0]] + s.batch[1..];
        assert (s.called + [s.batch[0]]) + s.batch[1..] == s.called + s.batch;
      case _ =>
    }
  }

  lemma {:induction false} StepKeepsInv(s: State, e: Step)
    requires Inv(s) && Enabled(s, e) && !QueuesAsleep(s, e)
    ensures Inv(Apply(s, e))
  {
    StepKeepsOrder(s, e);
    hide InOrder;
  }

  // That is the only way to strand a functor.
  lemma {:induction false} StrandsIff(s: State, e: Step)
    requires Enabled(s, e) && !Stranded(s)
    ensures Stranded(Apply(s, e)) <==> QueuesAsleep(s, e)
  {}

  // ---------------------------------------------------------------- runs

  ghost predicate Run(ss: seq<State>, es: seq<Step>) {
    && |ss| == |es| + 1 && Init(ss[0])
    && forall k | 0 <= k < |es| :: Enabled(ss[k], es[k]) && ss[k + 1] == Apply(ss[k], es[k])
  }

  lemma {:induction false} RunKeepsOrder(ss: seq<State>, es: seq<Step>, k: nat)
    requires Run(ss, es) && k < |ss|
    ensures InOrder(ss[k])
  {
    if k > 0 {
      RunKeepsOrder(ss, es, k - 1);
      assert ss[k - 1 + 1] == Apply(ss[k - 1], es[k - 1]);
      StepKeepsOrder(ss[k - 1], es[k - 1]);
    }
  }

  // Whatever the threads do, the functors called so far are the first ones queued, in that order.
  lemma {:induction false} CalledInQueueOrder(ss: seq<State>, es: seq<Step>, k: nat)
    requires Run(ss, es) && k < |ss|
    ensures ss[k].called <= ss[k].queued
  {
    RunKeepsOrder(ss, es, k);
    assert ss[k].called + ss[k].batch + ss[k].pending == ss[k].called + (ss[k].batch + ss[k].pending);
  }

  lemma {:induction false} RunKeepsInv(ss: seq<State>, es: seq<Step>, k: nat)
    requires Run(ss, es) && k < |ss|
    requires forall j | 0 <= j < |es| :: !QueuesAsleep(ss[j], es[j])
    ensures Inv(ss[k])
  {
    if k > 0 {
      RunKeepsInv(ss, es, k - 1);
      assert ss[k - 1 + 1] == Apply(ss[k - 1], es[k - 1]);
      StepKeepsInv(ss[k - 1], es[k - 1]);
    }
  }

  // A poll that has functors to run, or a quit to notice, does not wait: the eventfd is readable, unless
  // some thread is still between its push and its wakeup.
  lemma {:induction false} PollDoesNotSleep(ss: seq<State>, es: seq<Step>, k: nat)
    requires Run(ss, es) && k < |ss|
    requires forall j | 0 <= j < |es| :: !QueuesAsleep(ss[j], es[j])
    requires ss[k].place == AtPoll && (ss[k].pending != [] || ss[k].quit)
    ensures ss[k].events > 0 || ss[k].owed > 0
    ensures ss[k].owed == 0 ==> Enabled(ss[k], Poll(true))
  {
    RunKeepsInv(ss, es, k);
  }

  // A run strands functors exactly if its loop's own thread once queues one so.
  lemma {:induction false} RunStrandsIff(ss: seq<State>, es: seq<Step>)
    requires Run(ss, es)
    ensures (exists k | 0 <= k < |ss| :: Stranded(ss[k])) <==> exists i | 0 <= i < |es| :: QueuesAsleep(ss[i], es[i])
  {
    if i :| 0 <= i < |es| && QueuesAsleep(ss[i], es[i]) {
      assert ss[i + 1] == Apply(ss[i], es[i]) && Stranded(ss[i + 1]);
    } else {
      forall k | 0 <= k < |ss| ensures !Stranded(ss[k]) {
        RunKeepsInv(ss, es, k);
      }
    }
  }

  // And poll then sleeps on it: whoever calls loop() after queueing a functor arrives at a poll that has
  // it pending, and which nothing wakes if and only if nothing was to wake it when it was queued.
  lemma {:induction false} QueuedOutsideSleeps(s: State, f: Functor) returns (t: State)
    requires Inv(s) && s.place == Outside
    ensures Enabled(s, QueueSelf(f)) && Enabled(Apply(s, QueueSelf(f)), Loop)
    ensures var s2 := Apply(Apply(s, QueueSelf(f)), Loop); Enabled(s2, Check) && t == Apply(s2, Check)
    ensures t.place == AtPoll && f in t.pending
    ensures Stranded(t) <==> QueuesAsleep(s, QueueSelf(f))
    ensures Enabled(t, Poll(true)) <==> s.events > 0
  {
    var s1 := Apply(s, QueueSelf(f));
    t := Apply(Apply(s1, Loop), Check);
  }

  // A quit is undone by loop() alone, so one made while it runs ends it at the next look at the condition.
  lemma {:induction false} QuitEndsLoop(ss: seq<State>, es: seq<Step>, i: nat, k: nat)
    requires Run(ss, es) && i <= k < |es| && ss[i].quit && ss[i].place != Outside
    requires forall j | i <= j <= k :: ss[j].place != Outside
    ensures ss[k].quit && (es[k].Check? ==> ss[k + 1].place == Outside)
  {
    assert ss[k + 1] == Apply(ss[k], es[k]);
    if i < k {
      QuitEndsLoop(ss, es, i, k - 1);
      assert ss[k - 1 + 1] == Apply(ss[k - 1], es[k - 1]);
    }
  }

  // ---------------------------------------------------------------- one turn of the loop

  // The first n functors queued have been called, or will be in the present turn.
  ghost predicate Promised(s: State, n: nat) {
    match s.place
    case Handling(_) => n <= |s.queued|
    case Running => n <= |s.called| + |s.batch|
    case Waking => n <= |s.called| + |s.batch|
    case _ => n <= |s.called|
  }

  lemma {:induction false} StepKeepsPromise(s: State, e: Step, n: nat)
    requires InOrder(s) && Enabled(s, e) && Promised(s, n)
    ensures Promised(Apply(s, e), n)
  {}

  lemma {:induction false} PollPromises(s: State, e: Step)
    requires Enabled(s, e) && e.Poll?
    ensures Promised(Apply(s, e), |s.queued|)
  {}

  lemma {:induction false} TurnPromises(ss: seq<State>, es: seq<Step>, i: nat, j: nat)
    requires Run(ss, es) && i < j < |ss| && es[i].Poll?
    ensures Promised(ss[j], |ss[i].queued|)
  {
    hide Enabled, Apply, InOrder, Promised, Init;
    assert ss[j - 1 + 1] == Apply(ss[j - 1], es[j - 1]);
    if j == i + 1 {
      PollPromises(ss[i], es[i]);
    } else {
      RunKeepsOrder(ss, es, j - 1);
      TurnPromises(ss, es, i, j - 1);
      StepKeepsPromise(ss[j - 1], es[j - 1], |ss[i].queued|);
    }
  }

  // Everything queued before a poll returned has been called when the loop is next at its condition
  // or in poll.
  lemma {:induction false} TurnCallsAll(ss: seq<State>, es: seq<Step>, i: nat, j: nat)
    requires Run(ss, es) && i < j < |ss| && es[i].Poll?
    requires ss[j].place.Checking? || ss[j].place.AtPoll?
    ensures ss[i].queued <= ss[j].called
  {
    hide Run, InOrder;
    TurnPromises(ss, es, i, j);
    CalledInQueueOrder(ss, es, j);
    QueuedGrows(ss, es, i, j);
    assert ss[j].called == ss[j].queued[..|ss[j].called|];
  }

  lemma {:induction false} QueuedGrows(ss: seq<State>, es: seq<Step>, i: nat, j: nat)
    requires Run(ss, es) && i <= j < |ss|
    ensures ss[i].queued <= ss[j].queued
    decreases j - i
  {
    if i < j {
      QueuedGrows(ss, es, i, j - 1);
      hide InOrder;
      assert Enabled(ss[j - 1], es[j - 1]) && ss[j - 1 + 1] == Apply(ss[j - 1], es[j - 1]);
    }
  }
}
