/**
 * limonp's thread pool as a state machine.
 *
 * One step is one critical section of the blocking queue, or one closure run.  A thread that finds
 * its condition false goes to sleep; a notification wakes one sleeper of the other kind, and a
 * sleeper may also wake for no reason.  Threads that add closures come and go at any time; Stop
 * pushes one NULL per worker, one after the other, and waits for the workers to exit.
 */
module ThreadPool {
  datatype Item = Closure(id: nat) | Null

  datatype Worker = Ready | Asleep | Running(id: nat) | Exited

  // A call of Push that has not returned.
  datatype Pusher = Pusher(item: Item, asleep: bool)

  datatype State = State(
    capacity: nat,  // of the queue; also the number of workers
    queue: seq<Item>,
    workers: seq<Worker>,
    pushers: seq<Pusher>,
    stopping: bool,
    nullsLeft: nat,  // NULLs that Stop has still to push
    pushed: seq<Item>,  // everything ever pushed, in order
    popped: seq<Item>,  // everything ever popped, in order
    finished: multiset<nat>  // closures that have run
  )

  datatype Step =
    | BeginAdd(id: nat)
    | BeginStop
    | NextNull
    | Push(pusher: nat, wakes: nat)
    | PusherSleeps(pusher: nat)
    | Pop(worker: nat, wakes: nat)
    | WorkerSleeps(worker: nat)
    | Finish(worker: nat)
    | SpuriousWorker(worker: nat)
    | SpuriousPusher(pusher: nat)

  ghost predicate Init(s: State) {
    && s.capacity > 0 && |s.workers| == s.capacity && (forall w | w in s.workers :: w == Ready)
    && s.queue == [] && s.pushers == [] && !s.stopping && s.nullsLeft == 0
    && s.pushed == [] && s.popped == [] && s.finished == multiset{}
  }

  // Notifying wakes one sleeper if there is one; an index out of range stands for none.
  ghost predicate WakesWorker(ws: seq<Worker>, i: nat) {
    if i < |ws| then ws[i] == Asleep else Asleep !in ws
  }

  ghost predicate WakesPusher(ps: seq<Pusher>, i: nat) {
    if i < |ps| then ps[i].asleep else forall k | 0 <= k < |ps| :: !ps[k].asleep
  }

  function Wake(ws: seq<Worker>, i: nat): seq<Worker> {
    if i < |ws| then ws[i := Ready] else ws
  }

  function WakePusher(ps: seq<Pusher>, i: nat): seq<Pusher> {
    if i < |ps| then ps[i := ps[i].(asleep := false)] else ps
  }

  ghost predicate Enabled(s: State, e: Step) {
    match e
    case BeginAdd(_) => true
    case BeginStop => !s.stopping
    case NextNull => s.stopping && s.nullsLeft > 0 && Total(s.pushers, PUSHES_NULL) == 0
    case Push(i, w) => i < |s.pushers| && !s.pushers[i].asleep && |s.queue| < s.capacity && WakesWorker(s.workers, w)
    case PusherSleeps(i) => i < |s.pushers| && !s.pushers[i].asleep && |s.queue| == s.capacity
    case Pop(i, p) => i < |s.workers| && s.workers[i] == Ready && s.queue != [] && WakesPusher(s.pushers, p)
    case WorkerSleeps(i) => i < |s.workers| && s.workers[i] == Ready && s.queue == []
    case Finish(i) => i < |s.workers| && s.workers[i].Running?
    case SpuriousWorker(i) => i < |s.workers| && s.workers[i] == Asleep
    case SpuriousPusher(i) => i < |s.pushers| && s.pushers[i].asleep
  }

  ghost function Apply(s: State, e: Step): State
    requires Enabled(s, e)
  {
    match e
    case BeginAdd(id) => s.(pushers := s.pushers + [Pusher(Closure(id), false)])
    case BeginStop => s.(stopping := true, nullsLeft := s.capacity)
    case NextNull => s.(pushers := s.pushers + [Pusher(Null, false)], nullsLeft := s.nullsLeft - 1)
    case Push(i, w) =>
      var item := s.pushers[i].item;
      s.(queue := s.queue + [item], pushed := s.pushed + [item],
         pushers := s.pushers[..i] + s.pushers[i + 1..], workers := Wake(s.workers, w))
    case PusherSleeps(i) => s.(pushers := s.pushers[i := s.pushers[i].(asleep := true)])
    case Pop(i, p) =>
      var item := s.queue[0];
      s.(queue := s.queue[1..], popped := s.popped + [item],
         workers := s.workers[i := if item.Null? then Exited else Running(item.id)],
         pushers := WakePusher(s.pushers, p))
    case WorkerSleeps(i) => s.(workers := s.workers[i := Asleep])
    case Finish(i) => s.(workers := s.workers[i := Ready], finished := s.finished + multiset{s.workers[i].id})
    case SpuriousWorker(i) => s.(workers := s.workers[i := Ready])
    case SpuriousPusher(i) => s.(pushers := s.pushers[i := s.pushers[i].(asleep := false)])
  }

  // ---------------------------------------------------------------- counting

  ghost function Total<T>(xs: seq<T>, f: T -> nat): nat {
    if xs == [] then 0 else f(xs[0]) + Total(xs[1..], f)
  }

  lemma {:induction false} TotalAppend<T>(xs: seq<T>, ys: seq<T>, f: T -> nat)
    ensures Total(xs + ys, f) == Total(xs, f) + Total(ys, f)
  {
    if xs == [] {
      assert xs + ys == ys;
    } else {
      TotalAppend(xs[1..], ys, f);
      assert (xs + ys)[1..] == xs[1..] + ys;
    }
  }

  lemma {:induction false} TotalOne<T>(x: T, f: T -> nat)
    ensures Total([x], f) == f(x)
  {
    assert [x][1..] == [];
  }

  lemma {:induction false} TotalUpdate<T>(xs: seq<T>, i: nat, x: T, f: T -> nat)
    requires i < |xs|
    ensures Total(xs[i := x], f) + f(xs[i]) == Total(xs, f) + f(x)
    ensures Total(xs[..i] + xs[i + 1..], f) + f(xs[i]) == Total(xs, f)
  {
    assert xs == xs[..i] + ([xs[i]] + xs[i + 1..]);
    assert xs[i := x] == xs[..i] + ([x] + xs[i + 1..]);
    TotalAppend(xs[..i], [xs[i]] + xs[i + 1..], f);
    TotalAppend(xs[..i], [x] + xs[i + 1..], f);
    TotalAppend([xs[i]], xs[i + 1..], f);
    TotalAppend([x], xs[i + 1..], f);
    TotalAppend(xs[..i], xs[i + 1..], f);
    TotalOne(xs[i], f);
    TotalOne(x, f);
  }

  // A positive total has a positive term; a total of 0 or 1 terms that reaches the length has only positive ones.
  lemma {:induction false} TotalPositive<T>(xs: seq<T>, f: T -> nat) returns (i: nat)
    requires Total(xs, f) > 0
    ensures i < |xs| && f(xs[i]) > 0
  {
    if f(xs[0]) > 0 {
      i := 0;
    } else {
      i := TotalPositive(xs[1..], f);
      i := i + 1;
    }
  }

  lemma {:induction false} TotalZero<T>(xs: seq<T>, f: T -> nat, i: nat)
    requires Total(xs, f) == 0 && i < |xs|
    ensures f(xs[i]) == 0
  {
    TotalUpdate(xs, i, xs[i], f);
  }

  const IS_NULL := (x: Item) => if x.Null? then 1 else 0
  const IS_EXITED := (w: Worker) => if w.Exited? then 1 else 0
  const IS_ASLEEP := (w: Worker) => if w.Asleep? then 1 else 0
  const IS_AWAKE := (w: Worker) => if w.Ready? || w.Running? then 1 else 0
  const PUSHER_ASLEEP := (p: Pusher) => if p.asleep then 1 else 0
  const PUSHER_AWAKE := (p: Pusher) => if p.asleep then 0 else 1
  const PUSHES_NULL := (p: Pusher) => if p.item.Null? then 1 else 0
  const ADDS := (p: Pusher) => if p.item.Closure? then 1 else 0

  // How often a closure occurs.
  ghost function Has(id: nat): Item -> nat {
    (x: Item) => if x == Closure(id) then 1 else 0
  }

  ghost function Runs(id: nat): Worker -> nat {
    (w: Worker) => if w == Running(id) then 1 else 0
  }

  // ---------------------------------------------------------------- the invariant

  // Items go through the queue in order, and every worker that has exited took one NULL.
  ghost predicate Queued(s: State) {
    && s.capacity > 0 && |s.workers| == s.capacity && |s.queue| <= s.capacity
    && s.popped + s.queue == s.pushed
    && Total(s.workers, IS_EXITED) == Total(s.popped, IS_NULL)
  }

  // What has been popped has run or is running.
  ghost predicate RunOnce(s: State) {
    forall id: nat :: s.finished[id] + Total(s.workers, Runs(id)) == Total(s.popped, Has(id))
  }

  // The NULLs: none before Stop, and then as many as workers, of which Stop pushes one at a time.
  ghost predicate NullsCounted(s: State) {
    if s.stopping then
      && Total(s.pushers, PUSHES_NULL) <= 1
      && Total(s.pushed, IS_NULL) + Total(s.pushers, PUSHES_NULL) + s.nullsLeft == s.capacity
    else
      Total(s.pushers, PUSHES_NULL) == 0 == Total(s.pushed, IS_NULL)
  }

  // While a worker sleeps there are as many workers awake as items; while a pusher sleeps, as many awake as free places.
  ghost predicate NoLostWakeup(s: State) {
    && (Total(s.workers, IS_ASLEEP) > 0 ==> Total(s.workers, IS_AWAKE) >= |s.queue|)
    && (Total(s.pushers, PUSHER_ASLEEP) > 0 ==> Total(s.pushers, PUSHER_AWAKE) + |s.queue| >= s.capacity)
  }

  ghost predicate Inv(s: State) {
    Queued(s) && RunOnce(s) && NullsCounted(s) && NoLostWakeup(s)
  }

  lemma {:induction false} AllZero<T>(xs: seq<T>, f: T -> nat)
    requires forall k | 0 <= k < |xs| :: f(xs[k]) == 0
    ensures Total(xs, f) == 0
  {
    if xs != [] {
      assert forall k | 0 <= k < |xs| - 1 :: xs[1..][k] == xs[k + 1];
      AllZero(xs[1..], f);
    }
  }

  lemma {:induction false} InitInv(s: State)
    requires Init(s)
    ensures Inv(s)
  {
    assert forall k | 0 <= k < |s.workers| :: s.workers[k] in s.workers;
    AllZero(s.workers, IS_EXITED);
    AllZero(s.workers, IS_ASLEEP);
    forall id: nat ensures Total(s.workers, Runs(id)) == 0 {
      AllZero(s.workers, Runs(id));
    }
  }

  lemma {:induction false} WakeKeeps(ws: seq<Worker>, i: nat)
    requires WakesWorker(ws, i)
    ensures |Wake(ws, i)| == |ws|
    ensures forall id: nat :: Total(Wake(ws, i), Runs(id)) == Total(ws, Runs(id))
    ensures Total(Wake(ws, i), IS_EXITED) == Total(ws, IS_EXITED)
    ensures if i < |ws|
            then Total(Wake(ws, i), IS_AWAKE) == Total(ws, IS_AWAKE) + 1 && Total(Wake(ws, i), IS_ASLEEP) == Total(ws, IS_ASLEEP) - 1
            else Total(ws, IS_ASLEEP) == 0 && Wake(ws, i) == ws
  {
    if i < |ws| {
      TotalUpdate(ws, i, Ready, IS_EXITED);
      TotalUpdate(ws, i, Ready, IS_AWAKE);
      TotalUpdate(ws, i, Ready, IS_ASLEEP);
      forall id: nat ensures Total(Wake(ws, i), Runs(id)) == Total(ws, Runs(id)) {
        TotalUpdate(ws, i, Ready, Runs(id));
      }
    } else {
      forall k | 0 <= k < |ws| ensures IS_ASLEEP(ws[k]) == 0 {
        assert ws[k] in ws;
      }
      AllZero(ws, IS_ASLEEP);
    }
  }

  lemma {:induction false} WakePusherKeeps(ps: seq<Pusher>, i: nat)
    requires WakesPusher(ps, i)
    ensures |WakePusher(ps, i)| == |ps|
    ensures Total(WakePusher(ps, i), PUSHES_NULL) == Total(ps, PUSHES_NULL)
    ensures Total(WakePusher(ps, i), ADDS) == Total(ps, ADDS)
    ensures if i < |ps|
            then Total(WakePusher(ps, i), PUSHER_AWAKE) == Total(ps, PUSHER_AWAKE) + 1 && Total(ps, PUSHER_ASLEEP) > 0
            else Total(ps, PUSHER_ASLEEP) == 0 && WakePusher(ps, i) == ps
  {
    if i < |ps| {
      TotalUpdate(ps, i, ps[i].(asleep := false), PUSHER_AWAKE);
      TotalUpdate(ps, i, ps[i].(asleep := false), PUSHER_ASLEEP);
      TotalUpdate(ps, i, ps[i].(asleep := false), PUSHES_NULL);
      TotalUpdate(ps, i, ps[i].(asleep := false), ADDS);
    } else {
      AllZero(ps, PUSHER_ASLEEP);
    }
  }

  lemma {:induction false} PushKeepsInv(s: State, i: nat, w: nat)
    requires Inv(s) && Enabled(s, Push(i, w))
    ensures Inv(Apply(s, Push(i, w)))
  {
    hide Total, WakesWorker, Wake;
    var item := s.pushers[i].item;
    var s' := Apply(s, Push(i, w));
    WakeKeeps(s.workers, w);
    TotalAppend(s.pushed, [item], IS_NULL);
    TotalOne(item, IS_NULL);
    assert Queued(s') by {
      hide RunOnce, NullsCounted, NoLostWakeup;
      assert s.popped + (s.queue + [item]) == s.pushed + [item];
    }
    assert NoLostWakeup(s') by {
      hide RunOnce, NullsCounted;
      TotalUpdate(s.pushers, i, s.pushers[i], PUSHER_ASLEEP);
      TotalUpdate(s.pushers, i, s.pushers[i], PUSHER_AWAKE);
    }
    assert NullsCounted(s') by {
      hide RunOnce, NoLostWakeup, Queued;
      TotalUpdate(s.pushers, i, s.pushers[i], PUSHES_NULL);
    }
    assert RunOnce(s') by {
      hide NullsCounted, NoLostWakeup, Queued;
    }
  }

  lemma {:induction false} PopKeepsInv(s: State, i: nat, p: nat)
    requires Inv(s) && Enabled(s, Pop(i, p))
    ensures Inv(Apply(s, Pop(i, p)))
  {
    hide Total, WakesPusher, WakePusher;
    var item := s.queue[0];
    var w := if item.Null? then Exited else Running(item.id);
    var s' := Apply(s, Pop(i, p));
    WakePusherKeeps(s.pushers, p);
    assert Queued(s') by {
      hide RunOnce, NullsCounted, NoLostWakeup;
      TotalUpdate(s.workers, i, w, IS_EXITED);
      TotalAppend(s.popped, [item], IS_NULL);
      TotalOne(item, IS_NULL);
      assert (s.popped + [item]) + s.queue[1..] == s.pushed;
    }
    assert NoLostWakeup(s') by {
      hide RunOnce, NullsCounted;
      TotalUpdate(s.workers, i, w, IS_AWAKE);
      TotalUpdate(s.workers, i, w, IS_ASLEEP);
    }
    assert NullsCounted(s') by {
      hide RunOnce, NoLostWakeup, Queued;
    }
    forall id: nat
      ensures s'.finished[id] + Total(s'.workers, Runs(id)) == Total(s'.popped, Has(id))
    {
      hide NullsCounted, NoLostWakeup, Queued;
      TotalUpdate(s.workers, i, w, Runs(id));
      TotalAppend(s.popped, [item], Has(id));
      TotalOne(item, Has(id));
    }
  }

  lemma {:induction false} PushersKeepInv(s: State, e: Step)
    requires Inv(s) && Enabled(s, e) && (e.BeginAdd? || e.NextNull? || e.PusherSleeps? || e.SpuriousPusher?)
    ensures Inv(Apply(s, e))
  {
    hide Total;
    assert RunOnce(Apply(s, e));
    hide RunOnce;
    if e.BeginAdd? || e.NextNull? {
      PusherComes(s.pushers, Pusher(if e.BeginAdd? then Closure(e.id) else Null, false));
    } else {
      PusherTurns(s.pushers, e.pusher, e.PusherSleeps?);
    }
  }

  lemma {:induction false} PusherComes(ps: seq<Pusher>, p: Pusher)
    requires !p.asleep
    ensures Total(ps + [p], PUSHER_ASLEEP) == Total(ps, PUSHER_ASLEEP)
    ensures Total(ps + [p], PUSHER_AWAKE) == Total(ps, PUSHER_AWAKE) + 1
    ensures Total(ps + [p], PUSHES_NULL) == Total(ps, PUSHES_NULL) + PUSHES_NULL(p)
    ensures Total(ps + [p], ADDS) == Total(ps, ADDS) + ADDS(p)
    ensures Total(ps + [p], PUSHER_COST) == Total(ps, PUSHER_COST) + 5
  {
    TotalAppend(ps, [p], PUSHER_ASLEEP);
    TotalAppend(ps, [p], PUSHER_AWAKE);
    TotalAppend(ps, [p], PUSHES_NULL);
    TotalAppend(ps, [p], ADDS);
    TotalAppend(ps, [p], PUSHER_COST);
    TotalOne(p, PUSHER_ASLEEP);
    TotalOne(p, PUSHER_AWAKE);
    TotalOne(p, PUSHES_NULL);
    TotalOne(p, ADDS);
    TotalOne(p, PUSHER_COST);
  }

  lemma {:induction false} PusherTurns(ps: seq<Pusher>, i: nat, asleep: bool)
    requires i < |ps| && ps[i].asleep != asleep
    ensures var qs := ps[i := ps[i].(asleep := asleep)];
            && Total(qs, PUSHES_NULL) == Total(ps, PUSHES_NULL)
            && Total(qs, ADDS) == Total(ps, ADDS)
            && Total(qs, PUSHER_AWAKE) + Total(qs, PUSHER_ASLEEP) == Total(ps, PUSHER_AWAKE) + Total(ps, PUSHER_ASLEEP)
            && Total(qs, PUSHER_ASLEEP) + (if asleep then 0 else 1) == Total(ps, PUSHER_ASLEEP) + (if asleep then 1 else 0)
            && Total(qs, PUSHER_COST) + (if asleep then 1 else 0) == Total(ps, PUSHER_COST) + (if asleep then 0 else 1)
  {
    var p := ps[i].(asleep := asleep);
    TotalUpdate(ps, i, p, PUSHES_NULL);
    TotalUpdate(ps, i, p, ADDS);
    TotalUpdate(ps, i, p, PUSHER_AWAKE);
    TotalUpdate(ps, i, p, PUSHER_ASLEEP);
    TotalUpdate(ps, i, p, PUSHER_COST);
  }

  lemma {:induction false} WorkersKeepInv(s: State, e: Step)
    requires Inv(s) && Enabled(s, e) && (e.Finish? || e.WorkerSleeps? || e.SpuriousWorker?)
    ensures Inv(Apply(s, e))
  {
    hide Total;
    var s' := Apply(s, e);
    var i, w := e.worker, if e.WorkerSleeps? then Asleep else Ready;
    assert s'.workers == s.workers[i := w];
    TotalUpdate(s.workers, i, w, IS_EXITED);
    TotalUpdate(s.workers, i, w, IS_AWAKE);
    TotalUpdate(s.workers, i, w, IS_ASLEEP);
    assert Queued(s') && NullsCounted(s') && NoLostWakeup(s') by { hide RunOnce; }
    forall id: nat
      ensures s'.finished[id] + Total(s'.workers, Runs(id)) == Total(s'.popped, Has(id))
    {
      hide NullsCounted, NoLostWakeup, Queued;
      TotalUpdate(s.workers, i, w, Runs(id));
    }
  }

  lemma {:induction false} StepKeepsInv(s: State, e: Step)
    requires Inv(s) && Enabled(s, e)
    ensures Inv(Apply(s, e))
  {
    match e {
      case Push(i, w) => PushKeepsInv(s, i, w);
      case Pop(i, p) => PopKeepsInv(s, i, p);
      case BeginStop =>
      case _ =>
        if e.Finish? || e.WorkerSleeps? || e.SpuriousWorker? {
          WorkersKeepInv(s, e);
        } else {
          PushersKeepInv(s, e);
        }
    }
  }

  // ---------------------------------------------------------------- runs

  ghost predicate Run(ss: seq<State>, es: seq<Step>) {
    && |ss| == |es| + 1 && Init(ss[0])
    && forall k | 0 <= k < |es| :: Enabled(ss[k], es[k]) && ss[k + 1] == Apply(ss[k], es[k])
  }

  lemma {:induction false} RunKeepsInv(ss: seq<State>, es: seq<Step>, k: nat)
    requires Run(ss, es) && k < |ss|
    ensures Inv(ss[k])
  {
    if k == 0 {
      InitInv(ss[0]);
    } else {
      RunKeepsInv(ss, es, k - 1);
      assert ss[k - 1 + 1] == Apply(ss[k - 1], es[k - 1]);
      StepKeepsInv(ss[k - 1], es[k - 1]);
    }
  }

  // ---------------------------------------------------------------- stopping

  ghost predicate AllExited(s: State) {
    forall w | w in s.workers :: w.Exited?
  }

  lemma {:induction false} AllExitedTotal(ws: seq<Worker>)
    requires forall w | w in ws :: w.Exited?
    ensures Total(ws, IS_EXITED) == |ws|
  {
    if ws != [] {
      assert ws[0] in ws;
      AllExitedTotal(ws[1..]);
    }
  }

  lemma {:induction false} NotAllExited(ws: seq<Worker>) returns (i: nat)
    requires exists w :: w in ws && !w.Exited?
    ensures i < |ws| && !ws[i].Exited?
    ensures Total(ws, IS_EXITED) < |ws|
  {
    ExitedAtMost(ws[1..]);
    if ws[0].Exited? {
      i := NotAllExited(ws[1..]);
      i := i + 1;
    } else {
      i := 0;
    }
  }

  lemma {:induction false} ExitedAtMost(ws: seq<Worker>)
    ensures Total(ws, IS_EXITED) <= |ws|
  {
    if ws != [] {
      ExitedAtMost(ws[1..]);
    }
  }

  // When the workers have all exited, no NULL is left anywhere and every closure taken from the queue has
  // run exactly as often as it was pushed and taken.
  lemma {:induction false} StoppedIsDone(s: State)
    requires Inv(s) && AllExited(s)
    ensures s.stopping && s.nullsLeft == 0 && Total(s.popped, IS_NULL) == s.capacity
    ensures Total(s.queue, IS_NULL) == 0 == Total(s.pushers, PUSHES_NULL)
    ensures forall id: nat :: s.finished[id] == Total(s.popped, Has(id))
  {
    AllExitedTotal(s.workers);
    forall id: nat ensures Total(s.workers, Runs(id)) == 0 {
      assert forall k | 0 <= k < |s.workers| :: s.workers[k] in s.workers;
      AllZero(s.workers, Runs(id));
    }
    TotalAppend(s.popped, s.queue, IS_NULL);
  }

  // What a thread does of its own accord once it is in Push or Pop.
  ghost predicate Internal(e: Step) {
    !e.BeginAdd? && !e.BeginStop? && !Spurious(e)
  }

  ghost predicate Spurious(e: Step) {
    e.SpuriousWorker? || e.SpuriousPusher?
  }

  lemma {:induction false} SomeoneAwake(s: State) returns (i: nat)
    requires Inv(s) && s.queue != [] && !AllExited(s)
    ensures i < |s.workers| && (s.workers[i].Ready? || s.workers[i].Running?)
  {
    i := NotAllExited(s.workers);
    if s.workers[i].Asleep? {
      TotalUpdate(s.workers, i, s.workers[i], IS_ASLEEP);
      i := TotalPositive(s.workers, IS_AWAKE);
    }
  }

  // While a worker has not exited, the workers can work off the queue and Stop can push its next NULL
  // into the empty one; nobody else has to move for that, and the pushers that are there stay.
  lemma {:induction false} NextMove(s: State) returns (e: Step)
    requires Inv(s) && s.stopping && !AllExited(s) && NullsAwake(s)
    ensures Enabled(s, e) && Internal(e)
    ensures NullsAwake(Apply(s, e)) && Total(Apply(s, e).pushers, ADDS) == Total(s.pushers, ADDS)
  {
    hide Total, Queued, RunOnce, NullsCounted, NoLostWakeup, AllExited;
    if s.queue != [] {
      var i := SomeoneAwake(s);
      if s.workers[i].Running? {
        return Finish(i);
      }
      var p := SomePusherToWake(s.pushers);
      WakePusherKeeps(s.pushers, p);
      return Pop(i, p);
    }
    var w := SomeWorkerToWake(s.workers);
    if Total(s.pushers, PUSHES_NULL) > 0 {
      var i := TotalPositive(s.pushers, PUSHES_NULL);
      TotalUpdate(s.pushers, i, s.pushers[i], ADDS);
      HasRoom(s);
      return Push(i, w);
    }
    NullsRemain(s);
    PusherComes(s.pushers, Pusher(Null, false));
    return NextNull;
  }

  ghost predicate NullsAwake(s: State) {
    forall k | 0 <= k < |s.pushers| :: s.pushers[k].item.Null? ==> !s.pushers[k].asleep
  }

  // Once Stop has begun, some thread can move until all workers have exited.
  lemma {:induction false} NoDeadlock(s: State) returns (e: Step)
    requires Inv(s) && s.stopping && !AllExited(s)
    ensures Enabled(s, e) && Internal(e)
  {
    hide RunOnce, AllExited;
    if NullsAwake(s) {
      e := NextMove(s);
    } else if s.queue != [] {
      var i := SomeoneAwake(s);
      if s.workers[i].Running? {
        return Finish(i);
      }
      var p := SomePusherToWake(s.pushers);
      return Pop(i, p);
    } else {
      // A pusher sleeps before an empty queue, so another is awake.
      var k :| 0 <= k < |s.pushers| && s.pushers[k].asleep;
      TotalUpdate(s.pushers, k, s.pushers[k], PUSHER_ASLEEP);
      var i := TotalPositive(s.pushers, PUSHER_AWAKE);
      var w := SomeWorkerToWake(s.workers);
      return Push(i, w);
    }
  }

  // Each such move brings the end nearer, and a spurious wakeup puts it off by one move.
  const WORKER_COST := (w: Worker) => match w case Ready => 1 case Running(_) => 2 case Asleep => 0 case Exited => 0
  const PUSHER_COST := (p: Pusher) => if p.asleep then 4 else 5

  ghost function Distance(s: State): nat {
    6 * s.nullsLeft + Total(s.pushers, PUSHER_COST) + 3 * |s.queue| + Total(s.workers, WORKER_COST)
  }

  lemma {:induction false} Progress(s: State, e: Step)
    requires Inv(s) && Enabled(s, e) && (Internal(e) || Spurious(e))
    ensures Distance(Apply(s, e)) <= Distance(s) + if Spurious(e) then 1 else -1
  {
    hide Total, Queued, RunOnce, NullsCounted, NoLostWakeup;
    match e {
      case NextNull => PusherComes(s.pushers, Pusher(Null, false));
      case Push(i, w) =>
        TotalUpdate(s.pushers, i, s.pushers[i], PUSHER_COST);
        if w < |s.workers| { TotalUpdate(s.workers, w, Ready, WORKER_COST); }
      case PusherSleeps(i) => PusherTurns(s.pushers, i, true);
      case SpuriousPusher(i) => PusherTurns(s.pushers, i, false);
      case Pop(i, p) =>
        var item := s.queue[0];
        TotalUpdate(s.workers, i, if item.Null? then Exited else Running(item.id), WORKER_COST);
        if p < |s.pushers| { PusherTurns(s.pushers, p, false); }
      case WorkerSleeps(i) => TotalUpdate(s.workers, i, Asleep, WORKER_COST);
      case Finish(i) => TotalUpdate(s.workers, i, Ready, WORKER_COST);
      case SpuriousWorker(i) => TotalUpdate(s.workers, i, Ready, WORKER_COST);
    }
  }

  // A run from s in which nobody calls Add or Stop.
  ghost predicate RunFrom(s: State, es: seq<Step>, ss: seq<State>) {
    && |ss| == |es| + 1 && ss[0] == s
    && forall k | 0 <= k < |es| :: (Internal(es[k]) || Spurious(es[k])) && Enabled(ss[k], es[k]) && ss[k + 1] == Apply(ss[k], es[k])
  }

  ghost function SpuriousIn(es: seq<Step>): nat {
    if es == [] then 0 else (if Spurious(es[0]) then 1 else 0) + SpuriousIn(es[1..])
  }

  // From any state in which Stop has begun, and if no more is added, a run that no thread can prolong has
  // ended with every worker gone and everything that was taken run; and but for spurious wakeups no run is
  // longer than the distance.
  lemma {:induction false} StopTerminates(s: State, es: seq<Step>, ss: seq<State>)
    requires Inv(s) && s.stopping && RunFrom(s, es, ss)
    ensures |es| <= Distance(s) + 2 * SpuriousIn(es)
    ensures (forall e :: Internal(e) ==> !Enabled(ss[|es|], e)) ==>
              AllExited(ss[|es|]) && forall id: nat :: ss[|es|].finished[id] == Total(ss[|es|].popped, Has(id))
    decreases |es|
  {
    hide Inv, Enabled, Apply, AllExited, Total;
    if es == [] {
      if forall e :: Internal(e) ==> !Enabled(s, e) {
        if !AllExited(s) {
          var e := NoDeadlock(s);
        } else {
          StoppedIsDone(s);
        }
      }
    } else {
      RunTail(s, es, ss);
      StepKeepsInv(s, es[0]);
      Progress(s, es[0]);
      StaysStopping(s, es[0]);
      StopTerminates(Apply(s, es[0]), es[1..], ss[1..]);
    }
  }

  // ---------------------------------------------------------------- when Stop leaves nothing behind

  // No closure is pushed after a NULL, and none is about to be.
  ghost predicate ClosuresFirst(items: seq<Item>) {
    forall i, j | 0 <= i < j < |items| :: items[i].Null? ==> items[j].Null?
  }

  ghost predicate OnlyNulls(s: State) {
    ClosuresFirst(s.pushed) && forall k | 0 <= k < |s.pushers| :: s.pushers[k].item.Null?
  }

  // When no Add is in progress, and none follows, the workers exit only after everything has been run.
  lemma {:induction false} NothingLeft(s: State, es: seq<Step>, ss: seq<State>)
    requires Inv(s) && OnlyNulls(s) && RunFrom(s, es, ss) && AllExited(ss[|es|])
    ensures var last := ss[|es|];
            && last.queue == [] && last.pushers == [] && last.popped == last.pushed
            && forall id: nat :: last.finished[id] == Total(last.pushed, Has(id))
    decreases |es|
  {
    hide Inv, Enabled, Apply, AllExited, OnlyNulls, Total;
    if es == [] {
      ExitedLast(s);
    } else {
      RunTail(s, es, ss);
      StepKeepsInv(s, es[0]);
      StepKeepsOnlyNulls(s, es[0]);
      NothingLeft(Apply(s, es[0]), es[1..], ss[1..]);
    }
  }

  // But the workers can also exit without waiting for any Add in progress.
  lemma {:induction false} LeftBehind(s: State) returns (es: seq<Step>, ss: seq<State>)
    requires Inv(s) && s.stopping && NullsAwake(s)
    ensures RunFrom(s, es, ss) && AllExited(ss[|es|])
    ensures Total(ss[|es|].pushers, ADDS) == Total(s.pushers, ADDS)
    decreases Distance(s)
  {
    hide Inv, Enabled, Apply, AllExited, NullsAwake, Distance, Total, Internal, Spurious;
    if AllExited(s) {
      es, ss := [], [s];
    } else {
      var e := NextMove(s);
      StepKeepsInv(s, e);
      Progress(s, e);
      StaysStopping(s, e);
      NotSpurious(e);
      var es', ss' := LeftBehind(Apply(s, e));
      es, ss := [e] + es', [s] + ss';
      forall k | 0 <= k < |es|
        ensures (Internal(es[k]) || Spurious(es[k])) && Enabled(ss[k], es[k]) && ss[k + 1] == Apply(ss[k], es[k])
      {
        if k > 0 {
          assert es[k] == es'[k - 1] && ss[k] == ss'[k - 1] && ss[k + 1] == ss'[k - 1 + 1];
        }
      }
    }
  }

  // So Stop is sure to run everything if and only if no Add is in progress when it begins: from any state
  // of any run, every way to go on, without further calls, until the workers have exited ends with nothing
  // left - or there is one that ends with the closure of such an Add never run.
  lemma {:induction false} StopRunsAllIff(s: State)
    requires Inv(s) && !s.stopping
    ensures (forall es: seq<Step>, ss: seq<State> | RunFrom(Apply(s, BeginStop), es, ss) && AllExited(ss[|es|]) ::
               ss[|es|].queue == [] && ss[|es|].pushers == []) <==> s.pushers == []
  {
    var s' := Apply(s, BeginStop);
    StepKeepsInv(s, BeginStop);
    AllAdders(s.pushers);
    hide Inv, Enabled, Apply, AllExited, Total;
    if s.pushers == [] {
      NoneYet(s);
      forall es: seq<Step>, ss: seq<State> | RunFrom(s', es, ss) && AllExited(ss[|es|])
        ensures ss[|es|].queue == [] && ss[|es|].pushers == []
      {
        NothingLeft(s', es, ss);
      }
    } else {
      var es, ss := LeftBehind(s');
      NoAdders();
    }
  }

  // ---------------------------------------------------------------- small facts

  lemma {:induction false} StepKeepsOnlyNulls(s: State, e: Step)
    requires OnlyNulls(s) && Enabled(s, e) && (Internal(e) || Spurious(e))
    ensures OnlyNulls(Apply(s, e))
  {
    hide Total;
  }

  lemma {:induction false} HasRoom(s: State)
    requires Inv(s) && s.queue == []
    ensures |s.queue| < s.capacity
  {
  }

  lemma {:induction false} NullsRemain(s: State)
    requires Inv(s) && s.stopping && !AllExited(s) && s.queue == [] && Total(s.pushers, PUSHES_NULL) == 0
    ensures s.nullsLeft > 0
  {
    var i := NotAllExited(s.workers);
    assert s.popped + [] == s.popped;
  }

  lemma {:induction false} SomePusherToWake(ps: seq<Pusher>) returns (p: nat)
    ensures WakesPusher(ps, p)
  {
    if Total(ps, PUSHER_ASLEEP) > 0 {
      p := TotalPositive(ps, PUSHER_ASLEEP);
    } else {
      p := |ps|;
      forall k | 0 <= k < |ps| ensures !ps[k].asleep {
        TotalZero(ps, PUSHER_ASLEEP, k);
      }
    }
  }

  lemma {:induction false} SomeWorkerToWake(ws: seq<Worker>) returns (w: nat)
    ensures WakesWorker(ws, w)
  {
    if Asleep in ws {
      w :| w < |ws| && ws[w] == Asleep;
    } else {
      w := |ws|;
    }
  }

  lemma {:induction false} RunTail(s: State, es: seq<Step>, ss: seq<State>)
    requires RunFrom(s, es, ss) && es != []
    ensures (Internal(es[0]) || Spurious(es[0])) && Enabled(s, es[0])
    ensures RunFrom(Apply(s, es[0]), es[1..], ss[1..])
  {
    hide Enabled, Apply;
    assert ss[0 + 1] == Apply(ss[0], es[0]);
    forall k | 0 <= k < |es| - 1
      ensures (Internal(es[1..][k]) || Spurious(es[1..][k])) && Enabled(ss[1..][k], es[1..][k])
      ensures ss[1..][k + 1] == Apply(ss[1..][k], es[1..][k])
    {
      assert es[1..][k] == es[k + 1] && ss[k + 1 + 1] == Apply(ss[k + 1], es[k + 1]);
    }
  }

  lemma {:induction false} StaysStopping(s: State, e: Step)
    requires s.stopping && Enabled(s, e)
    ensures Apply(s, e).stopping
  {
  }

  lemma {:induction false} ExitedLast(s: State)
    requires Inv(s) && OnlyNulls(s) && AllExited(s)
    ensures s.queue == [] && s.pushers == [] && s.popped == s.pushed
    ensures forall id: nat :: s.finished[id] == Total(s.pushed, Has(id))
  {
    hide RunOnce, NoLostWakeup, NullsCounted, AllExited;
    StoppedIsDone(s);
    NullsAfter(s.popped, s.queue);
    assert s.popped + [] == s.popped;
    AllNullPushers(s.pushers);
  }

  lemma {:induction false} AllNullPushers(ps: seq<Pusher>)
    requires forall k | 0 <= k < |ps| :: ps[k].item.Null?
    ensures Total(ps, PUSHES_NULL) == |ps|
  {
    if ps != [] {
      assert forall k | 0 <= k < |ps| - 1 :: ps[1..][k] == ps[k + 1];
      AllNullPushers(ps[1..]);
    }
  }

  // Once a NULL has been popped, only NULLs are left.
  lemma {:induction false} NullsAfter(popped: seq<Item>, queue: seq<Item>)
    requires ClosuresFirst(popped + queue) && Total(popped, IS_NULL) > 0
    ensures Total(queue, IS_NULL) == |queue|
  {
    var k := TotalPositive(popped, IS_NULL);
    assert (popped + queue)[k].Null?;
    assert forall j | 0 <= j < |queue| :: queue[j] == (popped + queue)[|popped| + j];
    AllNulls(queue);
  }

  lemma {:induction false} AllNulls(items: seq<Item>)
    requires forall j | 0 <= j < |items| :: items[j].Null?
    ensures Total(items, IS_NULL) == |items|
  {
    if items != [] {
      assert forall j | 0 <= j < |items| - 1 :: items[1..][j] == items[j + 1];
      AllNulls(items[1..]);
    }
  }

  lemma {:induction false} NotSpurious(e: Step)
    requires Internal(e)
    ensures !Spurious(e)
  {
  }

  lemma {:induction false} NoAdders()
    ensures Total<Pusher>([], ADDS) == 0
  {
  }

  lemma {:induction false} NoneYet(s: State)
    requires Inv(s) && !s.stopping
    ensures ClosuresFirst(s.pushed)
  {
    forall k | 0 <= k < |s.pushed| ensures s.pushed[k].Closure? {
      TotalZero(s.pushed, IS_NULL, k);
    }
  }

  lemma {:induction false} AllAdders(ps: seq<Pusher>)
    requires Total(ps, PUSHES_NULL) == 0
    ensures Total(ps, ADDS) == |ps|
    ensures forall k | 0 <= k < |ps| :: ps[k].item.Closure?
  {
    if ps != [] {
      AllAdders(ps[1..]);
      assert forall k | 0 < k < |ps| :: ps[k] == ps[1..][k - 1];
    }
  }
}
