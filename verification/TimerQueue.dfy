/**
 * The timer queue: timers ordered by expiration, and one timerfd armed for the earliest.  Times are
 * in microseconds.  The clock is read where the source reads it, as a parameter.
 */
module TimerQueue {
  import opened Common

  const MICROSECONDS_PER_SECOND := 1_000_000
  const LEAST_DELAY := 100

  // The microseconds added have the sign of the seconds, are no more than them and less than one microsecond short.
  function AddTime(time: int, seconds: real): (t: int)
    ensures if seconds < 0.0 then seconds * 1000000.0 <= (t - time) as real <= 0.0 && (t - time) as real < seconds * 1000000.0 + 1.0
            else 0.0 <= (t - time) as real <= seconds * 1000000.0 && seconds * 1000000.0 < (t - time) as real + 1.0
  {
    var us := seconds * (MICROSECONDS_PER_SECOND as real);
    time + if us < 0.0 then -(-us).Floor else us.Floor
  }

  class Timer {
    var expiration: int
    const interval: real
    const repeat := interval > 0.0

    constructor (when: int, interval: real)
      ensures expiration == when && this.interval == interval
    {
      expiration := when;
      this.interval := interval;
    }

    method Restart(now: int)
      modifies `expiration
      ensures expiration == if repeat then AddTime(now, interval) else 0
    {
      if repeat {
        expiration := AddTime(now, interval);
      } else {
        expiration := 0;
      }
    }
  }

  datatype Timespec = Timespec(sec: int, nsec: int)

  function HowMuchTimeFromNow(when: int, now: int): (tm: Timespec)
    ensures 0 <= tm.nsec < 1_000_000_000
    ensures tm.sec * 1_000_000_000 + tm.nsec == 1000 * if when - now < 100 then 100 else when - now
  {
    var microseconds := if when - now < LEAST_DELAY then LEAST_DELAY else when - now;
    Timespec(microseconds / MICROSECONDS_PER_SECOND, (microseconds % MICROSECONDS_PER_SECOND) * 1000)
  }

  datatype Entry = Entry(when: int, timer: Timer)

  // A timer that a callback adds, and the clock at that moment.
  datatype Addition = Addition(when: int, interval: real, clock: int)

  ghost function TimersOf(timers: seq<Entry>): set<Timer> {
    set e | e in timers :: e.timer
  }

  lemma {:induction false} TimersAllocated(es: seq<Entry>)
    ensures forall t | t in TimersOf(es) :: allocated(t)
  {}

  lemma {:induction false} NoneRepeating()
    ensures Repeating([]) == {}
  {}

  lemma {:induction false} TimersStep(es: seq<Entry>, i: nat)
    requires Distinct(es) && i < |es|
    ensures es[i].timer in TimersOf(es[i..]) && TimersOf(es[i + 1..]) <= TimersOf(es[i..])
    ensures es[i].timer !in TimersOf(es[i + 1..]) && es[i].timer !in Repeating(es[..i])
    ensures Repeating(es[..i + 1]) == Repeating(es[..i]) + if es[i].timer.repeat then {es[i].timer} else {}
    ensures es[i].timer in TimersOf(es) && Repeating(es[..i]) <= TimersOf(es)
  {
    assert es == es[..i] + [es[i]] + es[i + 1..];
    TimersSplit(es[..i] + [es[i]], es[i + 1..]);
    TimersSplit(es[..i], [es[i]]);
    assert es[..i + 1] == es[..i] + [es[i]];
    assert es[i] in es[i..] && forall e | e in es[i + 1..] :: e in es[i..];
    assert es[i] in [es[i]];
  }

  lemma {:induction false} InsertKeeps(es: seq<Entry>, k: nat, e: Entry)
    requires k <= |es| && Distinct(es) && e.timer !in TimersOf(es)
    ensures Distinct(es[..k] + [e] + es[k..])
    ensures TimersOf(es[..k] + [e] + es[k..]) == TimersOf(es) + {e.timer}
  {
    var fs := es[..k] + [e] + es[k..];
    assert fs[k] == e;
    assert forall f :: f in fs <==> f == e || f in es;
    forall i, j | 0 <= i < j < |fs| ensures fs[i].timer != fs[j].timer {
      assert i < k ==> fs[i] == es[i] && fs[i] in es;
      assert i > k ==> fs[i] == es[i - 1];
      assert j < k ==> fs[j] == es[j];
      assert j > k ==> fs[j] == es[j - 1] && fs[j] in es;
    }
  }

  lemma {:induction false} RestApart(es: seq<Entry>, fs: seq<Entry>)
    requires TimersOf(es) !! TimersOf(fs)
    ensures forall e | e in es :: e.timer !in TimersOf(fs)
  {
    assert forall e | e in es :: e.timer in TimersOf(es);
  }

  // Where an ordered list splits into what is due and what is not.
  ghost predicate SplitsAt(all: seq<Entry>, n: nat, now: int) {
    n <= |all| && forall k | 0 <= k < |all| :: k < n <==> all[k].when <= now
  }

  lemma {:induction false} DueSplits(all: seq<Entry>, n: nat, now: int)
    requires Ordered(all) && n <= |all| && forall k | 0 <= k < n :: all[k].when <= now
    requires n < |all| ==> now < all[n].when
    ensures SplitsAt(all, n, now)
  {}

  function TimersIn(es: seq<Entry>): seq<Timer> {
    if es == [] then [] else TimersIn(es[..|es| - 1]) + [es[|es| - 1].timer]
  }

  lemma {:induction false} TimersInPush(es: seq<Entry>, e: Entry)
    ensures TimersIn(es + [e]) == TimersIn(es) + [e.timer]
  {
    assert (es + [e])[..|es|] == es;
  }

  ghost predicate Distinct(es: seq<Entry>) {
    forall i, j | 0 <= i < j < |es| :: es[i].timer != es[j].timer
  }

  ghost predicate Ordered(es: seq<Entry>) {
    forall i, j | 0 <= i < j < |es| :: es[i].when <= es[j].when
  }

  // The entries have the expirations of their timers.
  ghost predicate Current(es: seq<Entry>)
    reads TimersOf(es)
  {
    forall k | 0 <= k < |es| :: es[k].when == es[k].timer.expiration
  }

  lemma {:induction false} SuffixKeeps(es: seq<Entry>, n: nat)
    requires Ordered(es) && Current(es) && n <= |es|
    ensures Ordered(es[n..]) && Current(es[n..])
  {}

  ghost function Repeating(es: seq<Entry>): set<Timer> {
    set t | t in TimersOf(es) && t.repeat
  }

  lemma {:induction false} TimersSplit(es: seq<Entry>, fs: seq<Entry>)
    requires Distinct(es + fs)
    ensures Distinct(es) && Distinct(fs)
    ensures TimersOf(es) !! TimersOf(fs) && TimersOf(es) + TimersOf(fs) == TimersOf(es + fs)
  {
    assert forall i | 0 <= i < |es| :: es[i] == (es + fs)[i];
    assert forall j | 0 <= j < |fs| :: fs[j] == (es + fs)[|es| + j];
    forall i, j | 0 <= i < |es| && 0 <= j < |fs| ensures es[i].timer != fs[j].timer {
      assert (es + fs)[i].timer != (es + fs)[|es| + j].timer;
    }
    assert forall e :: e in es + fs <==> e in es || e in fs;
  }

  ghost function Elements(ts: seq<Timer>): set<Timer> {
    set t | t in ts
  }

  // One timer for each addition, in order.
  ghost predicate Fulfils(added: seq<Timer>, adds: seq<Addition>)
    reads added
  {
    |added| == |adds| &&
    forall k | 0 <= k < |adds| :: added[k].expiration == adds[k].when && added[k].interval == adds[k].interval
  }

  // What the callbacks of these timers add, one after the other.
  ghost function AllAdds(ts: seq<Timer>, adds: Timer -> seq<Addition>): seq<Addition> {
    if ts == [] then [] else AllAdds(ts[..|ts| - 1], adds) + adds(ts[|ts| - 1])
  }

  lemma {:induction false} AllAddsPush(ts: seq<Timer>, t: Timer, adds: Timer -> seq<Addition>)
    ensures AllAdds(ts + [t], adds) == AllAdds(ts, adds) + adds(t)
  {
    assert (ts + [t])[..|ts|] == ts;
  }

  lemma {:induction false} FulfilsAppend(xs: seq<Timer>, ys: seq<Timer>, us: seq<Addition>, vs: seq<Addition>)
    requires Fulfils(xs, us) && Fulfils(ys, vs) && NoRepeats(xs) && NoRepeats(ys) && forall y | y in ys :: y !in xs
    ensures Fulfils(xs + ys, us + vs) && NoRepeats(xs + ys) && Elements(xs + ys) == Elements(xs) + Elements(ys)
  {
    NoRepeatsAppend(xs, ys);
  }

  lemma {:induction false} ElementsApart(ts: seq<Timer>, others: set<Timer>)
    requires forall t | t in ts :: t !in others
    ensures Elements(ts) !! others
  {}

  class TimerQueue {
    var timers: seq<Entry>
    // The timerfd: when it becomes (or became) readable, unless it is disarmed or has been read.
    var alarm: Option<int>
    ghost var armedAt: int
    // Every timer whose callback has run.
    ghost var ran: seq<Timer>

    ghost predicate Entries()
      reads `timers, TimersOf(timers)
    {
      Distinct(timers) && Ordered(timers) && Current(timers)
    }

    ghost function Timers(): set<Timer>
      reads `timers
    {
      TimersOf(timers)
    }

    // The timerfd has fired and not been read, or will fire by the earliest expiration or, if that is
    // too near, 100 microseconds after it was armed.
    ghost predicate Armed()
      reads this
    {
      timers != [] ==>
        alarm.Some? && (alarm.value <= timers[0].when || alarm.value <= armedAt + LEAST_DELAY)
    }

    ghost predicate Valid()
      reads this, TimersOf(timers)
    {
      Entries() && Armed()
    }

    constructor ()
      ensures Valid() && timers == [] && ran == []
    {
      timers, alarm, armedAt, ran := [], None, 0, [];
    }

    method SetTimerfd(expiration: int, now: int)
      modifies `alarm, `armedAt
      ensures armedAt == now
      ensures alarm == Some(if expiration < now + LEAST_DELAY then now + LEAST_DELAY else expiration)
    {
      var tm := HowMuchTimeFromNow(expiration, now);
      alarm := Some(now + (tm.sec * 1_000_000_000 + tm.nsec) / 1000);
      armedAt := now;
    }

    // Reading a timerfd that has not fired (because it was armed anew meanwhile) fails and leaves it armed.
    method ReadTimerfd(now: int)
      modifies `alarm
      ensures alarm == if old(alarm).Some? && old(alarm).value <= now then None else old(alarm)
      ensures Entries() == old(Entries())
    {
      if alarm.Some? && alarm.value <= now {
        alarm := None;
      }
    }

    method Insert(timer: Timer) returns (earliestChanged: bool, ghost at: nat)
      requires Entries() && timer !in Timers()
      modifies `timers
      ensures Entries()
      ensures at <= |old(timers)| && timers == old(timers)[..at] + [Entry(timer.expiration, timer)] + old(timers)[at..]
      ensures earliestChanged <==> at == 0
      ensures Timers() == old(Timers()) + {timer}
    {
      hide Distinct, TimersOf;
      var when := timer.expiration;
      earliestChanged := timers == [] || when < timers[0].when;
      var k := 0;
      while k < |timers| && timers[k].when <= when
        invariant k <= |timers| && forall j | 0 <= j < k :: timers[j].when <= when
      {
        k := k + 1;
      }
      at := k;
      InsertKeeps(timers, k, Entry(when, timer));
      timers := timers[..k] + [Entry(when, timer)] + timers[k..];
    }

    method AddTimer(when: int, interval: real, now: int) returns (timer: Timer)
      requires Entries()
      modifies `timers, `alarm, `armedAt
      ensures Entries() && fresh(timer) && Timers() == old(Timers()) + {timer}
      ensures timer.expiration == when && timer.interval == interval
      ensures timers != []
      ensures Armed() || (old(timers) != [] && old(!Armed()) && timers[0] == old(timers)[0])
    {
      timer := new Timer(when, interval);
      var earliestChanged, at := Insert(timer);
      if earliestChanged {
        SetTimerfd(timer.expiration, now);
      }
    }

    method GetExpired(now: int) returns (expired: seq<Entry>)
      requires Entries()
      modifies `timers
      ensures Entries() && expired + timers == old(timers) && Distinct(expired) && Current(timers)
      ensures SplitsAt(old(timers), |expired|, now)
      ensures expired == old(timers)[..|expired|] && timers == old(timers)[|expired|..]
      ensures now >= 0 ==> ArmedIfOverdue()
      ensures Timers() !! TimersOf(expired) && Timers() + TimersOf(expired) == old(Timers())
    {
      hide Distinct, Ordered, Current, TimersOf, SplitsAt;
      var it := 0;
      while it < |timers| && timers[it].when <= now
        invariant it <= |timers| && forall k | 0 <= k < it :: timers[k].when <= now
      {
        it := it + 1;
      }
      DueSplits(timers, it, now);
      SuffixKeeps(timers, it);
      expired := timers[..it];
      timers := timers[it..];
      assert expired + timers == old(timers);
      TimersSplit(expired, timers);
    }

    // What holds of the timerfd while handleRead is under way.
    ghost predicate ArmedIfOverdue()
      reads this
    {
      timers != [] && timers[0].when <= 0 ==> Armed()
    }

    method Renew(timer: Timer, now: int)
      requires Entries() && timer !in Timers() && ArmedIfOverdue() && now > 0
      modifies `timers, timer`expiration
      ensures Entries() && ArmedIfOverdue()
      ensures Timers() == old(Timers()) + if timer.repeat then {timer} else {}
      ensures timer.repeat ==> timer.expiration == AddTime(now, timer.interval)
    {
      if timer.repeat {
        timer.Restart(now);
        var _, _ := Insert(timer);
      }
    }

    method Rearm(clock: int)
      requires Entries() && ArmedIfOverdue()
      modifies `alarm, `armedAt
      ensures Valid()
    {
      var nextExpire := 0;
      if timers != [] {
        nextExpire := timers[0].timer.expiration;
      }
      if nextExpire > 0 {
        SetTimerfd(nextExpire, clock);
      }
    }

    // The expired timers that repeat go back, restarted; the others are gone.
    method Reset(expired: seq<Entry>, now: int, clock: int)
      requires Entries() && now > 0
      requires Distinct(expired)
      requires Timers() !! TimersOf(expired)
      requires ArmedIfOverdue()
      modifies `timers, `alarm, `armedAt, TimersOf(expired)
      ensures Valid()
      ensures Timers() == old(Timers()) + Repeating(expired)
      ensures forall t | t in Repeating(expired) :: t.expiration == AddTime(now, t.interval)
    {
      hide Distinct, TimersOf, Entries, ArmedIfOverdue, Repeating;
      TimersAllocated(expired);
      assert expired[..0] == [] && expired[0..] == expired && Repeating([]) == {} by { NoneRepeating(); }
      for i := 0 to |expired|
        invariant Entries()
        invariant TimersOf(expired[i..]) !! Timers() && Repeating(expired[..i]) <= TimersOf(expired)
        invariant Timers() == old(Timers()) + Repeating(expired[..i])
        invariant forall t | t in Repeating(expired[..i]) :: t.expiration == AddTime(now, t.interval)
        invariant ArmedIfOverdue()
      {
        TimersStep(expired, i);
        Renew(expired[i].timer, now);
      }
      assert expired[..|expired|] == expired;
      Rearm(clock);
    }

    // A callback, which adds timers.
    method RunTimer(timer: Timer, adds: seq<Addition>, ghost others: set<Timer>) returns (added: seq<Timer>)
      requires Entries() && ArmedIfOverdue()
      modifies `timers, `alarm, `armedAt, `ran
      ensures Entries() && ArmedIfOverdue() && ran == old(ran) + [timer]
      ensures Fulfils(added, adds) && NoRepeats(added) && Timers() == old(Timers()) + Elements(added)
      ensures forall t | t in added :: fresh(t) && t !in others
    {
      ran := ran + [timer];
      added := [];
      for i := 0 to |adds|
        invariant Entries() && ArmedIfOverdue() && ran == old(ran) + [timer]
        invariant Fulfils(added, adds[..i]) && NoRepeats(added) && Timers() == old(Timers()) + Elements(added)
        invariant forall t | t in added :: fresh(t) && t !in others
      {
        var t := AddTimer(adds[i].when, adds[i].interval, adds[i].clock);
        FulfilsAppend(added, [t], adds[..i], [adds[i]]);
        assert adds[..i + 1] == adds[..i] + [adds[i]];
        added := added + [t];
      }
      assert adds[..|adds|] == adds;
    }

    // adds: what the callback of each timer adds.
    method RunAll(expired: seq<Entry>, adds: Timer -> seq<Addition>) returns (added: seq<Timer>)
      requires Entries() && ArmedIfOverdue()
      modifies `timers, `alarm, `armedAt, `ran
      ensures Entries() && ArmedIfOverdue() && ran == old(ran) + TimersIn(expired)
      ensures Fulfils(added, AllAdds(TimersIn(expired), adds)) && NoRepeats(added)
      ensures Timers() == old(Timers()) + Elements(added)
      ensures Elements(added) !! TimersOf(expired) && forall t | t in added :: fresh(t) && t !in TimersOf(expired)
    {
      hide TimersOf, Entries, ArmedIfOverdue, AllAdds, TimersIn, Fulfils, NoRepeats, Elements;
      NothingAdded(adds);
      added := [];
      for i := 0 to |expired|
        invariant Entries() && ArmedIfOverdue()
        invariant ran == old(ran) + TimersIn(expired[..i])
        invariant Fulfils(added, AllAdds(TimersIn(expired[..i]), adds)) && NoRepeats(added)
        invariant Timers() == old(Timers()) + Elements(added)
        invariant forall t | t in added :: fresh(t) && t !in TimersOf(expired)
      {
        var t := expired[i].timer;
        var more := RunTimer(t, adds(t), TimersOf(expired) + Elements(added));
        FulfilsAppend(added, more, AllAdds(TimersIn(expired[..i]), adds), adds(t));
        TimersInPush(expired[..i], expired[i]);
        AllAddsPush(TimersIn(expired[..i]), t, adds);
        assert expired[..i + 1] == expired[..i] + [expired[i]];
        added := added + more;
      }
      assert expired[..|expired|] == expired;
      ElementsApart(added, TimersOf(expired));
    }

    lemma {:induction false} NothingAdded(adds: Timer -> seq<Addition>)
      ensures TimersIn([]) == [] && AllAdds([], adds) == [] && Fulfils([], []) && NoRepeats<Timer>([]) && Elements([]) == {}
    {}

    method HandleRead(now: int, adds: Timer -> seq<Addition>, clock: int)
      returns (ghost due: nat, ghost added: seq<Timer>)
      requires Valid() && now > 0
      modifies this, TimersOf(timers)
      ensures Valid()
      ensures SplitsAt(old(timers), due, now)
      ensures ran == old(ran) + TimersIn(old(timers)[..due])
      ensures Timers() == TimersOf(old(timers)[due..]) + Repeating(old(timers)[..due]) + Elements(added)
      ensures Current(old(timers)[due..])
      ensures forall t | t in Repeating(old(timers)[..due]) :: t.expiration == AddTime(now, t.interval)
      ensures Fulfils(added, AllAdds(TimersIn(old(timers)[..due]), adds)) && NoRepeats(added)
      ensures forall t | t in added :: fresh(t)
    {
      hide SplitsAt, TimersIn, Distinct, TimersOf, Repeating, Entries, ArmedIfOverdue, Armed, AllAdds, Fulfils, NoRepeats, Elements, Current;
      ReadTimerfd(now);
      var expired := GetExpired(now);
      due := |expired|;
      ghost var rest := timers;
      TimersAllocated(expired);
      TimersAllocated(rest);
      added := RunAll(expired, adds);
      RestApart(rest, expired);
      Reset(expired, now, clock);
    }
  }
}
