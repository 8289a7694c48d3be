/**
 * The reusable barrier of sem_problem.c, for any number of producers: each arrives and waits; the last arrival
 * posts the semaphore; the consumer then resets the count and wakes everyone.
 *
 * A thread's step is what it does between two points where another thread may run. Waiting on the condition
 * variable releases the mutex and joins the waiting threads in one step; a woken thread takes the mutex back in
 * another. A waiting thread is woken by a broadcast or, in the event Spurious, by nothing at all.
 */
module Barrier {
  import opened Sums

  /** Where a producer stands: in front of the named operation, or asleep on the condition variable. */
  datatype Producer = ToLock | ToCount | ToTest | ToWait | Waiting | Woken | ToUnlock

  datatype Consumer = ToSemWait | ToLockMutex | ToReset | ToBroadcast | ToUnlockMutex

  datatype Owner = Free | ByProducer(i: nat) | ByConsumer

  /** The shared state, with each producer's arrivals and the number of resets so far as history. */
  datatype State = State(
    producers: seq<Producer>, consumer: Consumer, owner: Owner, count: nat, sem: nat,
    arrivals: seq<nat>, resets: nat)

  datatype Event =
    | Lock(i: nat) | Count(i: nat) | Test(i: nat) | Wait(i: nat) | Relock(i: nat) | Unlock(i: nat)
    | SemWait | LockMutex | Reset | Broadcast | UnlockMutex
    | Spurious(i: nat)

  function Init(n: nat): (s: State) {
    State(seq(n, _ => ToLock), ToSemWait, Free, 0, 0, seq(n, _ => 0), 0)
  }

  predicate At(s: State, i: nat, p: Producer) {
    i < |s.producers| && s.producers[i] == p
  }

  predicate Enabled(s: State, e: Event) {
    match e
    case Lock(i) => At(s, i, ToLock) && s.owner == Free
    case Count(i) => At(s, i, ToCount) && i < |s.arrivals|
    case Test(i) => At(s, i, ToTest)
    case Wait(i) => At(s, i, ToWait)
    case Relock(i) => At(s, i, Woken) && s.owner == Free
    case Unlock(i) => At(s, i, ToUnlock)
    case SemWait => s.consumer == ToSemWait && s.sem > 0
    case LockMutex => s.consumer == ToLockMutex && s.owner == Free
    case Reset => s.consumer == ToReset
    case Broadcast => s.consumer == ToBroadcast
    case UnlockMutex => s.consumer == ToUnlockMutex
    case Spurious(i) => At(s, i, Waiting)
  }

  function Move(s: State, i: nat, p: Producer): (r: State)
    requires i < |s.producers|
  {
    s.(producers := s.producers[i := p])
  }

  /** The threshold is the number of producers. */
  function Next(s: State, e: Event): (r: State)
    requires Enabled(s, e)
  {
    match e
    case Lock(i) => Move(s, i, ToCount).(owner := ByProducer(i))
    case Count(i) => Move(s, i, ToTest).(count := s.count + 1, arrivals := s.arrivals[i := s.arrivals[i] + 1])
    case Test(i) => Move(s, i, ToWait).(sem := if s.count == |s.producers| then s.sem + 1 else s.sem)
    case Wait(i) => Move(s, i, Waiting).(owner := Free)
    case Relock(i) => Move(s, i, ToUnlock).(owner := ByProducer(i))
    case Unlock(i) => Move(s, i, ToLock).(owner := Free)
    case SemWait => s.(consumer := ToLockMutex, sem := s.sem - 1)
    case LockMutex => s.(consumer := ToReset, owner := ByConsumer)
    case Reset => s.(consumer := ToBroadcast, count := 0, resets := s.resets + 1)
    case Broadcast => s.(consumer := ToUnlockMutex, producers := WakeAll(s.producers))
    case UnlockMutex => s.(consumer := ToSemWait, owner := Free)
    case Spurious(i) => Move(s, i, Woken)
  }

  function Wake(p: Producer): Producer {
    if p == Waiting then Woken else p
  }

  function WakeAll(ps: seq<Producer>): (r: seq<Producer>)
    ensures |r| == |ps| && forall k :: 0 <= k < |ps| ==> r[k] == Wake(ps[k])
  {
    seq(|ps|, k requires 0 <= k < |ps| => Wake(ps[k]))
  }

  /** The events can happen one after the other from `s`, and end in `r`. */
  ghost predicate Run(s: State, es: seq<Event>, r: State)
    decreases |es|
  {
    if es == [] then s == r
    else Enabled(s, es[0]) && Run(Next(s, es[0]), es[1..], r)
  }

  /** The wakeups in a list of events that nobody asked for. */
  function Spurs(es: seq<Event>): (k: nat) {
    if es == [] then 0 else (if es[0].Spurious? then 1 else 0) + Spurs(es[1..])
  }

  // ----- what the threads do -----

  /** The thread that performs an event; a spurious wakeup is nobody's. */
  function Actor(e: Event): Owner {
    match e
    case Lock(i) => ByProducer(i)
    case Count(i) => ByProducer(i)
    case Test(i) => ByProducer(i)
    case Wait(i) => ByProducer(i)
    case Relock(i) => ByProducer(i)
    case Unlock(i) => ByProducer(i)
    case Spurious(_) => Free
    case _ => ByConsumer
  }

  /** The order of a thread's operations: its loop body, over and over. */
  function After(e: Event): Event {
    match e
    case Lock(i) => Count(i)
    case Count(i) => Test(i)
    case Test(i) => Wait(i)
    case Wait(i) => Relock(i)
    case Relock(i) => Unlock(i)
    case Unlock(i) => Lock(i)
    case SemWait => LockMutex
    case LockMutex => Reset
    case Reset => Broadcast
    case Broadcast => UnlockMutex
    case UnlockMutex => SemWait
    case Spurious(i) => Spurious(i)
  }

  function Own(es: seq<Event>, who: Owner): (own: seq<Event>) {
    if es == [] then [] else (if Actor(es[0]) == who then [es[0]] else []) + Own(es[1..], who)
  }

  /** The events start with `first`, and each is followed by the next operation of its thread. */
  ghost predicate Follows(own: seq<Event>, first: Event) {
    own != [] ==> own[0] == first && Follows(own[1..], After(first))
  }

  function Occurrences(es: seq<Event>, e: Event): (n: nat) {
    if es == [] then 0 else (if es[0] == e then 1 else 0) + Occurrences(es[1..], e)
  }

  /** What an event does to the shared count: one up for an arrival, and nothing left by a reset. */
  function CountAfter(e: Event, c: nat): (n: nat) {
    if e.Count? then c + 1 else if e.Reset? then 0 else c
  }

  function Counted(es: seq<Event>, c: nat): (n: nat) {
    if es == [] then c else Counted(es[1..], CountAfter(es[0], c))
  }

  /** The posts to the semaphore, with the count at `c`: one for each test that finds all `n` producers counted. */
  function Posts(es: seq<Event>, n: nat, c: nat): (k: nat) {
    if es == [] then 0
    else (if es[0].Test? && c == n then 1 else 0) + Posts(es[1..], n, CountAfter(es[0], c))
  }

  /** The operation in front of which a thread stands. */
  function Pending(s: State, who: Owner): Event
    requires who.ByProducer? ==> who.i < |s.producers|
  {
    match who
    case ByProducer(i) => (
      match s.producers[i]
      case ToLock => Lock(i)
      case ToCount => Count(i)
      case ToTest => Test(i)
      case ToWait => Wait(i)
      case Waiting => Relock(i)
      case Woken => Relock(i)
      case ToUnlock => Unlock(i))
    case _ => (
      match s.consumer
      case ToSemWait => SemWait
      case ToLockMutex => LockMutex
      case ToReset => Reset
      case ToBroadcast => Broadcast
      case ToUnlockMutex => UnlockMutex)
  }

  lemma StepPending(s: State, e: Event, who: Owner)
    requires Enabled(s, e) && who != Free && (who.ByProducer? ==> who.i < |s.producers|)
    ensures |Next(s, e).producers| == |s.producers|
    ensures Actor(e) == who ==> e == Pending(s, who) && Pending(Next(s, e), who) == After(e)
    ensures Actor(e) != who ==> Pending(Next(s, e), who) == Pending(s, who)
  {
  }

  lemma {:induction false} RunFollows(s: State, es: seq<Event>, r: State, who: Owner)
    requires Run(s, es, r) && who != Free && (who.ByProducer? ==> who.i < |s.producers|)
    ensures Follows(Own(es, who), Pending(s, who))
    decreases |es|
  {
    if es != [] {
      StepPending(s, es[0], who);
      RunFollows(Next(s, es[0]), es[1..], r, who);
      if Actor(es[0]) == who {
        assert Own(es, who)[1..] == Own(es[1..], who);
      } else {
        assert Own(es, who) == Own(es[1..], who);
      }
    }
  }

  lemma {:induction false} RunHistory(s: State, es: seq<Event>, r: State)
    requires Run(s, es, r)
    ensures |r.arrivals| == |s.arrivals| && r.resets == s.resets + Occurrences(es, Reset)
    ensures forall i :: 0 <= i < |s.arrivals| ==> r.arrivals[i] == s.arrivals[i] + Occurrences(es, Count(i))
    ensures r.count == Counted(es, s.count)
    ensures r.sem + Occurrences(es, SemWait) == s.sem + Posts(es, |s.producers|, s.count)
    decreases |es|
  {
    if es != [] {
      RunHistory(Next(s, es[0]), es[1..], r);
    }
  }

  /**
   * In every run, spurious wakeups included: each producer locks, counts, tests, waits, locks again and unlocks, in
   * this order, over and over; the consumer too keeps to its loop; and the count, the semaphore and the histories are
   * what the events make of them.
   */
  lemma ProgramOrder(n: nat, es: seq<Event>, s: State)
    requires Run(Init(n), es, s)
    ensures forall i :: 0 <= i < n ==> Follows(Own(es, ByProducer(i)), Lock(i))
    ensures Follows(Own(es, ByConsumer), SemWait)
    ensures |s.arrivals| == n && forall i :: 0 <= i < n ==> s.arrivals[i] == Occurrences(es, Count(i))
    ensures s.resets == Occurrences(es, Reset)
    ensures s.count == Counted(es, 0) && s.sem + Occurrences(es, SemWait) == Posts(es, n, 0)
  {
    RunHistory(Init(n), es, s);
    RunFollows(Init(n), es, s, ByConsumer);
    forall i | 0 <= i < n ensures Follows(Own(es, ByProducer(i)), Lock(i)) {
      RunFollows(Init(n), es, s, ByProducer(i));
    }
  }

  // ----- safety without spurious wakeups -----

  predicate Holds(p: Producer) {
    p == ToCount || p == ToTest || p == ToWait || p == ToUnlock
  }

  predicate ConsumerHolds(c: Consumer) {
    c == ToReset || c == ToBroadcast || c == ToUnlockMutex
  }

  /** A producer has arrived in the present round. */
  predicate Arrived(p: Producer) {
    p == ToTest || p == ToWait || p == Waiting
  }

  function ArrivedBit(p: Producer): int {
    if Arrived(p) then 1 else 0
  }

  ghost predicate MutexInv(s: State) {
    && (s.owner.ByProducer? ==> s.owner.i < |s.producers|)
    && (forall i :: 0 <= i < |s.producers| ==> (Holds(s.producers[i]) <==> s.owner == ByProducer(i)))
    && (ConsumerHolds(s.consumer) <==> s.owner == ByConsumer)
  }

  /** An arrival that has not yet tested the count. */
  predicate TestPending(s: State) {
    s.owner.ByProducer? && At(s, s.owner.i, ToTest)
  }

  /** The semaphore, or the consumer on its way to the reset, carries the signal of a complete round. */
  ghost predicate SignalInv(s: State) {
    s.sem + (if s.consumer == ToLockMutex || s.consumer == ToReset then 1 else 0)
    == if s.count == |s.producers| && !TestPending(s) then 1 else 0
  }

  ghost predicate RoundInv(s: State) {
    && |s.arrivals| == |s.producers|
    && (if s.consumer == ToBroadcast then
          s.count == 0 && forall i :: 0 <= i < |s.producers| ==> s.producers[i] == Waiting && s.arrivals[i] == s.resets
        else
          && s.count == Total(ArrivedBit, s.producers)
          && forall i :: 0 <= i < |s.producers| ==> s.arrivals[i] == s.resets + ArrivedBit(s.producers[i]))
  }

  ghost predicate Inv(s: State) {
    |s.producers| > 0 && MutexInv(s) && SignalInv(s) && RoundInv(s)
  }

  lemma {:induction false} InitTotal<T>(f: T -> int, x: T, n: nat)
    ensures Total(f, seq(n, _ => x)) == n * f(x)
  {
    TotalAtMost(f, seq(n, _ => x), f(x));
    TotalAtLeast(f, seq(n, _ => x), f(x));
  }

  lemma InitInv(n: nat)
    requires n > 0
    ensures Inv(Init(n))
  {
    InitTotal(ArrivedBit, ToLock, n);
  }

  /** A full count means that every producer has arrived. */
  lemma AllArrived(s: State)
    requires RoundInv(s) && s.consumer != ToBroadcast && s.count == |s.producers|
    ensures forall i :: 0 <= i < |s.producers| ==> Arrived(s.producers[i])
  {
    forall i | 0 <= i < |s.producers| ensures Arrived(s.producers[i]) {
      TotalFull(ArrivedBit, s.producers, 1, i);
    }
  }

  lemma ProducerStepInv(s: State, e: Event)
    requires Inv(s) && Enabled(s, e)
    requires e.Lock? || e.Count? || e.Test? || e.Wait? || e.Relock? || e.Unlock?
    ensures Inv(Next(s, e))
  {
    var r := Next(s, e);
    TotalUpdate(ArrivedBit, s.producers, e.i, r.producers[e.i]);
    TotalAtMost(ArrivedBit, r.producers, 1);
  }

  lemma ConsumerStepInv(s: State, e: Event)
    requires Inv(s) && Enabled(s, e)
    requires e.SemWait? || e.LockMutex? || e.Reset? || e.Broadcast? || e.UnlockMutex?
    ensures Inv(Next(s, e))
  {
    if e.Reset? {
      AllArrived(s);
    } else if e.Broadcast? {
      var r := Next(s, e);
      TotalAtMost(ArrivedBit, r.producers, 0);
      TotalAtLeast(ArrivedBit, r.producers, 0);
    }
  }

  lemma StepInv(s: State, e: Event)
    requires Inv(s) && Enabled(s, e) && !e.Spurious?
    ensures Inv(Next(s, e)) && |Next(s, e).producers| == |s.producers|
  {
    if e.SemWait? || e.LockMutex? || e.Reset? || e.Broadcast? || e.UnlockMutex? {
      ConsumerStepInv(s, e);
    } else {
      ProducerStepInv(s, e);
    }
  }

  lemma {:induction false} RunInv(s: State, es: seq<Event>, r: State)
    requires Inv(s) && Run(s, es, r) && Spurs(es) == 0
    ensures Inv(r) && |r.producers| == |s.producers|
    decreases |es|
  {
    if es != [] {
      StepInv(s, es[0]);
      RunInv(Next(s, es[0]), es[1..], r);
    }
  }

  /** Without spurious wakeups: at every reset of the count everyone waits, having arrived once per round. */
  lemma ResetFindsEveryoneWaiting(n: nat, es: seq<Event>, s: State)
    requires n > 0 && Run(Init(n), es, s) && Spurs(es) == 0 && Enabled(s, Reset)
    ensures |s.producers| == |s.arrivals| == n && s.count == n
    ensures forall i :: 0 <= i < n ==> s.producers[i] == Waiting && s.arrivals[i] == s.resets + 1
  {
    InitInv(n);
    RunInv(Init(n), es, s);
    AllArrived(s);
  }

  /** Nobody has arrived twice more than anybody else. */
  ghost predicate InStep(s: State) {
    && |s.arrivals| == |s.producers|
    && forall i, j :: 0 <= i < |s.arrivals| && 0 <= j < |s.arrivals| ==> s.arrivals[i] <= s.arrivals[j] + 1
  }

  /** In every such run: nobody is a round ahead, the semaphore is binary, and one thread at a time holds the mutex. */
  lemma BarrierSafety(n: nat, es: seq<Event>, s: State)
    requires n > 0 && Run(Init(n), es, s) && Spurs(es) == 0
    ensures |s.producers| == n && s.sem <= 1 && s.count <= n && InStep(s)
    ensures forall i, j :: 0 <= i < j < n ==> !(Holds(s.producers[i]) && Holds(s.producers[j]))
    ensures forall i :: 0 <= i < n ==> !(Holds(s.producers[i]) && ConsumerHolds(s.consumer))
  {
    InitInv(n);
    RunInv(Init(n), es, s);
    TotalAtMost(ArrivedBit, s.producers, 1);
  }

  // ----- progress -----

  /** Steps a producer still takes before it waits. */
  function Rank(p: Producer): int {
    match p
    case Woken => 6
    case ToUnlock => 5
    case ToLock => 4
    case ToCount => 3
    case ToTest => 2
    case ToWait => 1
    case Waiting => 0
  }

  /** Steps the consumer still takes before the reset; its broadcast sets every producer going. */
  function ConsumerRank(c: Consumer, n: nat): int {
    match c
    case ToBroadcast => 4 + 6 * n
    case ToUnlockMutex => 3
    case ToSemWait => 2
    case ToLockMutex => 1
    case ToReset => 0
  }

  ghost function Measure(s: State): (m: int) {
    Total(Rank, s.producers) + ConsumerRank(s.consumer, |s.producers|)
  }

  /** Between two resets every step brings the next reset closer. */
  lemma MeasureDecreases(s: State, e: Event)
    requires Inv(s) && Enabled(s, e) && !e.Reset? && !e.Spurious?
    ensures 0 <= Measure(Next(s, e)) < Measure(s)
  {
    TotalAtLeast(Rank, Next(s, e).producers, 0);
    if e.Broadcast? {
      BroadcastDecreases(s);
    } else if !(e.SemWait? || e.LockMutex? || e.UnlockMutex?) {
      ProducerDecreases(s, e);
    }
  }

  lemma BroadcastDecreases(s: State)
    requires Enabled(s, Broadcast)
    ensures Measure(Next(s, Broadcast)) < Measure(s)
  {
    var r := Next(s, Broadcast);
    TotalAtLeast(Rank, s.producers, 0);
    TotalAtMost(Rank, r.producers, 6);
  }

  lemma ProducerDecreases(s: State, e: Event)
    requires Enabled(s, e) && (e.Lock? || e.Count? || e.Test? || e.Wait? || e.Relock? || e.Unlock?)
    ensures Measure(Next(s, e)) < Measure(s)
  {
    TotalUpdate(Rank, s.producers, e.i, Next(s, e).producers[e.i]);
  }

  /** Every reachable state has a step that needs no spurious wakeup. */
  lemma NoDeadlock(s: State) returns (e: Event)
    requires Inv(s)
    ensures Enabled(s, e) && !e.Spurious?
  {
    match s.owner
    case ByProducer(i) =>
      e := match s.producers[i]
           case ToCount => Count(i)
           case ToTest => Test(i)
           case ToWait => Wait(i)
           case _ => Unlock(i);
    case ByConsumer =>
      e := if s.consumer == ToReset then Reset else if s.consumer == ToBroadcast then Broadcast else UnlockMutex;
    case Free =>
      if i: nat :| At(s, i, ToLock) {
        e := Lock(i);
      } else if i: nat :| At(s, i, Woken) {
        e := Relock(i);
      } else {
        forall i: nat | i < |s.producers| ensures s.producers[i] == Waiting {
          assert !At(s, i, ToLock) && !At(s, i, Woken) && !Holds(s.producers[i]);
        }
        TotalAtLeast(ArrivedBit, s.producers, 1);
        TotalAtMost(ArrivedBit, s.producers, 1);
        e := if s.consumer == ToLockMutex then LockMutex else SemWait;
      }
  }

  /** A round costs at most this many steps. */
  function RoundSteps(n: nat): nat {
    6 * n + 5
  }

  lemma OneMore(k: nat, n: nat)
    ensures (k + 1) * n == k * n + n
  {
  }

  lemma {:induction false} RunCost(s: State, es: seq<Event>, r: State)
    requires Inv(s) && Run(s, es, r) && Spurs(es) == 0
    ensures |es| + s.resets * RoundSteps(|s.producers|) + Measure(r)
            <= r.resets * RoundSteps(|s.producers|) + Measure(s)
    decreases |es|
  {
    if es != [] {
      var e, t := es[0], Next(s, es[0]);
      StepInv(s, e);
      RunCost(t, es[1..], r);
      if e.Reset? {
        TotalAtLeast(Rank, s.producers, 0);
        OneMore(s.resets, RoundSteps(|s.producers|));
      } else {
        MeasureDecreases(s, e);
      }
    }
  }

  /**
   * The barrier is reusable forever: any run from the start without spurious wakeups, however scheduled, completes
   * rounds at a fixed rate and can go on.
   */
  lemma RoundsKeepComing(n: nat, es: seq<Event>, s: State)
    requires n > 0 && Run(Init(n), es, s) && Spurs(es) == 0
    ensures |es| <= s.resets * RoundSteps(n) + 4 * n + 2
    ensures exists e :: Enabled(s, e) && !e.Spurious?
  {
    InitInv(n);
    RunInv(Init(n), es, s);
    RunCost(Init(n), es, s);
    InitTotal(Rank, ToLock, n);
    TotalAtLeast(Rank, s.producers, 0);
    var e := NoDeadlock(s);
  }

  // ----- the bare wait -----

  lemma RunCons(s: State, e: Event, es: seq<Event>, r: State)
    requires Enabled(s, e) && Run(Next(s, e), es, r)
    ensures Run(s, [e] + es, r) && Spurs([e] + es) == Spurs([e]) + Spurs(es)
  {
    assert ([e] + es)[1..] == es;
  }

  lemma {:induction false} RunAppend(s: State, es: seq<Event>, r: State, fs: seq<Event>, t: State)
    requires Run(s, es, r) && Run(r, fs, t)
    ensures Run(s, es + fs, t) && Spurs(es + fs) == Spurs(es) + Spurs(fs)
    decreases |es|
  {
    if es == [] {
      assert es + fs == fs;
    } else {
      assert (es + fs)[1..] == es[1..] + fs;
      RunAppend(Next(s, es[0]), es[1..], r, fs, t);
    }
  }

  /** The state after producer `i`, alone, has gone from the mutex to the wait. */
  function Arrive(s: State, i: nat): (r: State)
    requires i < |s.producers| == |s.arrivals|
  {
    s.(producers := s.producers[i := Waiting],
       count := s.count + 1,
       arrivals := s.arrivals[i := s.arrivals[i] + 1],
       sem := if s.count + 1 == |s.producers| then s.sem + 1 else s.sem)
  }

  lemma ArriveAlone(s: State, i: nat) returns (es: seq<Event>)
    requires At(s, i, ToLock) && s.owner == Free && |s.arrivals| == |s.producers|
    ensures Run(s, es, Arrive(s, i)) && Spurs(es) == 0
  {
    var s1 := Next(s, Lock(i));
    var s2 := Next(s1, Count(i));
    var s3 := Next(s2, Test(i));
    var s4 := Next(s3, Wait(i));
    assert s4.producers == s.producers[i := Waiting];
    RunCons(s3, Wait(i), [], s4);
    RunCons(s2, Test(i), [Wait(i)] + [], s4);
    RunCons(s1, Count(i), [Test(i)] + ([Wait(i)] + []), s4);
    es := [Count(i)] + ([Test(i)] + ([Wait(i)] + []));
    RunCons(s, Lock(i), es, s4);
    es := [Lock(i)] + es;
    assert s4 == Arrive(s, i);
  }

  /** Producers `i` up to `k` arrive one after the other. */
  lemma {:induction false} ArriveInTurn(s: State, i: nat, k: nat) returns (es: seq<Event>, r: State)
    requires i <= k <= |s.producers| == |s.arrivals| && s.owner == Free
    requires forall j :: i <= j < k ==> s.producers[j] == ToLock
    requires i < k ==> s.sem == 0 && s.count + (k - i) <= |s.producers|
    ensures Run(s, es, r) && Spurs(es) == 0
    ensures i == k ==> r == s
    ensures r.owner == Free && r.consumer == s.consumer && |r.producers| == |r.arrivals| == |s.producers|
    ensures forall j :: 0 <= j < i || k <= j < |s.producers| ==>
                          r.producers[j] == s.producers[j] && r.arrivals[j] == s.arrivals[j]
    ensures r.count == s.count + (k - i)
    ensures i < k && r.count == |r.producers| ==> r.sem == 1
    decreases k - i
  {
    if i == k {
      es, r := [], s;
    } else {
      var first := ArriveAlone(s, i);
      var t := Arrive(s, i);
      if i + 1 == k {
        es, r := first, t;
      } else {
        var rest;
        rest, r := ArriveInTurn(t, i + 1, k);
        RunAppend(s, first, t, rest, r);
        es := first + rest;
      }
    }
  }

  /** A sleeping producer is woken by nothing and arrives again. */
  lemma ArriveAgain(s: State, i: nat) returns (es: seq<Event>)
    requires At(s, i, Waiting) && s.owner == Free && |s.arrivals| == |s.producers|
    ensures Run(s, es, Arrive(s, i)) && Spurs(es) == 1
  {
    var s1 := Next(s, Spurious(i));
    var s2 := Next(s1, Relock(i));
    var s3 := Next(s2, Unlock(i));
    es := ArriveAlone(s3, i);
    var r := Arrive(s3, i);
    assert r.producers == Arrive(s, i).producers;
    RunCons(s2, Unlock(i), es, r);
    es := [Unlock(i)] + es;
    RunCons(s1, Relock(i), es, r);
    es := [Relock(i)] + es;
    RunCons(s, Spurious(i), es, r);
    es := [Spurious(i)] + es;
  }

  /** The signal of a full count takes the consumer to the reset. */
  lemma ConsumerFollows(s: State) returns (es: seq<Event>, r: State)
    requires s.consumer == ToSemWait && s.sem > 0 && s.owner == Free
    ensures Run(s, es, r) && Spurs(es) == 0 && Enabled(r, Reset)
    ensures r.producers == s.producers && r.arrivals == s.arrivals
  {
    var t := Next(s, SemWait);
    r := Next(t, LockMutex);
    RunCons(t, LockMutex, [], r);
    RunCons(s, SemWait, [LockMutex] + [], r);
    es := [SemWait] + ([LockMutex] + []);
  }

  lemma ArriveTwice(n: nat) returns (es: seq<Event>, s: State)
    requires n >= 2
    ensures Run(Init(n), es, s) && Spurs(es) == 1
    ensures s == Arrive(Arrive(Init(n), 0), 0)
  {
    var once := Arrive(Init(n), 0);
    s := Arrive(once, 0);
    es := ArriveAlone(Init(n), 0);
    var again := ArriveAgain(once, 0);
    RunAppend(Init(n), es, once, again, s);
    es := es + again;
  }

  /**
   * For any number of producers beyond one, a single spurious wakeup is enough for a round to end although one
   * producer never arrived: another's second arrival is taken for it.
   */
  lemma SpuriousWakeupBreaksRound(n: nat) returns (es: seq<Event>, s: State)
    requires n >= 2
    ensures Run(Init(n), es, s) && Spurs(es) == 1 && Enabled(s, Reset)
    ensures |s.producers| == |s.arrivals| == n
    ensures s.arrivals[0] == 2 && s.arrivals[n - 1] == 0 && s.producers[n - 1] == ToLock
  {
    var twice;
    es, twice := ArriveTwice(n);
    var others, full := ArriveInTurn(twice, 1, n - 1);
    RunAppend(Init(n), es, twice, others, full);
    var consumer;
    consumer, s := ConsumerFollows(full);
    RunAppend(Init(n), es + others, full, consumer, s);
    es := es + others + consumer;
  }

  /** No run with at most `k` spurious wakeups lets a producer get two arrivals ahead. */
  ghost predicate AlwaysInStep(n: nat, k: nat) {
    forall es, s :: Run(Init(n), es, s) && Spurs(es) <= k ==> InStep(s)
  }

  /** With more than one producer the barrier keeps its producers in step exactly if no wakeup is spurious. */
  lemma InStepWithoutSpurs(n: nat, k: nat)
    requires n >= 2
    ensures AlwaysInStep(n, k) <==> k == 0
  {
    if k == 0 {
      forall es, s | Run(Init(n), es, s) && Spurs(es) <= k ensures InStep(s) {
        BarrierSafety(n, es, s);
      }
    } else {
      var es, s := SpuriousWakeupBreaksRound(n);
      assert !InStep(s);
    }
  }
}
