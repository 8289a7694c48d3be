/**
 * The producers and consumers of prod_consumer.c, for any number of threads, any number of rounds per thread and
 * any initial semaphore values: a semaphore wait, the mutex around one buffer access, and a post of the other
 * semaphore.
 */
module ProducerConsumer {
  import opened Sums

  /** The coded initial values. */
  const BUF_LEN := 5
  const INITIAL_FULL := 1

  datatype Pc = ToSemWait | ToLock | ToAccess | ToUnlock | ToPost

  /** A thread and the rounds it has not begun. */
  datatype Worker = Worker(pc: Pc, left: nat)

  datatype Side = Producing | Consuming

  datatype Owner = Free | By(side: Side, i: nat)

  /** The shared state; the rounds begun and ended on either side are history. */
  datatype State = State(
    producers: seq<Worker>, consumers: seq<Worker>, owner: Owner, full: nat, empty: nat,
    productionsBegun: nat, productionsEnded: nat, consumptionsBegun: nat, consumptionsEnded: nat)

  datatype Op = SemWait | Lock | Access | Unlock | Post

  /** One thread performs one operation of its loop body. */
  datatype Event = Step(op: Op, side: Side, i: nat)

  function Init(full: nat, empty: nat, rounds: seq<nat>, demands: seq<nat>): State {
    State(Workers(rounds), Workers(demands), Free, full, empty, 0, 0, 0, 0)
  }

  function Workers(rounds: seq<nat>): (ws: seq<Worker>)
    ensures |ws| == |rounds|
  {
    if rounds == [] then [] else [Worker(ToSemWait, rounds[0])] + Workers(rounds[1..])
  }

  function Threads(s: State, side: Side): seq<Worker> {
    if side == Producing then s.producers else s.consumers
  }

  /** The semaphore a side waits on. */
  function Sem(s: State, side: Side): nat {
    if side == Producing then s.empty else s.full
  }

  /** The operation in front of which a thread stands. */
  function Pending(w: Worker): Op {
    match w.pc
    case ToSemWait => SemWait
    case ToLock => Lock
    case ToAccess => Access
    case ToUnlock => Unlock
    case ToPost => Post
  }

  predicate Enabled(s: State, e: Event) {
    && e.i < |Threads(s, e.side)|
    && var w := Threads(s, e.side)[e.i];
       && Pending(w) == e.op
       && (e.op == SemWait ==> w.left > 0 && Sem(s, e.side) > 0)
       && (e.op == Lock ==> s.owner == Free)
  }

  function SetThread(s: State, e: Event, w: Worker): (r: State)
    requires e.i < |Threads(s, e.side)|
  {
    if e.side == Producing then s.(producers := s.producers[e.i := w]) else s.(consumers := s.consumers[e.i := w])
  }

  function Begin(s: State, side: Side): State
    requires Sem(s, side) > 0
  {
    if side == Producing then s.(empty := s.empty - 1, productionsBegun := s.productionsBegun + 1)
    else s.(full := s.full - 1, consumptionsBegun := s.consumptionsBegun + 1)
  }

  /** A side posts the semaphore the other waits on. */
  function End(s: State, side: Side): State {
    if side == Producing then s.(full := s.full + 1, productionsEnded := s.productionsEnded + 1)
    else s.(empty := s.empty + 1, consumptionsEnded := s.consumptionsEnded + 1)
  }

  function Next(s: State, e: Event): (r: State)
    requires Enabled(s, e)
  {
    var w := Threads(s, e.side)[e.i];
    match e.op
    case SemWait => SetThread(Begin(s, e.side), e, Worker(ToLock, w.left - 1))
    case Lock => SetThread(s, e, w.(pc := ToAccess)).(owner := By(e.side, e.i))
    case Access => SetThread(s, e, w.(pc := ToUnlock))
    case Unlock => SetThread(s, e, w.(pc := ToPost)).(owner := Free)
    case Post => SetThread(End(s, e.side), e, w.(pc := ToSemWait))
  }

  ghost predicate Run(s: State, es: seq<Event>, r: State)
    decreases |es|
  {
    if es == [] then s == r
    else Enabled(s, es[0]) && Run(Next(s, es[0]), es[1..], r)
  }

  // ----- what the threads do -----

  /** The order of the operations: the loop body, over and over. */
  function After(op: Op): Op {
    match op
    case SemWait => Lock
    case Lock => Access
    case Access => Unlock
    case Unlock => Post
    case Post => SemWait
  }

  /** The operations of one thread. */
  function Own(es: seq<Event>, side: Side, i: nat): (ops: seq<Op>) {
    if es == [] then []
    else (if es[0].side == side && es[0].i == i then [es[0].op] else []) + Own(es[1..], side, i)
  }

  /** The operations start with `first`, and each is followed by the next one of the loop. */
  ghost predicate Follows(ops: seq<Op>, first: Op) {
    ops != [] ==> ops[0] == first && Follows(ops[1..], After(first))
  }

  /** How often an operation has been performed on a side. */
  function Performed(es: seq<Event>, op: Op, side: Side): (n: nat) {
    if es == [] then 0 else (if es[0].op == op && es[0].side == side then 1 else 0) + Performed(es[1..], op, side)
  }

  function Times(ops: seq<Op>, op: Op): (n: nat) {
    if ops == [] then 0 else (if ops[0] == op then 1 else 0) + Times(ops[1..], op)
  }

  lemma StepOwn(s: State, e: Event, side: Side, i: nat)
    requires Enabled(s, e) && i < |Threads(s, side)|
    ensures i < |Threads(Next(s, e), side)|
    ensures var w, v := Threads(s, side)[i], Threads(Next(s, e), side)[i];
            if e.side == side && e.i == i then
              && e.op == Pending(w) && Pending(v) == After(e.op)
              && v.left == w.left - if e.op == SemWait then 1 else 0
            else v == w
  {
  }

  lemma {:induction false} RunOwn(s: State, es: seq<Event>, r: State, side: Side, i: nat)
    requires Run(s, es, r) && i < |Threads(s, side)|
    ensures Follows(Own(es, side, i), Pending(Threads(s, side)[i]))
    ensures i < |Threads(r, side)|
    ensures Times(Own(es, side, i), SemWait) + Threads(r, side)[i].left == Threads(s, side)[i].left
    decreases |es|
  {
    if es != [] {
      StepOwn(s, es[0], side, i);
      RunOwn(Next(s, es[0]), es[1..], r, side, i);
      if es[0].side == side && es[0].i == i {
        assert Own(es, side, i)[1..] == Own(es[1..], side, i);
      } else {
        assert Own(es, side, i) == Own(es[1..], side, i);
      }
    }
  }

  lemma {:induction false} RunHistory(s: State, es: seq<Event>, r: State)
    requires Run(s, es, r)
    ensures r.empty - s.empty == Performed(es, Post, Consuming) - Performed(es, SemWait, Producing)
    ensures r.full - s.full == Performed(es, Post, Producing) - Performed(es, SemWait, Consuming)
    ensures r.productionsBegun == s.productionsBegun + Performed(es, SemWait, Producing)
    ensures r.productionsEnded == s.productionsEnded + Performed(es, Post, Producing)
    ensures r.consumptionsBegun == s.consumptionsBegun + Performed(es, SemWait, Consuming)
    ensures r.consumptionsEnded == s.consumptionsEnded + Performed(es, Post, Consuming)
    decreases |es|
  {
    if es != [] {
      RunHistory(Next(s, es[0]), es[1..], r);
    }
  }

  lemma {:induction false} WorkerAt(rounds: seq<nat>, i: nat)
    requires i < |rounds|
    ensures Workers(rounds)[i] == Worker(ToSemWait, rounds[i])
  {
    if i > 0 {
      WorkerAt(rounds[1..], i - 1);
    }
  }

  /**
   * In every run: each thread waits on its semaphore, locks, accesses, unlocks and posts, in this order, over and
   * over, and begins no more rounds than it has; each semaphore is its initial value, the posts of one side more and
   * the waits of the other less.
   */
  lemma ProgramOrder(full: nat, empty: nat, rounds: seq<nat>, demands: seq<nat>, es: seq<Event>, s: State)
    requires Run(Init(full, empty, rounds, demands), es, s)
    ensures forall i :: 0 <= i < |rounds| ==>
                          Follows(Own(es, Producing, i), SemWait) && Times(Own(es, Producing, i), SemWait) <= rounds[i]
    ensures forall i :: 0 <= i < |demands| ==>
                          Follows(Own(es, Consuming, i), SemWait) && Times(Own(es, Consuming, i), SemWait) <= demands[i]
    ensures s.full == full + Performed(es, Post, Producing) - Performed(es, SemWait, Consuming)
    ensures s.empty == empty + Performed(es, Post, Consuming) - Performed(es, SemWait, Producing)
  {
    var init := Init(full, empty, rounds, demands);
    RunHistory(init, es, s);
    forall i | 0 <= i < |rounds|
      ensures Follows(Own(es, Producing, i), SemWait) && Times(Own(es, Producing, i), SemWait) <= rounds[i]
    {
      WorkerAt(rounds, i);
      RunOwn(init, es, s, Producing, i);
    }
    forall i | 0 <= i < |demands|
      ensures Follows(Own(es, Consuming, i), SemWait) && Times(Own(es, Consuming, i), SemWait) <= demands[i]
    {
      WorkerAt(demands, i);
      RunOwn(init, es, s, Consuming, i);
    }
  }

  // ----- conservation and exclusion -----

  /** Between its wait and its post. */
  function Busy(w: Worker): int {
    if w.pc == ToSemWait then 0 else 1
  }

  function Left(w: Worker): int {
    w.left
  }

  predicate Holds(w: Worker) {
    w.pc == ToAccess || w.pc == ToUnlock
  }

  ghost function Sum(rounds: seq<nat>): (t: nat) {
    if rounds == [] then 0 else rounds[0] + Sum(rounds[1..])
  }

  /** What the whole run is about: the initial semaphore values and the rounds of either side. */
  datatype Setup = Setup(full: nat, empty: nat, productions: int, consumptions: int)

  ghost predicate CountInv(u: Setup, s: State) {
    && s.empty == u.empty - s.productionsBegun + s.consumptionsEnded
    && s.full == u.full + s.productionsEnded - s.consumptionsBegun
    && s.productionsBegun - s.productionsEnded == Total(Busy, s.producers)
    && s.consumptionsBegun - s.consumptionsEnded == Total(Busy, s.consumers)
    && s.productionsBegun + Total(Left, s.producers) == u.productions
    && s.consumptionsBegun + Total(Left, s.consumers) == u.consumptions
  }

  ghost predicate MutexInv(s: State) {
    && (s.owner.By? ==> s.owner.i < |Threads(s, s.owner.side)|)
    && (forall i :: 0 <= i < |s.producers| ==> (Holds(s.producers[i]) <==> s.owner == By(Producing, i)))
    && (forall i :: 0 <= i < |s.consumers| ==> (Holds(s.consumers[i]) <==> s.owner == By(Consuming, i)))
  }

  lemma {:induction false} WorkersTotal(rounds: seq<nat>)
    ensures Total(Busy, Workers(rounds)) == 0 && Total(Left, Workers(rounds)) == Sum(rounds)
    ensures forall i :: 0 <= i < |rounds| ==> Workers(rounds)[i].pc == ToSemWait
  {
    if rounds != [] {
      WorkersTotal(rounds[1..]);
      assert Workers(rounds)[1..] == Workers(rounds[1..]);
    }
  }

  lemma StepCounts(u: Setup, s: State, e: Event)
    requires CountInv(u, s) && Enabled(s, e)
    ensures CountInv(u, Next(s, e))
  {
    var ws, w := Threads(s, e.side), Threads(Next(s, e), e.side)[e.i];
    TotalUpdate(Busy, ws, e.i, w);
    TotalUpdate(Left, ws, e.i, w);
  }

  lemma StepMutex(s: State, e: Event)
    requires MutexInv(s) && Enabled(s, e)
    ensures MutexInv(Next(s, e))
  {
    assert Holds(Threads(s, e.side)[e.i]) <==> s.owner == By(e.side, e.i);
  }

  lemma {:induction false} RunInv(u: Setup, s: State, es: seq<Event>, r: State)
    requires CountInv(u, s) && MutexInv(s) && Run(s, es, r)
    ensures CountInv(u, r) && MutexInv(r)
    ensures |r.producers| == |s.producers| && |r.consumers| == |s.consumers|
    decreases |es|
  {
    if es != [] {
      StepCounts(u, s, es[0]);
      StepMutex(s, es[0]);
      RunInv(u, Next(s, es[0]), es[1..], r);
    }
  }

  lemma InitInv(full: nat, empty: nat, rounds: seq<nat>, demands: seq<nat>)
    ensures var u, s := Setup(full, empty, Sum(rounds), Sum(demands)), Init(full, empty, rounds, demands);
            CountInv(u, s) && MutexInv(s)
  {
    WorkersTotal(rounds);
    WorkersTotal(demands);
  }

  /**
   * In every run: the semaphores and the threads between their wait and their post add up to the initial values,
   * neither side runs ahead of the other by more than its credit, and one thread at a time is in the buffer.
   */
  lemma Conservation(full: nat, empty: nat, rounds: seq<nat>, demands: seq<nat>, es: seq<Event>, s: State)
    requires Run(Init(full, empty, rounds, demands), es, s)
    ensures s.full + s.empty + Total(Busy, s.producers) + Total(Busy, s.consumers) == full + empty
    ensures s.consumptionsBegun <= s.productionsEnded + full
    ensures s.productionsBegun <= s.consumptionsEnded + empty
    ensures forall d, i, e, j :: 0 <= i < |Threads(s, d)| && 0 <= j < |Threads(s, e)| && (d != e || i != j) ==>
                                   !(Holds(Threads(s, d)[i]) && Holds(Threads(s, e)[j]))
  {
    InitInv(full, empty, rounds, demands);
    RunInv(Setup(full, empty, Sum(rounds), Sum(demands)), Init(full, empty, rounds, demands), es, s);
  }

  // ----- termination and deadlock -----

  function Rank(w: Worker): int {
    5 * w.left +
    match w.pc
    case ToSemWait => 0
    case ToLock => 4
    case ToAccess => 3
    case ToUnlock => 2
    case ToPost => 1
  }

  ghost function Measure(s: State): int {
    Total(Rank, s.producers) + Total(Rank, s.consumers)
  }

  lemma StepCost(s: State, e: Event)
    requires Enabled(s, e)
    ensures Measure(Next(s, e)) == Measure(s) - 1
  {
    TotalUpdate(Rank, Threads(s, e.side), e.i, Threads(Next(s, e), e.side)[e.i]);
  }

  lemma {:induction false} RunCost(s: State, es: seq<Event>, r: State)
    requires Run(s, es, r)
    ensures |es| + Measure(r) == Measure(s)
    decreases |es|
  {
    if es != [] {
      StepCost(s, es[0]);
      RunCost(Next(s, es[0]), es[1..], r);
    }
  }

  lemma {:induction false} WorkersRank(rounds: seq<nat>)
    ensures Total(Rank, Workers(rounds)) == 5 * Sum(rounds)
  {
    if rounds != [] {
      WorkersRank(rounds[1..]);
      assert Workers(rounds)[1..] == Workers(rounds[1..]);
    }
  }

  ghost predicate Stuck(s: State) {
    forall e :: !Enabled(s, e)
  }

  /** Every thread has ended all its rounds. */
  ghost predicate Finished(s: State) {
    && (forall i :: 0 <= i < |s.producers| ==> s.producers[i] == Worker(ToSemWait, 0))
    && (forall i :: 0 <= i < |s.consumers| ==> s.consumers[i] == Worker(ToSemWait, 0))
  }

  /** Whoever holds the mutex, or wants it, or is about to post, keeps the system going. */
  lemma StuckThreadsWait(s: State, side: Side, i: nat)
    requires MutexInv(s) && Stuck(s) && i < |Threads(s, side)|
    ensures Threads(s, side)[i].pc == ToSemWait
    ensures Sem(s, side) > 0 ==> Threads(s, side)[i].left == 0
  {
    assert !Enabled(s, Step(Pending(Threads(s, side)[i]), side, i));
    if s.owner.By? {
      assert Enabled(s, Step(Pending(Threads(s, s.owner.side)[s.owner.i]), s.owner.side, s.owner.i));
      assert false;
    }
  }

  lemma StuckSide(s: State, side: Side)
    requires MutexInv(s) && Stuck(s)
    ensures Total(Busy, Threads(s, side)) == 0 && Total(Left, Threads(s, side)) >= 0
    ensures Sem(s, side) > 0 ==> Total(Left, Threads(s, side)) == 0
    ensures Total(Left, Threads(s, side)) == 0 <==>
            forall i :: 0 <= i < |Threads(s, side)| ==> Threads(s, side)[i] == Worker(ToSemWait, 0)
  {
    var ws := Threads(s, side);
    forall i | 0 <= i < |ws|
      ensures ws[i].pc == ToSemWait && (Sem(s, side) > 0 ==> ws[i].left == 0)
    {
      StuckThreadsWait(s, side, i);
    }
    TotalAtMost(Busy, ws, 0);
    TotalAtLeast(Busy, ws, 0);
    TotalAtLeast(Left, ws, 0);
    if forall i :: 0 <= i < |ws| ==> ws[i].left == 0 {
      TotalAtMost(Left, ws, 0);
    } else {
      var i :| 0 <= i < |ws| && ws[i].left != 0;
      TotalUpdate(Left, ws, i, ws[i].(left := 0));
      TotalAtLeast(Left, ws[i := ws[i].(left := 0)], 0);
    }
  }

  /** A stuck state has all its credit in the semaphores, and has finished if no rounds are left. */
  lemma StuckTotals(u: Setup, s: State)
    requires CountInv(u, s) && MutexInv(s) && Stuck(s)
    ensures s.productionsBegun == s.productionsEnded && s.consumptionsBegun == s.consumptionsEnded
    ensures s.productionsBegun <= u.productions && s.consumptionsBegun <= u.consumptions
    ensures s.empty > 0 ==> s.productionsBegun == u.productions
    ensures s.full > 0 ==> s.consumptionsBegun == u.consumptions
    ensures Finished(s) <==> s.productionsBegun == u.productions && s.consumptionsBegun == u.consumptions
  {
    StuckSide(s, Producing);
    StuckSide(s, Consuming);
  }

  lemma StuckWithCredit(full: nat, empty: nat, rounds: seq<nat>, demands: seq<nat>, es: seq<Event>, s: State)
    requires Run(Init(full, empty, rounds, demands), es, s) && Stuck(s) && full + empty > 0
    ensures Finished(s) <==> Sum(rounds) <= Sum(demands) + empty && Sum(demands) <= Sum(rounds) + full
  {
    var u := Setup(full, empty, Sum(rounds), Sum(demands));
    InitInv(full, empty, rounds, demands);
    RunInv(u, Init(full, empty, rounds, demands), es, s);
    StuckTotals(u, s);
  }

  lemma NoCreditNoStep(rounds: seq<nat>, demands: seq<nat>)
    ensures Stuck(Init(0, 0, rounds, demands))
  {
    WorkersTotal(rounds);
    WorkersTotal(demands);
  }

  /** Without any credit nothing ever happens. */
  lemma StuckWithoutCredit(rounds: seq<nat>, demands: seq<nat>, es: seq<Event>, s: State)
    requires Run(Init(0, 0, rounds, demands), es, s) && Stuck(s)
    ensures Finished(s) <==> Sum(rounds) == 0 && Sum(demands) == 0
  {
    NoCreditNoStep(rounds, demands);
    InitInv(0, 0, rounds, demands);
    StuckTotals(Setup(0, 0, Sum(rounds), Sum(demands)), s);
  }

  lemma StuckFinished(full: nat, empty: nat, rounds: seq<nat>, demands: seq<nat>, es: seq<Event>, s: State)
    requires Run(Init(full, empty, rounds, demands), es, s) && Stuck(s)
    ensures Finished(s) <==>
            && Sum(rounds) <= Sum(demands) + empty && Sum(demands) <= Sum(rounds) + full
            && (full + empty > 0 || Sum(rounds) == 0)
  {
    if full + empty > 0 {
      StuckWithCredit(full, empty, rounds, demands, es, s);
    } else {
      StuckWithoutCredit(rounds, demands, es, s);
    }
  }

  lemma RunLength(full: nat, empty: nat, rounds: seq<nat>, demands: seq<nat>, es: seq<Event>, s: State)
    requires Run(Init(full, empty, rounds, demands), es, s)
    ensures |es| <= 5 * (Sum(rounds) + Sum(demands))
  {
    RunCost(Init(full, empty, rounds, demands), es, s);
    InitMeasure(full, empty, rounds, demands);
    MeasureNatural(s);
  }

  lemma InitMeasure(full: nat, empty: nat, rounds: seq<nat>, demands: seq<nat>)
    ensures Measure(Init(full, empty, rounds, demands)) == 5 * (Sum(rounds) + Sum(demands))
  {
    WorkersRank(rounds);
    WorkersRank(demands);
  }

  lemma MeasureNatural(s: State)
    ensures Measure(s) >= 0
  {
    TotalAtLeast(Rank, s.producers, 0);
    TotalAtLeast(Rank, s.consumers, 0);
  }

  /**
   * Every run takes a bounded number of steps. One that can go no further has finished if and only if neither
   * side's total exceeds the other's by more than its initial credit, and there was some credit or nothing to do.
   */
  lemma StuckMeansFinished(full: nat, empty: nat, rounds: seq<nat>, demands: seq<nat>, es: seq<Event>, s: State)
    requires Run(Init(full, empty, rounds, demands), es, s)
    ensures |es| <= 5 * (Sum(rounds) + Sum(demands))
    ensures Stuck(s) ==>
              (Finished(s) <==>
               && Sum(rounds) <= Sum(demands) + empty && Sum(demands) <= Sum(rounds) + full
               && (full + empty > 0 || Sum(rounds) == 0))
  {
    RunLength(full, empty, rounds, demands, es, s);
    if Stuck(s) {
      StuckFinished(full, empty, rounds, demands, es, s);
    }
  }

  /** With the coded initial values and equal totals on both sides, no schedule can deadlock. */
  lemma EqualTotalsFinish(rounds: seq<nat>, demands: seq<nat>, es: seq<Event>, s: State)
    requires Sum(rounds) == Sum(demands)
    requires Run(Init(INITIAL_FULL, BUF_LEN, rounds, demands), es, s)
    ensures Stuck(s) <==> Finished(s)
    ensures s.full + s.empty + Total(Busy, s.producers) + Total(Busy, s.consumers) == BUF_LEN + 1
    ensures s.consumptionsBegun <= s.productionsEnded + 1
  {
    StuckMeansFinished(INITIAL_FULL, BUF_LEN, rounds, demands, es, s);
    Conservation(INITIAL_FULL, BUF_LEN, rounds, demands, es, s);
  }
}
