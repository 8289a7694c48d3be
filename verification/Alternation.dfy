/**
 * The two alternating threads of alternate_print.c, for any limit M: the odd thread moves the shared counter off
 * even values, the even thread off odd values, and each leaves once the counter has passed M.
 *
 * Waiting releases the mutex and joins the waiters in one step; taking the mutex back is another. A waiter may be
 * woken by a signal or, where the event Spurious is allowed, by nothing at all.
 */
module Alternation {

  datatype Thread = Odd | Even

  datatype Pc =
    | ToLock | ToTest | ToWait | Waiting | Signalled | ToPrint | ToIncrement | ToSignal | ToCheck | ToUnlock | ToExit
    | Done

  datatype Owner = Free | By(t: Thread)

  datatype Line = Line(t: Thread, value: nat)

  /** The shared state; the printed lines and each thread's waits since its last increment are history. */
  datatype State = State(
    odd: Pc, even: Pc, owner: Owner, count: nat, printed: seq<Line>, oddWaits: nat, evenWaits: nat)

  datatype Event =
    | Lock(t: Thread) | Test(t: Thread) | Wait(t: Thread) | Relock(t: Thread) | Print(t: Thread)
    | Increment(t: Thread) | Signal(t: Thread) | Check(t: Thread) | Unlock(t: Thread) | Exit(t: Thread)
    | Spurious(t: Thread)

  const INIT := State(ToLock, ToLock, Free, 0, [], 0, 0)

  function Other(t: Thread): Thread {
    if t == Odd then Even else Odd
  }

  function At(s: State, t: Thread): Pc {
    if t == Odd then s.odd else s.even
  }

  function Go(s: State, t: Thread, pc: Pc): State {
    if t == Odd then s.(odd := pc) else s.(even := pc)
  }

  function Waits(s: State, t: Thread): nat {
    if t == Odd then s.oddWaits else s.evenWaits
  }

  function SetWaits(s: State, t: Thread, n: nat): State {
    if t == Odd then s.(oddWaits := n) else s.(evenWaits := n)
  }

  /** The loop condition of each thread. */
  predicate Blocked(t: Thread, count: nat) {
    if t == Odd then count % 2 != 0 else count % 2 == 0
  }

  predicate Enabled(s: State, e: Event) {
    match e
    case Lock(t) => At(s, t) == ToLock && s.owner == Free
    case Test(t) => At(s, t) == ToTest
    case Wait(t) => At(s, t) == ToWait
    case Relock(t) => At(s, t) == Signalled && s.owner == Free
    case Print(t) => At(s, t) == ToPrint
    case Increment(t) => At(s, t) == ToIncrement
    case Signal(t) => At(s, t) == ToSignal
    case Check(t) => At(s, t) == ToCheck
    case Unlock(t) => At(s, t) == ToUnlock
    case Exit(t) => At(s, t) == ToExit
    case Spurious(t) => At(s, t) == Waiting
  }

  function Next(M: nat, s: State, e: Event): (r: State)
    requires Enabled(s, e)
  {
    match e
    case Lock(t) => Go(s, t, ToTest).(owner := By(t))
    case Test(t) => Go(s, t, if Blocked(t, s.count) then ToWait else ToIncrement)
    case Wait(t) => SetWaits(Go(s, t, Waiting), t, Waits(s, t) + 1).(owner := Free)
    case Relock(t) => Go(s, t, ToPrint).(owner := By(t))
    case Print(t) => Go(s, t, ToTest).(printed := s.printed + [Line(t, s.count)])
    case Increment(t) => SetWaits(Go(s, t, ToSignal), t, 0).(count := s.count + 1)
    case Signal(t) =>
      var woken := if At(s, Other(t)) == Waiting then Go(s, Other(t), Signalled) else s;
      Go(woken, t, ToCheck)
    case Check(t) => Go(s, t, if s.count > M then ToExit else ToUnlock)
    case Unlock(t) => Go(s, t, ToLock).(owner := Free)
    case Exit(t) => Go(s, t, Done).(owner := Free)
    case Spurious(t) => Go(s, t, Signalled)
  }

  ghost predicate Run(M: nat, s: State, es: seq<Event>, r: State)
    decreases |es|
  {
    if es == [] then s == r
    else Enabled(s, es[0]) && Run(M, Next(M, s, es[0]), es[1..], r)
  }

  /** The wakeups without a signal in a run. */
  function Spurs(es: seq<Event>): (k: nat) {
    if es == [] then 0 else (if es[0].Spurious? then 1 else 0) + Spurs(es[1..])
  }

  // ----- what the threads do -----

  datatype Option<T> = None | Some(value: T)

  /** The operation of a thread's loop that follows `e`, when the counter stands at `count`. */
  function After(M: nat, e: Event, count: nat): (next: Option<Event>) {
    match e
    case Lock(t) => Some(Test(t))
    case Test(t) => Some(if Blocked(t, count) then Wait(t) else Increment(t))
    case Wait(t) => Some(Relock(t))
    case Relock(t) => Some(Print(t))
    case Print(t) => Some(Test(t))
    case Increment(t) => Some(Signal(t))
    case Signal(t) => Some(Check(t))
    case Check(t) => Some(if count > M then Exit(t) else Unlock(t))
    case Unlock(t) => Some(Lock(t))
    case Exit(t) => None
    case Spurious(t) => None
  }

  function CountAfter(e: Event, count: nat): (n: nat) {
    if e.Increment? then count + 1 else count
  }

  /**
   * The events of thread `t` in `es` are its program from the operation `next` on, with the branches that the number
   * of increments so far, `count`, calls for.
   */
  ghost predicate Obeys(M: nat, es: seq<Event>, t: Thread, next: Option<Event>, count: nat) {
    es == []
    || (var e, c := es[0], CountAfter(es[0], count);
        if e.t == t && !e.Spurious? then next == Some(e) && Obeys(M, es[1..], t, After(M, e, c), c)
        else Obeys(M, es[1..], t, next, c))
  }

  function Increments(es: seq<Event>): (n: nat) {
    if es == [] then 0 else (if es[0].Increment? then 1 else 0) + Increments(es[1..])
  }

  /** The lines that the printing events put out, with the counter at `count`. */
  function Lines(es: seq<Event>, count: nat): (ls: seq<Line>) {
    if es == [] then []
    else (if es[0].Print? then [Line(es[0].t, count)] else []) + Lines(es[1..], CountAfter(es[0], count))
  }

  /** The operation in front of which a thread stands. */
  function Pending(s: State, t: Thread): Option<Event> {
    match At(s, t)
    case ToLock => Some(Lock(t))
    case ToTest => Some(Test(t))
    case ToWait => Some(Wait(t))
    case Waiting => Some(Relock(t))
    case Signalled => Some(Relock(t))
    case ToPrint => Some(Print(t))
    case ToIncrement => Some(Increment(t))
    case ToSignal => Some(Signal(t))
    case ToCheck => Some(Check(t))
    case ToUnlock => Some(Unlock(t))
    case ToExit => Some(Exit(t))
    case Done => None
  }

  lemma StepPending(M: nat, s: State, e: Event, t: Thread)
    requires Enabled(s, e)
    ensures Next(M, s, e).count == CountAfter(e, s.count)
    ensures if e.t == t && !e.Spurious? then
              Pending(s, t) == Some(e) && Pending(Next(M, s, e), t) == After(M, e, Next(M, s, e).count)
            else Pending(Next(M, s, e), t) == Pending(s, t)
  {
  }

  lemma {:induction false} RunObeys(M: nat, s: State, es: seq<Event>, r: State, t: Thread)
    requires Run(M, s, es, r)
    ensures Obeys(M, es, t, Pending(s, t), s.count)
    decreases |es|
  {
    if es != [] {
      StepPending(M, s, es[0], t);
      RunObeys(M, Next(M, s, es[0]), es[1..], r, t);
    }
  }

  lemma {:induction false} RunHistory(M: nat, s: State, es: seq<Event>, r: State)
    requires Run(M, s, es, r)
    ensures r.count == s.count + Increments(es)
    ensures r.printed == s.printed + Lines(es, s.count)
    decreases |es|
  {
    if es != [] {
      RunHistory(M, Next(M, s, es[0]), es[1..], r);
    }
  }

  /**
   * In every run, spurious wakeups included: each thread keeps to its program, the counter is the number of
   * increments, and the printed lines are those of the printing events.
   */
  lemma ProgramOrder(M: nat, es: seq<Event>, s: State, t: Thread)
    requires Run(M, INIT, es, s)
    ensures Obeys(M, es, t, Some(Lock(t)), 0)
    ensures s.count == Increments(es) && s.printed == Lines(es, 0)
  {
    RunObeys(M, INIT, es, s, t);
    RunHistory(M, INIT, es, s);
  }

  // ----- safety, spurious wakeups included -----

  predicate Holds(pc: Pc) {
    pc == ToTest || pc == ToWait || pc == ToPrint || pc == ToIncrement || Incremented(pc)
  }

  /** Between its increment and giving the mutex back. */
  predicate Incremented(pc: Pc) {
    pc == ToSignal || pc == ToCheck || pc == ToUnlock || pc == ToExit
  }

  /** Past its last increment: about to find the counter over the limit, or gone. */
  predicate Leaving(pc: Pc) {
    pc == ToSignal || pc == ToCheck || pc == ToExit || pc == Done
  }

  ghost predicate ThreadInv(M: nat, s: State, t: Thread) {
    var pc, other := At(s, t), At(s, Other(t));
    && (Holds(pc) <==> s.owner == By(t))
    && (pc == ToIncrement ==> !Blocked(t, s.count))
    && (pc == ToWait || Incremented(pc) ==> Blocked(t, s.count))
    // no lost wakeup: who could go on is asleep only while the other is about to signal
    && (pc == Waiting ==> Blocked(t, s.count) || other == ToSignal)
    && (pc == ToUnlock ==> s.count <= M)
    && (pc == ToExit || pc == Done ==> s.count > M && (s.count == M + 1 ==> Blocked(t, s.count)))
    && (s.count > M && Blocked(t, s.count) ==> Leaving(pc))
    && (s.count == M + 2 && !Blocked(t, s.count) ==> pc == Done)
  }

  ghost predicate Inv(M: nat, s: State) {
    s.count <= M + 2 && ThreadInv(M, s, Odd) && ThreadInv(M, s, Even)
  }

  /** The thread that takes the step keeps its part of the invariant. */
  lemma StepSelf(M: nat, s: State, e: Event)
    requires Inv(M, s) && Enabled(s, e)
    ensures Next(M, s, e).count <= M + 2 && ThreadInv(M, Next(M, s, e), e.t)
  {
    assert ThreadInv(M, s, e.t) && ThreadInv(M, s, Other(e.t));
  }

  /** And so does the thread that does not. */
  lemma StepOther(M: nat, s: State, e: Event)
    requires Inv(M, s) && Enabled(s, e)
    ensures ThreadInv(M, Next(M, s, e), Other(e.t))
  {
    assert ThreadInv(M, s, e.t) && ThreadInv(M, s, Other(e.t));
  }

  lemma StepInv(M: nat, s: State, e: Event)
    requires Inv(M, s) && Enabled(s, e)
    ensures Inv(M, Next(M, s, e))
  {
    StepSelf(M, s, e);
    StepOther(M, s, e);
  }

  lemma {:induction false} RunInv(M: nat, s: State, es: seq<Event>, r: State)
    requires Inv(M, s) && Run(M, s, es, r)
    ensures Inv(M, r)
    decreases |es|
  {
    if es != [] {
      StepInv(M, s, es[0]);
      RunInv(M, Next(M, s, es[0]), es[1..], r);
    }
  }

  /** In every run, spurious wakeups or not: the two threads are never both asleep unsignalled. */
  lemma NoLostWakeup(M: nat, es: seq<Event>, s: State)
    requires Run(M, INIT, es, s)
    ensures !(s.odd == Waiting && s.even == Waiting)
    ensures !(Holds(s.odd) && Holds(s.even))
  {
    RunInv(M, INIT, es, s);
  }

  /** Only the odd thread moves the counter off an even value, and only the even thread off an odd one. */
  lemma ParityOfIncrements(M: nat, es: seq<Event>, s: State, e: Event)
    requires Run(M, INIT, es, s) && Enabled(s, e)
    ensures Next(M, s, e).count == s.count || Next(M, s, e).count == s.count + 1
    ensures Next(M, s, e).count != s.count ==> e.t == if s.count % 2 == 0 then Odd else Even
  {
    RunInv(M, INIT, es, s);
    assert ThreadInv(M, s, e.t);
  }

  /** Every state that is not final has a step that needs no spurious wakeup; the final count is M + 2. */
  lemma NoDeadlock(M: nat, s: State) returns (e: Event)
    requires Inv(M, s)
    ensures s.odd == Done && s.even == Done ==> s.count == M + 2
    ensures !(s.odd == Done && s.even == Done) ==> Enabled(s, e) && !e.Spurious?
  {
    var t := if s.owner.By? then s.owner.t else if s.odd == ToLock || s.odd == Signalled then Odd else Even;
    assert ThreadInv(M, s, t) && ThreadInv(M, s, Other(t));
    e := match At(s, t)
         case ToLock => Lock(t)
         case ToTest => Test(t)
         case ToWait => Wait(t)
         case Signalled => Relock(t)
         case ToPrint => Print(t)
         case ToIncrement => Increment(t)
         case ToSignal => Signal(t)
         case ToCheck => Check(t)
         case ToUnlock => Unlock(t)
         case _ => Exit(t);
  }

  // ----- bounded runs -----

  /** Steps a thread takes before its next increment; who is woken for nothing goes back to sleep. */
  function Rank(t: Thread, pc: Pc, count: nat): nat {
    match pc
    case ToSignal => 10
    case ToCheck => 9
    case ToUnlock => 8
    case ToExit => 8
    case ToLock => 7
    case ToTest => if Blocked(t, count) then 6 else 1
    case ToWait => 5
    case Waiting => 4
    case Signalled => if Blocked(t, count) then 8 else 3
    case ToPrint => if Blocked(t, count) then 7 else 2
    case ToIncrement => 0
    case Done => 0
  }

  function Measure(M: nat, s: State): (m: nat)
    requires s.count <= M + 2
  {
    11 * (M + 2 - s.count) + Rank(Odd, s.odd, s.count) + Rank(Even, s.even, s.count)
  }

  lemma MeasureDecreases(M: nat, s: State, e: Event)
    requires Inv(M, s) && Enabled(s, e)
    ensures Next(M, s, e).count <= M + 2
    ensures Measure(M, Next(M, s, e)) < Measure(M, s) + if e.Spurious? then 5 else 0
  {
    StepInv(M, s, e);
    assert ThreadInv(M, s, e.t) && ThreadInv(M, s, Other(e.t));
  }

  lemma {:induction false} RunLength(M: nat, s: State, es: seq<Event>, r: State)
    requires Inv(M, s) && Run(M, s, es, r)
    ensures Inv(M, r) && |es| + Measure(M, r) <= Measure(M, s) + 5 * Spurs(es)
    decreases |es|
  {
    if es != [] {
      StepInv(M, s, es[0]);
      MeasureDecreases(M, s, es[0]);
      RunLength(M, Next(M, s, es[0]), es[1..], r);
    }
  }

  /** Only a spurious wakeup is left exactly once both threads are gone. */
  lemma StuckMeansDone(M: nat, s: State)
    requires Inv(M, s)
    ensures (forall e :: Enabled(s, e) ==> e.Spurious?) <==> s.odd == Done && s.even == Done
  {
    var e := NoDeadlock(M, s);
  }

  /**
   * Every run is finite but for its spurious wakeups, each of which costs at most five steps; and a run that can go
   * on only by a spurious wakeup has let both threads leave with the counter at exactly M + 2.
   */
  lemma EveryRunFinishes(M: nat, es: seq<Event>, s: State)
    requires Run(M, INIT, es, s)
    ensures |es| <= 11 * M + 36 + 5 * Spurs(es)
    ensures (forall e :: Enabled(s, e) ==> e.Spurious?) <==> s.odd == Done && s.even == Done
    ensures s.odd == Done && s.even == Done ==> s.count == M + 2
  {
    RunLength(M, INIT, es, s);
    StuckMeansDone(M, s);
    var e := NoDeadlock(M, s);
  }

  // ----- the printed lines, without spurious wakeups -----

  ghost predicate QuietThread(s: State, t: Thread) {
    var pc, waits := At(s, t), Waits(s, t);
    && waits <= 1
    && (pc == Signalled || pc == ToPrint ==> !Blocked(t, s.count))
    && (pc == ToLock || pc == ToWait || Incremented(pc) ==> waits == 0)
    && (pc == ToTest && waits == 1 ==> !Blocked(t, s.count))
  }

  /** The printed values rise; the last is behind the counter or has just been printed by who will move it. */
  ghost predicate PrintInv(s: State) {
    && (forall k :: 0 <= k < |s.printed| ==> !Blocked(s.printed[k].t, s.printed[k].value))
    && (forall j, k :: 0 <= j < k < |s.printed| ==> s.printed[j].value < s.printed[k].value)
    && (s.printed != [] ==>
          var last := s.printed[|s.printed| - 1];
          && last.value <= s.count
          && (last.value == s.count ==> At(s, last.t) == ToTest || At(s, last.t) == ToIncrement))
  }

  ghost predicate WaitInv(M: nat, s: State) {
    Inv(M, s) && QuietThread(s, Odd) && QuietThread(s, Even)
  }

  ghost predicate QuietInv(M: nat, s: State) {
    WaitInv(M, s) && PrintInv(s)
  }

  lemma QuietThreads(M: nat, s: State, e: Event)
    requires WaitInv(M, s) && Enabled(s, e) && !e.Spurious?
    ensures QuietThread(Next(M, s, e), Odd) && QuietThread(Next(M, s, e), Even)
  {
    assert ThreadInv(M, s, e.t) && ThreadInv(M, s, Other(e.t));
    assert QuietThread(s, e.t) && QuietThread(s, Other(e.t));
  }

  lemma QuietPrint(M: nat, s: State, t: Thread)
    requires QuietInv(M, s) && Enabled(s, Print(t))
    ensures PrintInv(Next(M, s, Print(t)))
  {
    assert ThreadInv(M, s, t) && QuietThread(s, t);
    var printed := Next(M, s, Print(t)).printed;
    assert forall k :: 0 <= k < |s.printed| ==> printed[k] == s.printed[k];
  }

  lemma QuietOthers(M: nat, s: State, e: Event)
    requires QuietInv(M, s) && Enabled(s, e) && !e.Spurious? && !e.Print?
    ensures PrintInv(Next(M, s, e))
  {
    var r := Next(M, s, e);
    assert r.printed == s.printed;
    if s.printed != [] {
      var last := s.printed[|s.printed| - 1];
      assert ThreadInv(M, s, e.t) && ThreadInv(M, s, last.t);
      assert QuietThread(s, e.t);
    }
  }

  lemma QuietStep(M: nat, s: State, e: Event)
    requires QuietInv(M, s) && Enabled(s, e) && !e.Spurious?
    ensures QuietInv(M, Next(M, s, e))
  {
    StepInv(M, s, e);
    QuietThreads(M, s, e);
    if e.Print? {
      QuietPrint(M, s, e.t);
    } else {
      QuietOthers(M, s, e);
    }
  }

  lemma {:induction false} QuietRun(M: nat, s: State, es: seq<Event>, r: State)
    requires QuietInv(M, s) && Run(M, s, es, r) && Spurs(es) == 0
    ensures QuietInv(M, r)
    decreases |es|
  {
    if es != [] {
      QuietStep(M, s, es[0]);
      QuietRun(M, Next(M, s, es[0]), es[1..], r);
    }
  }

  lemma WaitsStep(M: nat, s: State, e: Event, t: Thread)
    requires WaitInv(M, s) && Enabled(s, e) && !e.Spurious?
    ensures WaitInv(M, Next(M, s, e))
    ensures e == Wait(t) ==> Waits(s, t) == 0 && Waits(Next(M, s, e), t) == 1
    ensures e != Wait(t) && e != Increment(t) ==> Waits(Next(M, s, e), t) == Waits(s, t)
  {
    StepInv(M, s, e);
    QuietThreads(M, s, e);
    assert QuietThread(s, t);
  }

  /** A thread that has waited since its last increment will not wait again before the next. */
  lemma {:induction false} WaitNeedsIncrement(M: nat, s: State, es: seq<Event>, r: State, t: Thread, j: nat)
      returns (k: nat)
    requires WaitInv(M, s) && Run(M, s, es, r) && Spurs(es) == 0
    requires Waits(s, t) == 1 && j < |es| && es[j] == Wait(t)
    ensures k < j && es[k] == Increment(t)
    decreases |es|
  {
    WaitsStep(M, s, es[0], t);
    if es[0] == Increment(t) {
      k := 0;
    } else {
      k := WaitNeedsIncrement(M, Next(M, s, es[0]), es[1..], r, t, j - 1);
      k := k + 1;
    }
  }

  lemma {:induction false} WaitsApart(M: nat, s: State, es: seq<Event>, r: State, t: Thread, i: nat, j: nat)
      returns (k: nat)
    requires WaitInv(M, s) && Run(M, s, es, r) && Spurs(es) == 0
    requires i < j < |es| && es[i] == es[j] == Wait(t)
    ensures i < k < j && es[k] == Increment(t)
    decreases |es|
  {
    WaitsStep(M, s, es[0], t);
    if i == 0 {
      k := WaitNeedsIncrement(M, Next(M, s, es[0]), es[1..], r, t, j - 1);
    } else {
      k := WaitsApart(M, Next(M, s, es[0]), es[1..], r, t, i - 1, j - 1);
    }
    assert es[k + 1] == es[1..][k];
    k := k + 1;
  }

  /** Between two waits of a thread it has incremented, and the printed values rise with a fixed parity per thread. */
  ghost predicate InTurn(es: seq<Event>, s: State) {
    && (forall t, i, j :: 0 <= i < j < |es| && es[i] == Wait(t) && es[j] == Wait(t) ==>
                            exists k :: i < k < j && es[k] == Increment(t))
    && (forall j, k :: 0 <= j < k < |s.printed| ==> s.printed[j].value < s.printed[k].value)
    && (forall k :: 0 <= k < |s.printed| ==> (s.printed[k].t == Odd <==> s.printed[k].value % 2 == 0))
  }

  lemma PrintsRise(M: nat, es: seq<Event>, s: State)
    requires Run(M, INIT, es, s) && Spurs(es) == 0
    ensures InTurn(es, s)
  {
    QuietRun(M, INIT, es, s);
    forall t, i, j | 0 <= i < j < |es| && es[i] == Wait(t) && es[j] == Wait(t)
      ensures exists k :: i < k < j && es[k] == Increment(t)
    {
      var k := WaitsApart(M, INIT, es, s, t, i, j);
    }
  }

  lemma RunCons(M: nat, s: State, e: Event, es: seq<Event>, r: State)
    requires Enabled(s, e) && Run(M, Next(M, s, e), es, r)
    ensures Run(M, s, [e] + es, r) && Spurs([e] + es) == Spurs([e]) + Spurs(es)
  {
    assert ([e] + es)[1..] == es;
  }

  lemma RunThree(M: nat, s: State, a: Event, b: Event, c: Event, es: seq<Event>, r: State)
    requires Enabled(s, a) && Enabled(Next(M, s, a), b) && Enabled(Next(M, Next(M, s, a), b), c)
    requires Run(M, Next(M, Next(M, Next(M, s, a), b), c), es, r)
    ensures Run(M, s, [a] + ([b] + ([c] + es)), r)
    ensures Spurs([a] + ([b] + ([c] + es))) == Spurs([a]) + Spurs([b]) + Spurs([c]) + Spurs(es)
  {
    RunCons(M, Next(M, Next(M, s, a), b), c, es, r);
    RunCons(M, Next(M, s, a), b, [c] + es, r);
    RunCons(M, s, a, [b] + ([c] + es), r);
  }

  /** Whatever the limit, the even thread that is woken for nothing at once prints an even value. */
  lemma SpuriousPrint(M: nat) returns (es: seq<Event>, s: State)
    ensures Run(M, INIT, es, s) && Spurs(es) == 1
    ensures s.printed == [Line(Even, 0)]
  {
    var asleep := State(ToLock, Waiting, Free, 0, [], 0, 1);
    s := State(ToLock, ToTest, By(Even), 0, [Line(Even, 0)], 0, 1);
    RunThree(M, asleep, Spurious(Even), Relock(Even), Print(Even), [], s);
    es := [Spurious(Even)] + ([Relock(Even)] + ([Print(Even)] + []));
    RunThree(M, INIT, Lock(Even), Test(Even), Wait(Even), es, s);
    es := [Lock(Even)] + ([Test(Even)] + ([Wait(Even)] + es));
  }

  ghost predicate AlwaysInTurn(M: nat, k: nat) {
    forall es, s :: Run(M, INIT, es, s) && Spurs(es) <= k ==> InTurn(es, s)
  }

  /** For every limit, all runs with at most `k` spurious wakeups print in turn if and only if there are none. */
  lemma InTurnWithoutSpurs(M: nat, k: nat)
    ensures AlwaysInTurn(M, k) <==> k == 0
  {
    if k == 0 {
      forall es, s | Run(M, INIT, es, s) && Spurs(es) <= k ensures InTurn(es, s) {
        PrintsRise(M, es, s);
      }
    } else {
      var es, s := SpuriousPrint(M);
      assert s.printed[0].t == Even && !InTurn(es, s);
    }
  }
}
