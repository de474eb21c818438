/** Exactly when the manager of an endless fair run returns. */
module SchedulerReturn {
  import opened Arithmetic
  import opened Services
  import opened Scheduler
  import opened SchedulerLiveness
  import opened SchedulerSafety

  // ----- the start phase -------------------------------------------------------------------------

  lemma StartIsGood(r: History)
    requires Behaviour(r)
    ensures Good(r, Starting, r.world(0))
  {
    InitialInv(r.n);
  }

  /** Every fair run in which no hook of the start phase throws, the Inits succeed and every
      IsStartOK gives in gets through the start phase with an empty pool.  Of the later
      phases nothing is assumed. */
  lemma StartPhaseCloses(r: History) returns (t: nat)
    requires FairRun(r) && NeedsRecur(r) && (forall u: nat :: HooksAt(r, Starting, u)) && AllRelent(r, Starting)
    ensures MgrAt(r, t) == Setting(Main, 0) && PoolEmpty(r.world(t))
    ensures forall i :: 0 <= i < |r.world(t).svcs| ==> r.world(t).svcs[i].state == SSStartOk
  {
    StartIsGood(r);
    t := PhaseCloses(r, Starting, 0);
    assert forall i :: 0 <= i < |r.world(t).svcs| ==> Placed(MgrAt(r, t), i, r.world(t).svcs[i]);
  }

  // ----- enough to return ---------------------------------------------------------------------------

  function After(p: Phase): Phase
    requires p != Stopping
  {
    if p == Starting then Main else Stopping
  }

  /** Leaving one phase is entering the next. */
  lemma ClosedIsGood(r: History, p: Phase, t: nat)
    requires p != Stopping && Closed(r, p, r.world(t))
    ensures Good(r, After(p), r.world(t))
  {}

  lemma Suffices(r: History, u: nat) returns (t: nat)
    requires FairRun(r) && NeedsRecur(r) && SignalAt(r, u) && AllRelent(r, Starting) && AllRelent(r, Stopping)
    requires forall x: nat :: AnsweredAt(r, x) && SucceedsAt(r, x)
    ensures MgrAt(r, t).Done?
  {
    assert forall p, x: nat :: AnsweredAt(r, x) && SucceedsAt(r, x) ==> HooksAt(r, p, x);
    StartIsGood(r);
    t := PhaseCloses(r, Starting, 0);
    ClosedIsGood(r, Starting, t);
    t := PhaseCloses(r, Main, t);
    ClosedIsGood(r, Main, t);
    t := PhaseCloses(r, Stopping, t);
  }

  // ----- needed to return ---------------------------------------------------------------------------

  lemma {:induction false} InvAt(r: History, t: nat)
    requires Behaviour(r)
    ensures Inv(r.world(t))
  {
    if t == 0 {
      InitialInv(r.n);
    } else {
      InvAt(r, t - 1);
      assert StepAt(r, t - 1);
      StepKeepsInv(r.world(t - 1), r.step(t - 1));
    }
  }

  lemma {:induction false} WasSignalled(r: History, t: nat) returns (u: nat)
    requires Behaviour(r) && r.world(t).shutdown
    ensures SignalAt(r, u)
  {
    assert StepAt(r, t - 1);
    if SignalAt(r, t - 1) {
      u := t - 1;
    } else {
      u := WasSignalled(r, t - 1);
    }
  }

  /** A service that got through has been let through by its hook. */
  lemma {:induction false} HasRelented(r: History, p: Phase, t: nat, i: nat)
    requires Behaviour(r) && (forall x: nat :: AnsweredAt(r, x))
    requires p != Main && i < r.n && Through(p, SvcAt(r, i, t))
    ensures Relents(r.answer, p, i)
  {
    assert AnsweredAt(r, t - 1);
    var w, l := r.world(t - 1), r.step(t - 1);
    InvAt(r, t - 1);
    StepThrough(w, l, p, i);
    if SaysYes(w, l, p, i) {
      assert r.answer(p, i, Asked(p, w.svcs[i]));
    } else {
      HasRelented(r, p, t - 1, i);
    }
  }

  /** A Run of the service threw, or its Init reported failure. */
  predicate Failed(s: Svc) {
    s.threw || s.state == SSStartFail
  }

  lemma FailureStarts(w: World, l: Label)
    requires Inv(w) && Enabled(w, l) && !Succeeds(w, l)
    ensures l.i < |Next(w, l).svcs| && Failed(Next(w, l).svcs[l.i])
  {
    assert JobsMatch(w.svcs[l.i]) && Placed(w.mgr, l.i, w.svcs[l.i]);
  }

  lemma FailureStays(w: World, l: Label, i: nat)
    requires Inv(w) && Enabled(w, l) && i < |w.svcs| && Failed(w.svcs[i])
    ensures |Next(w, l).svcs| == |w.svcs| && Failed(Next(w, l).svcs[i]) && !w.mgr.Done?
  {
    assert JobsMatch(w.svcs[i]) && Placed(w.mgr, i, w.svcs[i]);
  }

  lemma {:induction false} FailedAt(r: History, i: nat, t: nat, v: nat)
    requires Behaviour(r) && i < r.n && Failed(SvcAt(r, i, t)) && t <= v
    ensures Failed(SvcAt(r, i, v)) && !MgrAt(r, v).Done?
    decreases v - t
  {
    assert StepAt(r, t);
    InvAt(r, t);
    FailureStays(r.world(t), r.step(t), i);
    if t < v {
      FailedAt(r, i, t + 1, v);
    }
  }

  lemma {:induction false} DoneStays(r: History, t: nat, v: nat)
    requires Behaviour(r) && MgrAt(r, t).Done? && t <= v
    ensures MgrAt(r, v).Done?
    decreases v - t
  {
    if t < v {
      assert StepAt(r, t);
      DoneStays(r, t + 1, v);
    }
  }

  /** In a run in which the manager returns, no hook throws and no Init fails, ever. */
  lemma NothingFailed(r: History, t: nat, u: nat)
    requires Behaviour(r) && MgrAt(r, t).Done?
    ensures SucceedsAt(r, u)
  {
    assert StepAt(r, u);
    if !Succeeds(r.world(u), r.step(u)) {
      InvAt(r, u);
      FailureStarts(r.world(u), r.step(u));
      FailedAt(r, r.step(u).i, u + 1, if t <= u then u + 1 else t);
      if t <= u {
        DoneStays(r, t, u + 1);
      }
    }
  }

  /** The manager of a fair run, in which no NeedSchedule puts its service off for ever,
      returns exactly if ShutDown() is called, no hook throws, every Init succeeds, and
      every IsStartOK and every IsShutdownOK answers true when asked often enough. */
  lemma ManagerReturnsExactlyIf(r: History)
    requires FairRun(r) && NeedsRecur(r) && forall t: nat :: AnsweredAt(r, t)
    ensures (exists t: nat :: MgrAt(r, t).Done?) <==>
              && (exists t: nat :: SignalAt(r, t))
              && (forall t: nat :: SucceedsAt(r, t))
              && (forall i: nat :: i < r.n ==> Relents(r.answer, Starting, i))
              && (forall i: nat :: i < r.n ==> Relents(r.answer, Stopping, i))
  {
    if t: nat :| MgrAt(r, t).Done? {
      NeededToReturn(r, t);
    }
    if && (exists t: nat :: SignalAt(r, t)) && (forall t: nat :: SucceedsAt(r, t))
       && AllRelent(r, Starting) && AllRelent(r, Stopping)
    {
      var u: nat :| SignalAt(r, u);
      var t := Suffices(r, u);
    }
  }

  lemma NeededToReturn(r: History, t: nat)
    requires Behaviour(r) && (forall x: nat :: AnsweredAt(r, x)) && MgrAt(r, t).Done?
    ensures (exists x: nat :: SignalAt(r, x)) && (forall x: nat :: SucceedsAt(r, x))
    ensures AllRelent(r, Starting) && AllRelent(r, Stopping)
  {
    InvAt(r, t);
    var u := WasSignalled(r, t);
    forall x: nat ensures SucceedsAt(r, x) {
      NothingFailed(r, t, x);
    }
    forall i: nat | i < r.n ensures Relents(r.answer, Starting, i) && Relents(r.answer, Stopping, i) {
      assert Placed(MgrAt(r, t), i, SvcAt(r, i, t));
      HasRelented(r, Starting, t, i);
      HasRelented(r, Stopping, t, i);
    }
  }

  /** With the base class's two hooks a service starts, but never stops. */
  lemma BaseStartsAndNeverStops(answer: Answers, i: nat)
    requires forall a: nat :: answer(Starting, i, a) == BaseIsStartOk(SSStartProcess)
    requires forall a: nat :: answer(Stopping, i, a) == BaseIsShutdownOk(SSShutdownProcess)
    ensures Relents(answer, Starting, i) && !Relents(answer, Stopping, i)
  {
    assert answer(Starting, i, 0);
  }

  // ----- such runs exist ------------------------------------------------------------------------------

  /** What the hook called by the oldest run of service i answers. */
  function GoodAnswer(s: Svc, i: nat, answer: Answers): Hook
    requires s.jobs != []
  {
    if s.jobs[0] == InHook(SSStartProcess) then Returns(answer(Starting, i, s.startAsks))
    else if s.jobs[0] == InHook(SSShutdownProcess) then Returns(answer(Stopping, i, s.stopAsks))
    else Returns(true)
  }

  /** The base class's NeedSchedule. */
  function GoodNeed(w: World): bool {
    w.mgr.Ticking? && w.mgr.k < |w.svcs| ==> NeedSchedule(w.svcs[w.mgr.k].state)
  }

  /** The services' workers and the manager take turns; whoever cannot move lets some other
      job go on. */
  ghost function RoundRobin(w: World, t: nat, answer: Answers, signals: bool): (l: Label)
    ensures Enabled(w, l) && Answered(w, l, answer) && Succeeds(w, l)
    ensures l.Manage? ==> l.need == GoodNeed(w)
    ensures l.Signal? ==> (t == 0 && signals) || w.mgr.Done?
  {
    var slot := t % (|w.svcs| + 1);
    if t == 0 && signals then Signal
    else if slot < |w.svcs| && w.svcs[slot].jobs != [] then Work(slot, 0, GoodAnswer(w.svcs[slot], slot, answer))
    else if Enabled(w, Manage(GoodNeed(w))) then Manage(GoodNeed(w))
    else if PoolEmpty(w) then Signal
    else
      var j: nat :| j < |w.svcs| && w.svcs[j].jobs != [];
      Work(j, 0, GoodAnswer(w.svcs[j], j, answer))
  }

  ghost function WorldAt(n: nat, t: nat, answer: Answers, signals: bool): (w: World)
    ensures |w.svcs| == n
  {
    if t == 0 then Initial(n)
    else
      var w := WorldAt(n, t - 1, answer, signals);
      Next(w, RoundRobin(w, t - 1, answer, signals))
  }

  ghost function RoundRobinRun(n: nat, answer: Answers, signals: bool): History {
    History((t: nat) => WorldAt(n, t, answer, signals),
            (t: nat) => RoundRobin(WorldAt(n, t, answer, signals), t, answer, signals), n, answer)
  }

  /** Slot i of m comes again after time t. */
  lemma SlotComes(t: nat, m: nat, i: nat) returns (u: nat)
    requires i < m
    ensures u > t && u % m == i
  {
    u := m * (t + 1) + i;
    assert u > t by { MultipleIsLarge(t + 1, m); }
    ExactQuotient(m, u / m, t + 1, i - u % m);
  }

  lemma ManagerSlotComes(n: nat, answer: Answers, signals: bool, t: nat)
    ensures ManagerTurnAfter(RoundRobinRun(n, answer, signals), t)
  {
    var u := SlotComes(t, n + 1, n);
    assert ManagerTurn(RoundRobinRun(n, answer, signals), u);
  }

  lemma WorkerSlotComes(n: nat, answer: Answers, signals: bool, i: nat, t: nat)
    requires i < n && forall u: nat :: |RoundRobinRun(n, answer, signals).world(u).svcs| == n
    ensures WorkerTurnAfter(RoundRobinRun(n, answer, signals), i, t)
  {
    var u := SlotComes(t, n + 1, i);
    WorkerTakesSlot(n, answer, signals, i, u);
  }

  lemma WorkerTakesSlot(n: nat, answer: Answers, signals: bool, i: nat, u: nat)
    requires i < n && u % (n + 1) == i && u > 0
    ensures WorkerTurn(RoundRobinRun(n, answer, signals), i, u)
  {
    ServesSlot(WorldAt(n, u, answer, signals), u, answer, signals, i);
  }

  lemma ServesSlot(w: World, u: nat, answer: Answers, signals: bool, i: nat)
    requires i < |w.svcs| && u % (|w.svcs| + 1) == i && u > 0
    ensures w.svcs[i].jobs != [] ==> RoundRobin(w, u, answer, signals).Work? && RoundRobin(w, u, answer, signals).i == i
  {}

  lemma RoundRobinSteps(n: nat, answer: Answers, signals: bool, t: nat)
    ensures AnsweredAt(RoundRobinRun(n, answer, signals), t) && SucceedsAt(RoundRobinRun(n, answer, signals), t)
  {
    var w := WorldAt(n, t, answer, signals);
    assert WorldAt(n, t + 1, answer, signals) == Next(w, RoundRobin(w, t, answer, signals));
  }

  lemma RoundRobinBehaves(n: nat, answer: Answers, signals: bool)
    ensures Behaviour(RoundRobinRun(n, answer, signals))
  {
    forall t: nat ensures StepAt(RoundRobinRun(n, answer, signals), t) {
      RoundRobinSteps(n, answer, signals, t);
    }
  }

  /** The base class's NeedSchedule puts nobody off. */
  lemma BaseNeedsRecur(r: History)
    requires Behaviour(r) && forall t: nat :: r.step(t).Manage? ==> r.step(t).need == GoodNeed(r.world(t))
    ensures NeedsRecur(r)
  {
    forall i: nat, t: nat | i < r.n && forall u: nat :: t <= u ==> VisitAfter(r, i, u) ensures AcceptsAfter(r, i, t) {
      assert VisitAfter(r, i, t);
      var v: nat :| t <= v && Visits(r, i, v);
      assert Accepts(r, i, v);
    }
  }

  /** A manager that has returned has been told to, so a run whose only signals come after
      that has none. */
  lemma {:induction false} NoSignal(r: History, t: nat)
    requires Behaviour(r) && forall x: nat :: SignalAt(r, x) ==> MgrAt(r, x).Done?
    ensures !r.world(t).shutdown && !SignalAt(r, t)
  {
    if t > 0 {
      NoSignal(r, t - 1);
      assert StepAt(r, t - 1);
    }
    InvAt(r, t);
  }

  /** For any number of services and whatever their IsStartOK and IsShutdownOK answer there
      are fair runs in which nothing fails, with ShutDown() and without, so each side of the
      equivalence occurs. */
  lemma FairRunExists(n: nat, answer: Answers, signals: bool) returns (r: History)
    ensures r.n == n && r.answer == answer && FairRun(r) && NeedsRecur(r)
    ensures if signals then SignalAt(r, 0) else forall t: nat :: !SignalAt(r, t)
    ensures forall t: nat :: AnsweredAt(r, t) && SucceedsAt(r, t)
  {
    r := RoundRobinRun(n, answer, signals);
    RoundRobinBehaves(n, answer, signals);
    forall t: nat ensures ManagerTurnAfter(r, t) {
      ManagerSlotComes(n, answer, signals, t);
    }
    forall i: nat, t: nat | i < n ensures WorkerTurnAfter(r, i, t) {
      WorkerSlotComes(n, answer, signals, i, t);
    }
    forall t: nat ensures AnsweredAt(r, t) && SucceedsAt(r, t) {
      RoundRobinSteps(n, answer, signals, t);
    }
    BaseNeedsRecur(r);
    if !signals {
      forall t: nat ensures !SignalAt(r, t) {
        NoSignal(r, t);
      }
    }
  }
}
