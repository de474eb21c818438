/** The run phase: until ShutDown() is called, every service is scheduled and ticked again
    and again, whatever the other services do. */
module SchedulerTicks {
  import opened Services
  import opened Scheduler
  import opened SchedulerLiveness
  import opened SchedulerSafety
  import opened SchedulerReturn

  // ----- the statement -----------------------------------------------------------------------

  ghost predicate FailsAt(r: History, i: nat, t: nat) {
    StepAt(r, t) && RunFails(r.world(t), r.step(t), i)
  }

  /** ShutDown() is never called, and no Run of service i ends with an exception. */
  ghost predicate KeepsOn(r: History, i: nat) {
    forall t: nat :: StepAt(r, t) && !SignalAt(r, t) && !FailsAt(r, i, t)
  }

  /** The manager is in the loop of the run phase. */
  predicate InLoop(mgr: Manager) {
    (mgr.Ticking? && mgr.p == Main) || mgr == Checking(Main, 0)
  }

  ghost predicate LoopAt(r: History, i: nat, t: nat) {
    i < r.n == |r.world(t).svcs| && InLoop(MgrAt(r, t))
  }

  /** At step t the manager hands the ready service i to the pool. */
  ghost predicate ScheduledAt(r: History, i: nat, t: nat) {
    && i < |r.world(t).svcs| == |r.world(t + 1).svcs| && r.step(t).Manage?
    && SvcAt(r, i, t).state == SSRun && SvcAt(r, i, t).run == RSReady && SvcAt(r, i, t).jobs == []
    && SvcAt(r, i, t + 1).run == RSSchedule && SvcAt(r, i, t + 1).jobs == [Queued]
  }

  /** At step t a Run of service i calls its Tick, which the log shows. */
  ghost predicate TickedAt(r: History, i: nat, t: nat) {
    && i < |r.world(t).svcs| && r.step(t).Work? && r.step(t).i == i
    && SvcAt(r, i, t).state == SSRun && SvcAt(r, i, t).jobs == [Begun]
    && r.world(t + 1).log == r.world(t).log + [TickCalled(i)]
  }

  ghost predicate ScheduledAfter(r: History, i: nat, t: nat) {
    exists v: nat :: t <= v && ScheduledAt(r, i, v)
  }

  ghost predicate TickedAfter(r: History, i: nat, t: nat) {
    exists v: nat :: t <= v && TickedAt(r, i, v)
  }

  // ----- the loop goes on --------------------------------------------------------------------

  lemma {:induction false} Calm(r: History, i: nat, t: nat)
    requires Behaviour(r) && KeepsOn(r, i) && i < r.n
    ensures !r.world(t).shutdown && !SvcAt(r, i, t).threw
  {
    if t > 0 {
      Calm(r, i, t - 1);
      assert StepAt(r, t - 1) && !SignalAt(r, t - 1) && !FailsAt(r, i, t - 1);
      StepThrows(r.world(t - 1), r.step(t - 1), i);
    }
  }

  lemma SvcFits(r: History, i: nat, t: nat)
    requires Behaviour(r) && i < r.n
    ensures JobsMatch(SvcAt(r, i, t)) && Placed(MgrAt(r, t), i, SvcAt(r, i, t))
    ensures MgrAt(r, t).Setting? || MgrAt(r, t).Ticking? || MgrAt(r, t).Checking? ==> MgrAt(r, t).k <= r.n
  {
    InvAt(r, t);
  }

  lemma LoopGoesOn(r: History, i: nat, t: nat)
    requires Behaviour(r) && KeepsOn(r, i) && LoopAt(r, i, t)
    ensures LoopAt(r, i, t + 1)
  {
    Calm(r, i, t);
    assert StepAt(r, t) && !SignalAt(r, t);
  }

  lemma {:induction false} LoopStays(r: History, i: nat, t: nat, v: nat)
    requires Behaviour(r) && KeepsOn(r, i) && LoopAt(r, i, t) && t <= v
    ensures LoopAt(r, i, v)
    decreases v - t
  {
    if t < v {
      LoopGoesOn(r, i, t);
      LoopStays(r, i, t + 1, v);
    }
  }

  // ----- an outstanding run goes on ------------------------------------------------------------

  ghost predicate JobKept(r: History, i: nat, t: nat, x: nat)
    requires i < |r.world(t).svcs|
  {
    x >= t && LoopAt(r, i, x) && SvcAt(r, i, x) == SvcAt(r, i, t)
  }

  lemma JobWaits(r: History, i: nat, t: nat, x: nat)
    requires Behaviour(r) && KeepsOn(r, i) && i < r.n && SvcAt(r, i, t).jobs != []
    requires JobKept(r, i, t, x) && !WorkerTurn(r, i, x)
    ensures JobKept(r, i, t, x + 1)
  {
    LoopGoesOn(r, i, x);
    SvcFits(r, i, x);
    assert StepAt(r, x);
  }

  lemma JobTurn(r: History, i: nat, t: nat) returns (v: nat)
    requires FairRun(r) && KeepsOn(r, i) && LoopAt(r, i, t) && SvcAt(r, i, t).jobs != []
    ensures JobKept(r, i, t, v) && r.step(v).Work? && r.step(v).i == i
  {
    var keeps := (x: nat) => JobKept(r, i, t, x);
    var turn := (x: nat) => WorkerTurn(r, i, x);
    forall x: nat | keeps(x) && !turn(x) ensures keeps(x + 1) {
      JobWaits(r, i, t, x);
    }
    v := Wait(keeps, turn, t, NextWorkerTurn(r, i, t));
  }

  /** In the loop a run of the service is queued, then begun, then in its tick, then about
      to return. */
  lemma JobMoves(r: History, i: nat, t: nat)
    requires Behaviour(r) && KeepsOn(r, i) && LoopAt(r, i, t) && r.step(t).Work? && r.step(t).i == i
    ensures LoopAt(r, i, t + 1)
    ensures Pending(SvcAt(r, i, t + 1)) < Pending(SvcAt(r, i, t))
    ensures SvcAt(r, i, t).jobs == [Queued] ==> SvcAt(r, i, t + 1).jobs == [Begun]
    ensures SvcAt(r, i, t).jobs == [Begun] ==> TickedAt(r, i, t)
  {
    LoopGoesOn(r, i, t);
    Calm(r, i, t);
    SvcFits(r, i, t);
    assert StepAt(r, t);
    var s := SvcAt(r, i, t);
    assert |s.jobs| == 1 && s.jobs == [s.jobs[0]];
  }

  lemma {:induction false} RestComes(r: History, i: nat, t: nat) returns (v: nat)
    requires FairRun(r) && KeepsOn(r, i) && LoopAt(r, i, t)
    ensures v >= t && LoopAt(r, i, v) && SvcAt(r, i, v).jobs == []
    decreases Pending(SvcAt(r, i, t))
  {
    v := t;
    if SvcAt(r, i, t).jobs != [] {
      v := JobTurn(r, i, t);
      JobMoves(r, i, v);
      v := RestComes(r, i, v + 1);
    }
  }

  // ----- the manager comes to a service that rests ------------------------------------------------

  ghost predicate Resting(r: History, i: nat, t: nat, x: nat) {
    x >= t && LoopAt(r, i, x) && SvcAt(r, i, x).jobs == []
  }

  lemma RestingStep(r: History, i: nat, t: nat, x: nat)
    requires Behaviour(r) && KeepsOn(r, i) && Resting(r, i, t, x)
    ensures ScheduledAt(r, i, x) || Resting(r, i, t, x + 1)
    ensures Visits(r, i, x) && r.step(x).need ==> ScheduledAt(r, i, x)
  {
    LoopGoesOn(r, i, x);
    Calm(r, i, x);
    SvcFits(r, i, x);
    assert StepAt(r, x);
    assert [] + [Queued] == [Queued];
  }

  lemma RestingStays(r: History, i: nat, t: nat, x: nat)
    requires Behaviour(r) && KeepsOn(r, i) && Resting(r, i, t, t) && t <= x
    ensures Resting(r, i, t, x) || ScheduledAfter(r, i, t)
  {
    if !ScheduledAfter(r, i, t) {
      var keeps := (y: nat) => Resting(r, i, t, y);
      var turn := (y: nat) => y == x;
      forall y: nat | keeps(y) && !turn(y) ensures keeps(y + 1) {
        RestingStep(r, i, t, y);
      }
      var v := Wait(keeps, turn, t, x);
    }
  }

  ghost predicate LoopKept(r: History, i: nat, u: nat, x: nat) {
    x >= u && LoopAt(r, i, x) && MgrAt(r, x) == MgrAt(r, u)
  }

  lemma LoopWaits(r: History, i: nat, u: nat, x: nat)
    requires Behaviour(r) && KeepsOn(r, i) && LoopKept(r, i, u, x)
    ensures !ManagerTurn(r, x) ==> LoopKept(r, i, u, x + 1)
    ensures ManagerTurn(r, x) ==>
              && LoopAt(r, i, x + 1)
              && (Visits(r, i, x) || Distance(MgrAt(r, x + 1), i, r.n) < Distance(MgrAt(r, u), i, r.n))
  {
    LoopGoesOn(r, i, x);
    Calm(r, i, x);
    SvcFits(r, i, x);
    assert StepAt(r, x) && !SignalAt(r, x);
  }

  lemma LoopTurn(r: History, i: nat, u: nat) returns (v: nat)
    requires FairRun(r) && KeepsOn(r, i) && LoopAt(r, i, u)
    ensures LoopKept(r, i, u, v) && ManagerTurn(r, v)
  {
    var keeps := (x: nat) => LoopKept(r, i, u, x);
    var turn := (x: nat) => ManagerTurn(r, x);
    forall x: nat | keeps(x) && !turn(x) ensures keeps(x + 1) {
      LoopWaits(r, i, u, x);
    }
    v := Wait(keeps, turn, u, NextTurn(r, u));
  }

  /** The manager visits every service again and again. */
  lemma {:induction false} VisitedAgain(r: History, i: nat, u: nat)
    requires FairRun(r) && KeepsOn(r, i) && LoopAt(r, i, u)
    ensures VisitAfter(r, i, u)
    decreases Distance(MgrAt(r, u), i, r.n)
  {
    var v := LoopTurn(r, i, u);
    LoopWaits(r, i, u, v);
    if !Visits(r, i, v) {
      VisitedAgain(r, i, v + 1);
      var w: nat :| v + 1 <= w && Visits(r, i, w);
    }
  }

  lemma AcceptedInLoop(r: History, i: nat, t: nat) returns (v: nat)
    requires FairRun(r) && NeedsRecur(r) && KeepsOn(r, i) && LoopAt(r, i, t)
    ensures t <= v && Accepts(r, i, v)
  {
    forall u: nat | t <= u ensures VisitAfter(r, i, u) {
      LoopStays(r, i, t, u);
      VisitedAgain(r, i, u);
    }
    assert AcceptsAfter(r, i, t);
    v :| t <= v && Accepts(r, i, v);
  }

  lemma ScheduledFromRest(r: History, i: nat, t: nat)
    requires FairRun(r) && NeedsRecur(r) && KeepsOn(r, i) && Resting(r, i, t, t)
    ensures ScheduledAfter(r, i, t)
  {
    var v := AcceptedInLoop(r, i, t);
    RestingStays(r, i, t, v);
    if !ScheduledAfter(r, i, t) {
      SvcFits(r, i, v);
      RestingStep(r, i, t, v);
    }
  }

  // ----- again and again ------------------------------------------------------------------------------

  lemma ScheduledInLoop(r: History, i: nat, t: nat)
    requires FairRun(r) && NeedsRecur(r) && KeepsOn(r, i) && LoopAt(r, i, t)
    ensures ScheduledAfter(r, i, t)
  {
    var v := RestComes(r, i, t);
    ScheduledFromRest(r, i, v);
    var w: nat :| v <= w && ScheduledAt(r, i, w);
  }

  lemma TickedInLoop(r: History, i: nat, t: nat)
    requires FairRun(r) && NeedsRecur(r) && KeepsOn(r, i) && LoopAt(r, i, t)
    ensures TickedAfter(r, i, t)
  {
    ScheduledInLoop(r, i, t);
    var v: nat :| t <= v && ScheduledAt(r, i, v);
    LoopStays(r, i, t, v + 1);
    var w := JobTurn(r, i, v + 1);
    JobMoves(r, i, w);
    var x := JobTurn(r, i, w + 1);
    JobMoves(r, i, x);
  }

  ghost predicate SettingKept(r: History, u: nat, x: nat) {
    x >= u && MgrAt(r, x) == MgrAt(r, u)
  }

  lemma SettingTurn(r: History, u: nat) returns (v: nat)
    requires FairRun(r) && MgrAt(r, u).Setting?
    ensures SettingKept(r, u, v) && r.step(v).Manage?
  {
    var keeps := (x: nat) => SettingKept(r, u, x);
    var turn := (x: nat) => ManagerTurn(r, x);
    forall x: nat | keeps(x) && !turn(x) ensures keeps(x + 1) {
      assert StepAt(r, x);
    }
    v := Wait(keeps, turn, u, NextTurn(r, u));
  }

  lemma {:induction false} LoopComes(r: History, i: nat, t: nat) returns (v: nat)
    requires FairRun(r) && i < r.n && MgrAt(r, t).Setting? && MgrAt(r, t).p == Main
    ensures LoopAt(r, i, v)
    decreases r.n + 1 - MgrAt(r, t).k
  {
    v := SettingTurn(r, t);
    SvcFits(r, i, v);
    assert StepAt(r, v);
    v := v + 1;
    if MgrAt(r, v).Setting? {
      v := LoopComes(r, i, v);
    }
  }

  /** In a fair run that gets through its start phase and in which ShutDown() is not called,
      every service whose Runs do not throw is scheduled, and its Tick is called, again and
      again. */
  lemma TicksAgainAndAgain(r: History, i: nat, t: nat)
    requires FairRun(r) && NeedsRecur(r) && (forall u: nat :: HooksAt(r, Starting, u)) && AllRelent(r, Starting)
    requires i < r.n && KeepsOn(r, i)
    ensures ScheduledAfter(r, i, t) && TickedAfter(r, i, t)
  {
    var v := StartPhaseCloses(r);
    v := LoopComes(r, i, v);
    var w := if t <= v then v else t;
    LoopStays(r, i, v, w);
    ScheduledInLoop(r, i, w);
    TickedInLoop(r, i, w);
    var x: nat :| w <= x && ScheduledAt(r, i, x);
    var y: nat :| w <= y && TickedAt(r, i, y);
  }

  lemma {:induction false} NeverFailed(r: History, i: nat, t: nat)
    requires Behaviour(r) && (forall u: nat :: SucceedsAt(r, u)) && i < r.n
    ensures SvcAt(r, i, t).state != SSStartFail
  {
    if t > 0 {
      NeverFailed(r, i, t - 1);
      assert SucceedsAt(r, t - 1);
    }
  }

  /** A run in which no hook throws and no Init fails keeps on, if nobody calls ShutDown(). */
  lemma SuccessKeepsOn(r: History, i: nat)
    requires Behaviour(r) && (forall t: nat :: SucceedsAt(r, t)) && (forall t: nat :: !SignalAt(r, t)) && i < r.n
    ensures KeepsOn(r, i)
  {
    forall t: nat ensures StepAt(r, t) && !SignalAt(r, t) && !FailsAt(r, i, t) {
      NeverFailed(r, i, t);
      assert SucceedsAt(r, t);
    }
  }
}
