/** What holds in every state that any interleaving reaches, for any number of services. */
module SchedulerSafety {
  import opened Services
  import opened Scheduler

  lemma {:induction false} ExecuteKeepsInv(w: World, ls: seq<Label>)
    requires Inv(w) && Feasible(w, ls)
    ensures Inv(Execute(w, ls)) && |Execute(w, ls).svcs| == |w.svcs|
    decreases |ls|
  {
    if ls != [] {
      StepKeepsInv(w, ls[0]);
      ExecuteKeepsInv(Next(w, ls[0]), ls[1..]);
    }
  }

  lemma RunInv(n: nat, ls: seq<Label>)
    requires Feasible(Initial(n), ls)
    ensures Inv(Execute(Initial(n), ls)) && |Execute(Initial(n), ls).svcs| == n
  {
    InitialInv(n);
    ExecuteKeepsInv(Initial(n), ls);
  }

  // ----- runs that throw --------------------------------------------------------------------------

  /** In this step a Run of service i ends with an exception: the hook it calls throws, or
      it finds the service in SS_START_FAIL. */
  ghost predicate RunFails(w: World, l: Label, i: nat)
    requires Enabled(w, l)
  {
    && l.Work? && l.i == i
    && match w.svcs[i].jobs[l.k]
       case InHook(_) => l.h.Throws?
       case Begun => w.svcs[i].state == SSStartFail
       case _ => false
  }

  ghost predicate ThrewIn(w: World, ls: seq<Label>, i: nat)
    requires Feasible(w, ls)
    decreases |ls|
  {
    ls != [] && (RunFails(w, ls[0], i) || ThrewIn(Next(w, ls[0]), ls[1..], i))
  }

  lemma StepThrows(w: World, l: Label, i: nat)
    requires Enabled(w, l) && i < |w.svcs|
    ensures |Next(w, l).svcs| == |w.svcs| && (Next(w, l).svcs[i].threw <==> w.svcs[i].threw || RunFails(w, l, i))
  {}

  lemma {:induction false} ThrewExactlyIf(w: World, ls: seq<Label>, i: nat)
    requires Feasible(w, ls) && i < |w.svcs|
    ensures |Execute(w, ls).svcs| == |w.svcs|
    ensures Execute(w, ls).svcs[i].threw <==> w.svcs[i].threw || ThrewIn(w, ls, i)
    decreases |ls|
  {
    if ls != [] {
      StepThrows(w, ls[0], i);
      ThrewExactlyIf(Next(w, ls[0]), ls[1..], i);
    }
  }

  /** Each service has at most one outstanding Run: none when ready, one waiting when
      scheduled.  When running, one is executing exactly if none of its Runs so far has
      ended with an exception. */
  lemma OneRunPerService(n: nat, ls: seq<Label>, i: nat)
    requires Feasible(Initial(n), ls) && i < n
    ensures |Execute(Initial(n), ls).svcs| == n
    ensures var s := Execute(Initial(n), ls).svcs[i];
            && |s.jobs| <= 1
            && (s.run == RSReady ==> s.jobs == [])
            && (s.run == RSSchedule ==> s.jobs == [Queued])
            && (s.run == RSRunning ==> ((|s.jobs| == 1 && s.jobs[0] != Queued) <==> !ThrewIn(Initial(n), ls, i)))
            && (ThrewIn(Initial(n), ls, i) ==> s.run == RSRunning && s.jobs == [])
  {
    RunInv(n, ls);
    assert JobsMatch(Execute(Initial(n), ls).svcs[i]);
    ThrewExactlyIf(Initial(n), ls, i);
  }

  ghost predicate RunsOf(ls: seq<Label>, i: nat) {
    exists l :: l in ls && l.Work? && l.i == i
  }

  lemma ThrewStays(w: World, l: Label, i: nat)
    requires Inv(w) && Enabled(w, l) && i < |w.svcs| && w.svcs[i].threw
    ensures |Next(w, l).svcs| == |w.svcs| && Next(w, l).svcs[i].threw && !(l.Work? && l.i == i)
  {
    assert JobsMatch(w.svcs[i]);
  }

  lemma {:induction false} ThrewForever(w: World, ls: seq<Label>, i: nat)
    requires Inv(w) && Feasible(w, ls) && i < |w.svcs| && w.svcs[i].threw
    ensures |Execute(w, ls).svcs| == |w.svcs|
    ensures Execute(w, ls).svcs[i].run == RSRunning && Execute(w, ls).svcs[i].jobs == []
    ensures !RunsOf(ls, i) && !Execute(w, ls).mgr.Done?
    decreases |ls|
  {
    if ls == [] {
      assert JobsMatch(w.svcs[i]) && Placed(w.mgr, i, w.svcs[i]);
    } else {
      ThrewStays(w, ls[0], i);
      StepKeepsInv(w, ls[0]);
      ThrewForever(Next(w, ls[0]), ls[1..], i);
      assert ls == [ls[0]] + ls[1..];
    }
  }

  /** After a Run of service i has ended with an exception, in whatever phase, the service
      is marked as running for good, it gets no further Run, and the manager does not return. */
  lemma ThrowIsForever(n: nat, ls: seq<Label>, more: seq<Label>, i: nat)
    requires Feasible(Initial(n), ls) && i < n && ThrewIn(Initial(n), ls, i)
    requires Feasible(Execute(Initial(n), ls), more)
    ensures var w := Execute(Execute(Initial(n), ls), more);
            |w.svcs| == n && w.svcs[i].run == RSRunning && w.svcs[i].jobs == [] && !w.mgr.Done?
    ensures !RunsOf(more, i)
  {
    RunInv(n, ls);
    ThrewExactlyIf(Initial(n), ls, i);
    ThrewForever(Execute(Initial(n), ls), more, i);
  }

  // ----- the order of events ------------------------------------------------------------------------

  /** States are set for the next phase only while no Run is outstanding. */
  lemma PhasesChangeOnEmptyPool(n: nat, ls: seq<Label>)
    requires Feasible(Initial(n), ls)
    ensures var w := Execute(Initial(n), ls);
            w.mgr.Setting? || w.mgr.Done? ==> PoolEmpty(w)
  {
    RunInv(n, ls);
  }

  /** Every Init precedes every tick, and every tick every Shutdown. */
  lemma EventsInOrder(n: nat, ls: seq<Label>, a: nat, b: nat)
    requires Feasible(Initial(n), ls) && a <= b < |Execute(Initial(n), ls).log|
    ensures var log := Execute(Initial(n), ls).log;
            Rank(log[a]) <= Rank(log[b])
  {
    RunInv(n, ls);
  }

  lemma OccursSomewhere(log: seq<Event>, e: Event) returns (a: nat)
    requires Occurs(log, e) > 0
    ensures a < |log| && log[a] == e
  {
    assert e in multiset(log);
    assert e in log;
    a :| a < |log| && log[a] == e;
  }

  /** Before the first tick of any service, Init of every service has been called exactly
      once and has returned true. */
  lemma InitsBeforeTicks(n: nat, ls: seq<Label>, b: nat, i: nat) returns (a: nat)
    requires Feasible(Initial(n), ls) && b < |Execute(Initial(n), ls).log| && i < n
    requires Execute(Initial(n), ls).log[b].TickCalled?
    ensures var log := Execute(Initial(n), ls).log;
            && a < b && log[a] == InitReturned(i, true)
            && Occurs(log, InitCalled(i)) == 1 && Occurs(log, InitReturned(i, true)) == 1
  {
    RunInv(n, ls);
    var w := Execute(Initial(n), ls);
    assert PhaseRank(w.mgr) >= Rank(w.log[b]) == 1;
    assert Placed(w.mgr, i, w.svcs[i]) && JobsMatch(w.svcs[i]) && Recorded(w.log, i, w.svcs[i]);
    a := OccursSomewhere(w.log, InitReturned(i, true));
  }

  /** Shutdown of a service is called at most once.  The manager returns only with every
      service initialised once, shut down once, and reporting that it is down. */
  lemma ShutdownOnce(n: nat, ls: seq<Label>, i: nat)
    requires Feasible(Initial(n), ls) && i < n
    ensures var w := Execute(Initial(n), ls);
            && |w.svcs| == n && Occurs(w.log, ShutdownCalled(i)) <= 1
            && (w.mgr.Done? ==>
                 && w.svcs[i].state == SSShutdownOk && w.svcs[i].jobs == []
                 && Occurs(w.log, ShutdownCalled(i)) == 1
                 && Occurs(w.log, InitCalled(i)) == 1 && Occurs(w.log, InitReturned(i, true)) == 1)
  {
    RunInv(n, ls);
    var w := Execute(Initial(n), ls);
    assert Placed(w.mgr, i, w.svcs[i]) && JobsMatch(w.svcs[i]) && Recorded(w.log, i, w.svcs[i]);
  }

  // ----- failures ---------------------------------------------------------------------------------

  /** Init returned false, or a Run threw before the service had started. */
  ghost predicate Stuck(s: Svc) {
    s.state == SSStartFail || (s.state == SSStartProcess && s.threw)
  }

  ghost predicate StartOpen(mgr: Manager) {
    (mgr.Ticking? || mgr.Checking?) && mgr.p == Starting
  }

  lemma StuckStays(w: World, l: Label, i: nat)
    requires Inv(w) && Enabled(w, l) && i < |w.svcs| && Stuck(w.svcs[i])
    ensures |Next(w, l).svcs| == |w.svcs|
    ensures Stuck(Next(w, l).svcs[i]) && (w.svcs[i].state == SSStartFail ==> Next(w, l).svcs[i].state == SSStartFail)
    ensures StartOpen(w.mgr) && StartOpen(Next(w, l).mgr)
  {
    assert Placed(w.mgr, i, w.svcs[i]) && JobsMatch(w.svcs[i]);
  }

  /** A service that failed to start stays failed and the start phase never closes. */
  lemma {:induction false} FailureIsForever(w: World, ls: seq<Label>, i: nat)
    requires Inv(w) && Feasible(w, ls) && i < |w.svcs| && Stuck(w.svcs[i])
    ensures |Execute(w, ls).svcs| == |w.svcs|
    ensures Stuck(Execute(w, ls).svcs[i]) && StartOpen(Execute(w, ls).mgr)
    ensures w.svcs[i].state == SSStartFail ==> Execute(w, ls).svcs[i].state == SSStartFail
    decreases |ls|
  {
    if ls == [] {
      StuckStays(w, Signal, i);
    } else {
      StuckStays(w, ls[0], i);
      StepKeepsInv(w, ls[0]);
      FailureIsForever(Next(w, ls[0]), ls[1..], i);
    }
  }

  // ----- what lets a service through the start and the shutdown --------------------------------------

  /** The service has started, or is down. */
  predicate Through(p: Phase, s: Svc) {
    s.state == SSShutdownOk || (p == Starting && s.state in {SSStartOk, SSRun, SSShutdown, SSShutdownProcess})
  }

  /** In this step IsStartOK, or IsShutdownOK, of service i answers true. */
  ghost predicate SaysYes(w: World, l: Label, p: Phase, i: nat)
    requires Enabled(w, l)
  {
    l.Work? && l.i == i && w.svcs[i].jobs[l.k] == InHook(Asking(p)) && l.h == Returns(true)
  }

  ghost predicate SaidYes(w: World, ls: seq<Label>, p: Phase, i: nat)
    requires Feasible(w, ls)
    decreases |ls|
  {
    ls != [] && (SaysYes(w, ls[0], p, i) || SaidYes(Next(w, ls[0]), ls[1..], p, i))
  }

  lemma AdvanceThrough(p: Phase, s: Svc, k: nat, h: Hook)
    requires p != Main && JobsMatch(s) && k < |s.jobs|
    ensures Through(p, Advance(s, k, h)) <==>
              Through(p, s) || (s.jobs[k] == InHook(Asking(p)) && h == Returns(true))
  {}

  lemma ManageThrough(w: World, need: bool, p: Phase, i: nat)
    requires Inv(w) && Enabled(w, Manage(need)) && p != Main && i < |w.svcs|
    ensures |ManageStep(w, need).svcs| == |w.svcs|
    ensures Through(p, ManageStep(w, need).svcs[i]) <==> Through(p, w.svcs[i])
  {
    assert Placed(w.mgr, i, w.svcs[i]);
  }

  lemma StepThrough(w: World, l: Label, p: Phase, i: nat)
    requires Inv(w) && Enabled(w, l) && p != Main && i < |w.svcs|
    ensures |Next(w, l).svcs| == |w.svcs|
    ensures Through(p, Next(w, l).svcs[i]) <==> Through(p, w.svcs[i]) || SaysYes(w, l, p, i)
  {
    match l
    case Manage(need) => ManageThrough(w, need, p, i);
    case Work(i', k, h) =>
      if i' == i {
        AdvanceThrough(p, w.svcs[i], k, h);
      }
    case Signal =>
  }

  /** A service has started exactly if its IsStartOK has answered true, and is down exactly
      if its IsShutdownOK has. */
  lemma {:induction false} ThroughExactlyIfSaid(w: World, ls: seq<Label>, p: Phase, i: nat)
    requires Inv(w) && Feasible(w, ls) && p != Main && i < |w.svcs|
    ensures |Execute(w, ls).svcs| == |w.svcs|
    ensures Through(p, Execute(w, ls).svcs[i]) <==> Through(p, w.svcs[i]) || SaidYes(w, ls, p, i)
    decreases |ls|
  {
    if ls != [] {
      StepThrough(w, ls[0], p, i);
      StepKeepsInv(w, ls[0]);
      ThroughExactlyIfSaid(Next(w, ls[0]), ls[1..], p, i);
    }
  }

  /** The steps of service i ask IsShutdownOK, if at all, of the base class. */
  ghost predicate AsksBase(w: World, l: Label, i: nat)
    requires Enabled(w, l)
  {
    l.Work? && l.i == i && w.svcs[i].jobs[l.k] == InHook(SSShutdownProcess) ==>
      l.h == Returns(BaseIsShutdownOk(w.svcs[i].state))
  }

  ghost predicate AlwaysAsksBase(w: World, ls: seq<Label>, i: nat)
    requires Feasible(w, ls)
    decreases |ls|
  {
    ls != [] ==> AsksBase(w, ls[0], i) && AlwaysAsksBase(Next(w, ls[0]), ls[1..], i)
  }

  lemma BaseSaysNothing(w: World, l: Label, i: nat)
    requires Inv(w) && Enabled(w, l) && i < |w.svcs| && AsksBase(w, l, i)
    ensures !SaysYes(w, l, Stopping, i) && i < |Next(w, l).svcs|
  {
    assert JobsMatch(w.svcs[i]);
  }

  lemma {:induction false} BaseNeverSaysDown(w: World, ls: seq<Label>, i: nat)
    requires Inv(w) && Feasible(w, ls) && i < |w.svcs| && AlwaysAsksBase(w, ls, i)
    ensures !SaidYes(w, ls, Stopping, i)
    decreases |ls|
  {
    if ls != [] {
      BaseSaysNothing(w, ls[0], i);
      StepKeepsInv(w, ls[0]);
      BaseNeverSaysDown(Next(w, ls[0]), ls[1..], i);
    }
  }

  /** One service with the base class's IsShutdownOK, whatever the others answer, never
      reports that it is down, and the manager does not return. */
  lemma BaseNeverStops(n: nat, ls: seq<Label>, i: nat)
    requires Feasible(Initial(n), ls) && i < n && AlwaysAsksBase(Initial(n), ls, i)
    ensures var w := Execute(Initial(n), ls);
            |w.svcs| == n && w.svcs[i].state != SSShutdownOk && !w.mgr.Done?
  {
    RunInv(n, ls);
    InitialInv(n);
    BaseNeverSaysDown(Initial(n), ls, i);
    ThroughExactlyIfSaid(Initial(n), ls, Stopping, i);
    var w := Execute(Initial(n), ls);
    assert Placed(w.mgr, i, w.svcs[i]);
  }

  lemma ExecuteOne(w: World, l: Label, rest: seq<Label>)
    requires Enabled(w, l) && Feasible(Next(w, l), rest)
    ensures Feasible(w, [l] + rest) && Execute(w, [l] + rest) == Execute(Next(w, l), rest)
  {
    assert ([l] + rest)[1..] == rest;
  }

  /** The three steps of a queued first run whose Init throws. */
  lemma InitThrows(w: World) returns (ls: seq<Label>)
    requires w.svcs == [Svc(RSSchedule, SSStart, [Queued], false, 0, 0)]
    ensures Feasible(w, ls) && Execute(w, ls).svcs == [Svc(RSRunning, SSStartProcess, [], true, 0, 0)]
  {
    var work := Work(0, 0, Throws);
    var w1, w2, w3 := Next(w, work), Next(Next(w, work), work), Next(Next(Next(w, work), work), work);
    assert [Queued][0 := Begun] == [Begun] && [Begun][0 := InHook(SSStart)] == [InHook(SSStart)];
    assert Without([InHook(SSStart)], 0) == [];
    ExecuteOne(w2, work, []);
    ExecuteOne(w1, work, [work] + []);
    ls := [work] + ([work] + ([work] + []));
    ExecuteOne(w, work, [work] + ([work] + []));
  }

  /** One service whose Init throws: it ends up marked as running with nothing executing. */
  lemma ThrowLeavesRunning() returns (ls: seq<Label>)
    ensures Feasible(Initial(1), ls)
    ensures Execute(Initial(1), ls).svcs == [Svc(RSRunning, SSStartProcess, [], true, 0, 0)]
  {
    var manage, w := Manage(true), Initial(1);
    var w1, w2, w3 := Next(w, manage), Next(Next(w, manage), manage), Next(Next(Next(w, manage), manage), manage);
    assert [] + [Queued] == [Queued];
    ls := InitThrows(w3);
    ExecuteOne(w2, manage, ls);
    ExecuteOne(w1, manage, [manage] + ls);
    ExecuteOne(w, manage, [manage] + ([manage] + ls));
    ls := [manage] + ([manage] + ([manage] + ls));
  }
}
