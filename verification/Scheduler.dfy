/** The manager thread and the pool's workers as interleaved atomic steps.  Any number
    of workers may run; a queued job may begin at any time, in any order. */
module Scheduler {
  import opened Services

  // ----- the state --------------------------------------------------------------------------

  datatype Phase = Starting | Main | Stopping

  /** The state a phase sets on every service when it opens. */
  function Opening(p: Phase): ServiceState {
    match p case Starting => SSStart case Main => SSRun case Stopping => SSShutdown
  }

  /** The state every service has when a phase closes. */
  function Closing(p: Phase): ServiceState {
    match p case Starting => SSStartOk case Main => SSRun case Stopping => SSShutdownOk
  }

  function Before(p: Phase): ServiceState {
    match p case Starting => SSNone case Main => SSStartOk case Stopping => SSRun
  }

  /** The state in which a phase asks each service whether it is through: IsStartOK when
      starting, IsShutdownOK when stopping. */
  function Asking(p: Phase): ServiceState {
    match p case Starting => SSStartProcess case Main => SSRun case Stopping => SSShutdownProcess
  }

  predicate InPhase(p: Phase, s: ServiceState) {
    match p
    case Starting => s in {SSStart, SSStartProcess, SSStartFail, SSStartOk}
    case Main => s == SSRun
    case Stopping => s in {SSShutdown, SSShutdownProcess, SSShutdownOk}
  }

  /** Where a scheduled Run of a service is: waiting in the pool, begun, inside the hook
      that its case of the switch calls, or about to return. */
  datatype Stage = Queued | Begun | InHook(from: ServiceState) | Leaving

  /** A service and its outstanding runs; and, as history, whether one of them threw and
      how often IsStartOK and IsShutdownOK have answered. */
  datatype Svc = Svc(run: RunningState, state: ServiceState, jobs: seq<Stage>,
                     threw: bool, startAsks: nat, stopAsks: nat)

  /** The manager thread: setting states, visiting services in Tick, reading states for
      the break condition, waiting for the pool; k is the next service. */
  datatype Manager =
    | Setting(p: Phase, k: nat)
    | Ticking(p: Phase, k: nat)
    | Checking(p: Phase, k: nat)
    | Draining(p: Phase)
    | Done

  datatype Event =
    | InitCalled(i: nat) | InitReturned(i: nat, ok: bool)
    | TickCalled(i: nat) | TickReturned(i: nat)
    | ShutdownCalled(i: nat) | ShutdownReturned(i: nat)

  datatype World = World(svcs: seq<Svc>, mgr: Manager, shutdown: bool, log: seq<Event>)

  function Initial(n: nat): World {
    World(seq(n, _ => Svc(RSReady, SSNone, [], false, 0, 0)), Setting(Starting, 0), false, [])
  }

  // ----- the steps ----------------------------------------------------------------------------

  /** Manage: the manager's next step; `need` answers NeedSchedule, which may be overridden.
      Work: run k of service i goes on; `h` is how its hook ends.  Signal: ShutDown(). */
  datatype Label = Manage(need: bool) | Work(i: nat, k: nat, h: Hook) | Signal

  ghost predicate PoolEmpty(w: World) {
    forall i :: 0 <= i < |w.svcs| ==> w.svcs[i].jobs == []
  }

  ghost predicate Enabled(w: World, l: Label) {
    match l
    case Manage(_) => !w.mgr.Done? && (w.mgr.Draining? ==> PoolEmpty(w))
    case Work(i, k, _) => i < |w.svcs| && k < |w.svcs[i].jobs|
    case Signal => true
  }

  function Without(jobs: seq<Stage>, k: nat): seq<Stage>
    requires k < |jobs|
  {
    jobs[..k] + jobs[k + 1..]
  }

  /** One visit of Tick. */
  function Visit(s: Svc, need: bool): Svc {
    if s.run == RSReady && need then s.(run := RSSchedule, jobs := s.jobs + [Queued]) else s
  }

  /** What the case of state `from` writes when its hook returns. */
  function Settle(from: ServiceState, current: ServiceState, ok: bool): ServiceState {
    if from == SSStart && !ok then SSStartFail
    else if from == SSStartProcess && ok then SSStartOk
    else if from == SSShutdownProcess && ok then SSShutdownOk
    else current
  }

  function Once(b: bool): nat {
    if b then 1 else 0
  }

  function Advance(s: Svc, k: nat, h: Hook): Svc
    requires k < |s.jobs|
  {
    match s.jobs[k]
    case Queued => s.(run := RSRunning, jobs := s.jobs[k := Begun])
    case Begun =>
      if s.state == SSStartFail then s.(jobs := Without(s.jobs, k), threw := true)
      else if CallsHook(s.state) then s.(state := Entered(s.state), jobs := s.jobs[k := InHook(s.state)])
      else s.(jobs := s.jobs[k := Leaving])
    case InHook(from) =>
      if h.Throws? then s.(jobs := Without(s.jobs, k), threw := true)
      else s.(state := Settle(from, s.state, h.ok), jobs := s.jobs[k := Leaving],
              startAsks := s.startAsks + Once(from == SSStartProcess),
              stopAsks := s.stopAsks + Once(from == SSShutdownProcess))
    case Leaving => s.(run := RSReady, jobs := Without(s.jobs, k))
  }

  function Events(i: nat, s: Svc, k: nat, h: Hook): seq<Event>
    requires k < |s.jobs|
  {
    match s.jobs[k]
    case Begun =>
      if s.state == SSStart then [InitCalled(i)]
      else if s.state == SSRun then [TickCalled(i)]
      else if s.state == SSShutdown then [ShutdownCalled(i)]
      else []
    case InHook(from) =>
      if h.Throws? then []
      else if from == SSStart then [InitReturned(i, h.ok)]
      else if from == SSRun then [TickReturned(i)]
      else if from == SSShutdown then [ShutdownReturned(i)]
      else []
    case _ => []
  }

  function NextPhase(p: Phase): Manager {
    match p case Starting => Setting(Main, 0) case Main => Setting(Stopping, 0) case Stopping => Done
  }

  function ManageStep(w: World, need: bool): World {
    var n := |w.svcs|;
    match w.mgr
    case Setting(p, k) =>
      if k < n then w.(svcs := w.svcs[k := w.svcs[k].(state := Opening(p))], mgr := Setting(p, k + 1))
      else w.(mgr := Ticking(p, 0))
    case Ticking(p, k) =>
      if k < n then w.(svcs := w.svcs[k := Visit(w.svcs[k], need)], mgr := Ticking(p, k + 1))
      else w.(mgr := Checking(p, 0))
    case Checking(p, k) =>
      if p == Main then w.(mgr := if w.shutdown then Draining(p) else Ticking(p, 0))
      else if k >= n then w.(mgr := Draining(p))
      else w.(mgr := if w.svcs[k].state == Closing(p) then Checking(p, k + 1) else Ticking(p, 0))
    case Draining(p) => w.(mgr := NextPhase(p))
    case Done => w
  }

  ghost function Next(w: World, l: Label): World
    requires Enabled(w, l)
  {
    match l
    case Manage(need) => ManageStep(w, need)
    case Work(i, k, h) =>
      w.(svcs := w.svcs[i := Advance(w.svcs[i], k, h)], log := w.log + Events(i, w.svcs[i], k, h))
    case Signal => w.(shutdown := true)
  }

  ghost predicate Feasible(w: World, ls: seq<Label>)
    decreases |ls|
  {
    ls != [] ==> Enabled(w, ls[0]) && Feasible(Next(w, ls[0]), ls[1..])
  }

  /** The world after the steps ls. */
  ghost function Execute(w: World, ls: seq<Label>): World
    requires Feasible(w, ls)
    decreases |ls|
  {
    if ls == [] then w else Execute(Next(w, ls[0]), ls[1..])
  }

  /** One job that nothing disturbs does to its service what Service.Run does. */
  lemma UndisturbedRun(s: Svc, h: Hook)
    requires s.jobs == [Queued] && !s.threw
    ensures var begun := Advance(s, 0, h);
            var entered := Advance(begun, 0, h);
            if RunThrows(s.state, h) then
              var last := if entered.jobs == [] then entered else Advance(entered, 0, h);
              last == s.(run := RSRunning, state := AfterRun(s.state, h), jobs := [], threw := true)
            else
              var last := if entered.jobs == [Leaving] then entered else Advance(entered, 0, h);
              && last.jobs == [Leaving]
              && Advance(last, 0, h) == s.(run := RSReady, state := AfterRun(s.state, h), jobs := [],
                                        startAsks := last.startAsks, stopAsks := last.stopAsks)
  {
    assert [Queued][0 := Begun] == [Begun];
    assert [Begun][0 := InHook(s.state)] == [InHook(s.state)];
    assert [Begun][0 := Leaving] == [Leaving] == [InHook(s.state)][0 := Leaving];
  }

  /** What a worker's step shows: a Run that begins in one of the states that call Init,
      Tick or Shutdown calls it, and a call that does not throw returns.  No step of a Run
      touches the manager or another service. */
  lemma WorkShows(w: World, i: nat, k: nat, h: Hook)
    requires Enabled(w, Work(i, k, h))
    ensures var s, w' := w.svcs[i], Next(w, Work(i, k, h));
            && w' == World(w.svcs[i := Advance(s, k, h)], w.mgr, w.shutdown, w'.log)
            && w'.log == w.log + match s.jobs[k]
                                 case Begun =>
                                   (match s.state
                                    case SSStart => [InitCalled(i)]
                                    case SSRun => [TickCalled(i)]
                                    case SSShutdown => [ShutdownCalled(i)]
                                    case _ => [])
                                 case InHook(from) =>
                                   (match from
                                    case SSStart => if h.Throws? then [] else [InitReturned(i, h.ok)]
                                    case SSRun => if h.Throws? then [] else [TickReturned(i)]
                                    case SSShutdown => if h.Throws? then [] else [ShutdownReturned(i)]
                                    case _ => [])
                                 case _ => []
  {}

  /** The rest of a tick that nothing disturbs, with the base class's NeedSchedule. */
  ghost function FinishTick(w: World): World
    requires w.mgr.Ticking? && w.mgr.k <= |w.svcs|
    decreases |w.svcs| - w.mgr.k
  {
    if w.mgr.k == |w.svcs| then w else FinishTick(ManageStep(w, NeedSchedule(w.svcs[w.mgr.k].state)))
  }

  /** It does to each service what ServiceManager.Tick does: exactly those that are ready
      and want to run get one run more. */
  lemma {:induction false} UndisturbedTick(w: World, i: nat)
    requires w.mgr.Ticking? && w.mgr.k <= i < |w.svcs|
    ensures |FinishTick(w).svcs| == |w.svcs|
    ensures var s, s' := w.svcs[i], FinishTick(w).svcs[i];
            s' == if s.run == RSReady && s.state != SSNone && s.state != SSShutdownOk
                  then s.(run := RSSchedule, jobs := s.jobs + [Queued]) else s
    decreases |w.svcs| - w.mgr.k
  {
    var w' := ManageStep(w, NeedSchedule(w.svcs[w.mgr.k].state));
    if w.mgr.k == i {
      VisitedStays(w', i);
    } else {
      UndisturbedTick(w', i);
    }
  }

  lemma {:induction false} VisitedStays(w: World, i: nat)
    requires w.mgr.Ticking? && i < w.mgr.k <= |w.svcs|
    ensures |FinishTick(w).svcs| == |w.svcs| && FinishTick(w).svcs[i] == w.svcs[i]
    decreases |w.svcs| - w.mgr.k
  {
    if w.mgr.k < |w.svcs| {
      VisitedStays(ManageStep(w, NeedSchedule(w.svcs[w.mgr.k].state)), i);
    }
  }

  /** The rest of an undisturbed reading of the states. */
  ghost function FinishCheck(w: World): World
    requires w.mgr.Checking? && w.mgr.p != Main && w.mgr.k <= |w.svcs|
    decreases |w.svcs| - w.mgr.k
  {
    var w' := ManageStep(w, true);
    if w'.mgr.Checking? then FinishCheck(w') else w'
  }

  /** It ends the loop exactly if RunLogicBreakCondition holds, else ticks again. */
  lemma {:induction false} UndisturbedCheck(w: World)
    requires w.mgr.Checking? && w.mgr.p != Main && w.mgr.k <= |w.svcs|
    ensures FinishCheck(w) == w.(mgr := if forall i :: w.mgr.k <= i < |w.svcs| ==> w.svcs[i].state == Closing(w.mgr.p)
                                        then Draining(w.mgr.p) else Ticking(w.mgr.p, 0))
    decreases |w.svcs| - w.mgr.k
  {
    if w.mgr.k < |w.svcs| && w.svcs[w.mgr.k].state == Closing(w.mgr.p) {
      UndisturbedCheck(ManageStep(w, true));
    }
  }

  // ----- the invariant ----------------------------------------------------------------------------

  /** Running state and outstanding runs: none when ready, one in the queue when
      scheduled, one begun when running, unless that one threw. */
  ghost predicate JobsMatch(s: Svc) {
    && (s.threw ==> s.state != SSShutdownOk)
    && (s.state in {SSNone, SSStart} ==> s.startAsks == 0)
    && (s.state !in {SSShutdownProcess, SSShutdownOk} ==> s.stopAsks == 0)
    && match s.run
    case RSReady => s.jobs == [] && !s.threw
    case RSSchedule => s.jobs == [Queued] && !s.threw
    case RSRunning =>
      if s.threw then s.jobs == [] else |s.jobs| == 1 && !s.jobs[0].Queued? && HookMatches(s.jobs[0], s.state)
  }

  /** A run inside a hook has written the state first; a leaving one has acted on
      SS_START and SS_SHUTDOWN. */
  ghost predicate HookMatches(j: Stage, s: ServiceState) {
    && (j.InHook? ==> CallsHook(j.from) && s == Entered(j.from))
    && (j.Leaving? ==> s !in {SSStart, SSShutdown})
  }

  /** How far the manager has brought service i. */
  ghost predicate Placed(mgr: Manager, i: nat, s: Svc) {
    match mgr
    case Setting(p, k) => s.jobs == [] && s.state == if i < k then Opening(p) else Before(p)
    case Ticking(p, _) => InPhase(p, s.state)
    case Checking(p, k) => InPhase(p, s.state) && (i < k ==> s.state == Closing(p))
    case Draining(p) => s.state == Closing(p)
    case Done => s.jobs == [] && s.state == SSShutdownOk
  }

  ghost function Occurs(log: seq<Event>, e: Event): nat {
    multiset(log)[e]
  }

  lemma OccursAppend(log: seq<Event>, more: seq<Event>, e: Event)
    ensures Occurs(log + more, e) == Occurs(log, e) + Occurs(more, e)
  {
    assert multiset(log + more) == multiset(log) + multiset(more);
  }

  lemma OccursOnly(more: seq<Event>, e: Event)
    ensures more == [] ==> Occurs(more, e) == 0
    ensures |more| == 1 ==> Occurs(more, e) == if more[0] == e then 1 else 0
    ensures e !in more ==> Occurs(more, e) == 0
  {
    if |more| == 1 {
      assert more == [more[0]];
    }
  }

  /** Whether Init of the service has returned true. */
  ghost predicate Initialised(s: Svc) {
    && s.state !in {SSNone, SSStart, SSStartFail}
    && !(s.state == SSStartProcess && s.jobs == [InHook(SSStart)])
  }

  /** How often Init, a successful Init and Shutdown can have been seen in state s. */
  ghost predicate Counts(s: Svc, called: nat, succeeded: nat, stopped: nat) {
    && called == (if s.state in {SSNone, SSStart} then 0 else 1)
    && succeeded <= called
    && (!(s.state == SSStartProcess && s.threw) ==> succeeded == if Initialised(s) then 1 else 0)
    && stopped == (if s.state in {SSShutdownProcess, SSShutdownOk} then 1 else 0)
  }

  ghost predicate Recorded(log: seq<Event>, i: nat, s: Svc) {
    Counts(s, Occurs(log, InitCalled(i)), Occurs(log, InitReturned(i, true)), Occurs(log, ShutdownCalled(i)))
  }

  function Rank(e: Event): nat {
    if e.InitCalled? || e.InitReturned? then 0 else if e.TickCalled? || e.TickReturned? then 1 else 2
  }

  function PhaseRank(mgr: Manager): nat {
    if mgr.Done? then 2 else match mgr.p case Starting => 0 case Main => 1 case Stopping => 2
  }

  /** Inits first, then ticks, then shutdowns; none of a later kind than the phase. */
  ghost predicate Ordered(log: seq<Event>, mgr: Manager) {
    && (forall a, b :: 0 <= a <= b < |log| ==> Rank(log[a]) <= Rank(log[b]))
    && (forall a :: 0 <= a < |log| ==> Rank(log[a]) <= PhaseRank(mgr))
  }

  /** The manager has left the loop of the run phase. */
  predicate PastMain(mgr: Manager) {
    mgr.Done? || mgr.p == Stopping || mgr == Draining(Main)
  }

  ghost predicate Inv(w: World) {
    && (forall i :: 0 <= i < |w.svcs| ==> JobsMatch(w.svcs[i]))
    && (forall i :: 0 <= i < |w.svcs| ==> Placed(w.mgr, i, w.svcs[i]))
    && (forall i :: 0 <= i < |w.svcs| ==> Recorded(w.log, i, w.svcs[i]))
    && Ordered(w.log, w.mgr)
    && (PastMain(w.mgr) ==> w.shutdown)
    && (w.mgr.Setting? || w.mgr.Ticking? || w.mgr.Checking? ==> w.mgr.k <= |w.svcs|)
  }

  lemma InitialInv(n: nat)
    ensures Inv(Initial(n))
  {}

  /** A step of a run keeps its service in line with the phase, and logs nothing that
      does not belong to it. */
  lemma AdvanceKeeps(mgr: Manager, i: nat, s: Svc, k: nat, h: Hook)
    requires JobsMatch(s) && Placed(mgr, i, s) && k < |s.jobs|
    ensures JobsMatch(Advance(s, k, h)) && Placed(mgr, i, Advance(s, k, h))
    ensures |Events(i, s, k, h)| <= 1
    ensures forall e :: e in Events(i, s, k, h) ==> e.i == i && Rank(e) == PhaseRank(mgr)
  {
    AdvanceMatches(s, k, h);
  }

  lemma AdvanceMatches(s: Svc, k: nat, h: Hook)
    requires JobsMatch(s) && k < |s.jobs|
    ensures JobsMatch(Advance(s, k, h))
  {}

  lemma CountsKept(s: Svc, k: nat, h: Hook, called: nat, succeeded: nat, stopped: nat)
    requires JobsMatch(s) && k < |s.jobs| && Counts(s, called, succeeded, stopped)
    ensures Counts(Advance(s, k, h),
                   called + Once(s.jobs[k] == Begun && s.state == SSStart),
                   succeeded + Once(s.jobs[k] == InHook(SSStart) && h == Returns(true)),
                   stopped + Once(s.jobs[k] == Begun && s.state == SSShutdown))
  {}

  lemma RecordKept(log: seq<Event>, i: nat, s: Svc, k: nat, h: Hook)
    requires JobsMatch(s) && k < |s.jobs| && Recorded(log, i, s)
    ensures Recorded(log + Events(i, s, k, h), i, Advance(s, k, h))
  {
    var more := Events(i, s, k, h);
    CountsKept(s, k, h, Occurs(log, InitCalled(i)), Occurs(log, InitReturned(i, true)), Occurs(log, ShutdownCalled(i)));
    OccursAppend(log, more, InitCalled(i));
    OccursAppend(log, more, InitReturned(i, true));
    OccursAppend(log, more, ShutdownCalled(i));
    OccursOnly(more, InitCalled(i));
    OccursOnly(more, InitReturned(i, true));
    OccursOnly(more, ShutdownCalled(i));
  }

  lemma OthersRecorded(log: seq<Event>, more: seq<Event>, i: nat, j: nat, s: Svc)
    requires i != j && Recorded(log, j, s) && forall e :: e in more ==> e.i == i
    ensures Recorded(log + more, j, s)
  {
    OccursAppend(log, more, InitCalled(j));
    OccursAppend(log, more, InitReturned(j, true));
    OccursAppend(log, more, ShutdownCalled(j));
    OccursOnly(more, InitCalled(j));
    OccursOnly(more, InitReturned(j, true));
    OccursOnly(more, ShutdownCalled(j));
  }

  lemma OrderKept(log: seq<Event>, more: seq<Event>, mgr: Manager)
    requires Ordered(log, mgr) && |more| <= 1 && forall e :: e in more ==> Rank(e) == PhaseRank(mgr)
    ensures Ordered(log + more, mgr)
  {}

  lemma WorkKeepsInv(w: World, i: nat, k: nat, h: Hook)
    requires Inv(w) && Enabled(w, Work(i, k, h))
    ensures Inv(Next(w, Work(i, k, h)))
  {
    var s, more := w.svcs[i], Events(i, w.svcs[i], k, h);
    AdvanceKeeps(w.mgr, i, s, k, h);
    RecordKept(w.log, i, s, k, h);
    OrderKept(w.log, more, w.mgr);
    forall j | 0 <= j < |w.svcs| && j != i ensures Recorded(w.log + more, j, w.svcs[j]) {
      OthersRecorded(w.log, more, i, j, w.svcs[j]);
    }
  }

  lemma SetKeeps(log: seq<Event>, p: Phase, k: nat, s: Svc)
    requires JobsMatch(s) && Placed(Setting(p, k), k, s) && Recorded(log, k, s)
    ensures var s' := s.(state := Opening(p));
            JobsMatch(s') && Placed(Setting(p, k + 1), k, s') && Recorded(log, k, s')
  {}

  lemma VisitKeeps(log: seq<Event>, mgr: Manager, i: nat, s: Svc, need: bool)
    requires mgr.Ticking? && JobsMatch(s) && Placed(mgr, i, s) && Recorded(log, i, s)
    ensures var s' := Visit(s, need);
            JobsMatch(s') && Placed(mgr, i, s') && Recorded(log, i, s')
  {
    assert [] + [Queued] == [Queued];
  }

  /** Closing one phase with an empty pool is opening the next. */
  lemma PhaseChange(p: Phase, i: nat, s: Svc)
    requires Placed(Draining(p), i, s) && s.jobs == []
    ensures Placed(NextPhase(p), i, s)
  {}

  lemma SettingKeepsInv(w: World, need: bool)
    requires Inv(w) && w.mgr.Setting?
    ensures Inv(ManageStep(w, need))
  {
    var p, k := w.mgr.p, w.mgr.k;
    if k < |w.svcs| {
      SetKeeps(w.log, p, k, w.svcs[k]);
    }
  }

  lemma TickingKeepsInv(w: World, need: bool)
    requires Inv(w) && w.mgr.Ticking?
    ensures Inv(ManageStep(w, need))
  {
    var k := w.mgr.k;
    if k < |w.svcs| {
      VisitKeeps(w.log, w.mgr, k, w.svcs[k], need);
    }
  }

  lemma ManageKeepsInv(w: World, need: bool)
    requires Inv(w) && Enabled(w, Manage(need))
    ensures Inv(ManageStep(w, need))
  {
    match w.mgr
    case Setting(_, _) => SettingKeepsInv(w, need);
    case Ticking(_, _) => TickingKeepsInv(w, need);
    case Checking(_, _) => CheckingKeepsInv(w, need);
    case Draining(p) =>
      forall i | 0 <= i < |w.svcs| ensures Placed(NextPhase(p), i, w.svcs[i]) {
        PhaseChange(p, i, w.svcs[i]);
      }
  }

  lemma CheckingKeepsInv(w: World, need: bool)
    requires Inv(w) && w.mgr.Checking?
    ensures Inv(ManageStep(w, need))
  {
    var v := ManageStep(w, need);
    assert v == w.(mgr := v.mgr) && PhaseRank(v.mgr) == PhaseRank(w.mgr);
    forall i | 0 <= i < |w.svcs| ensures Placed(v.mgr, i, w.svcs[i]) {
      CheckPlaces(w.mgr, |w.svcs|, w.shutdown, i, w.svcs);
    }
  }

  /** Reading the states one by one: each closing state already read stays one. */
  lemma CheckPlaces(mgr: Manager, n: nat, shutdown: bool, i: nat, svcs: seq<Svc>)
    requires mgr.Checking? && i < n == |svcs| && mgr.k <= n && Placed(mgr, i, svcs[i])
    ensures Placed(ManageStep(World(svcs, mgr, shutdown, []), true).mgr, i, svcs[i])
  {}

  lemma StepKeepsInv(w: World, l: Label)
    requires Inv(w) && Enabled(w, l)
    ensures Inv(Next(w, l))
  {
    match l
    case Manage(need) => ManageKeepsInv(w, need);
    case Work(i, k, h) => WorkKeepsInv(w, i, k, h);
    case Signal =>
  }
}
