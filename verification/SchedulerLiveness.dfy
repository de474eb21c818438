/** The manager's thread makes progress: under a fair scheduler each phase closes if its
    hooks cooperate. */
module SchedulerLiveness {
  import opened Services
  import opened Scheduler

  // ----- endless runs ------------------------------------------------------------------------

  /** What IsStartOK, for the start phase, and IsShutdownOK, for the shutdown phase, of
      service i answers when it is asked for the a-th time. */
  type Answers = (Phase, nat, nat) -> bool

  /** An endless run of n services: the worlds, the steps between them, and what those two
      hooks answer. */
  datatype History = History(world: nat -> World, step: nat -> Label, n: nat, answer: Answers)

  ghost predicate StepAt(r: History, t: nat) {
    Enabled(r.world(t), r.step(t)) && r.world(t + 1) == Next(r.world(t), r.step(t))
  }

  ghost predicate Behaviour(r: History) {
    && r.world(0) == Initial(r.n)
    && (forall t: nat :: |r.world(t).svcs| == r.n)
    && (forall t: nat :: StepAt(r, t))
  }

  /** The manager moves at step u, or cannot. */
  ghost predicate ManagerTurn(r: History, u: nat) {
    r.step(u).Manage? || !Enabled(r.world(u), Manage(true))
  }

  /** A Run of service i goes on at step u, or there is none. */
  ghost predicate WorkerTurn(r: History, i: nat, u: nat)
    requires i < |r.world(u).svcs|
  {
    (r.step(u).Work? && r.step(u).i == i) || r.world(u).svcs[i].jobs == []
  }

  ghost predicate ManagerTurnAfter(r: History, t: nat) {
    exists u: nat :: t <= u && ManagerTurn(r, u)
  }

  ghost predicate WorkerTurnAfter(r: History, i: nat, t: nat)
    requires i < r.n && forall u: nat :: |r.world(u).svcs| == r.n
  {
    exists u: nat :: t <= u && WorkerTurn(r, i, u)
  }

  /** Nobody who can move is passed over for ever. */
  ghost predicate FairRun(r: History) {
    && Behaviour(r)
    && (forall t: nat :: ManagerTurnAfter(r, t))
    && (forall i: nat, t: nat | i < r.n :: WorkerTurnAfter(r, i, t))
  }

  // ----- what the hooks answer ---------------------------------------------------------------

  /** How often the hook of phase p has answered. */
  function Asked(p: Phase, s: Svc): nat {
    match p case Starting => s.startAsks case Main => 0 case Stopping => s.stopAsks
  }

  /** IsStartOK and IsShutdownOK answer as `answer` has it. */
  ghost predicate Answered(w: World, l: Label, answer: Answers)
    requires Enabled(w, l)
  {
    l.Work? && l.h.Returns? ==>
      var s := w.svcs[l.i];
      && (s.jobs[l.k] == InHook(SSStartProcess) ==> l.h.ok == answer(Starting, l.i, s.startAsks))
      && (s.jobs[l.k] == InHook(SSShutdownProcess) ==> l.h.ok == answer(Stopping, l.i, s.stopAsks))
  }

  /** No hook throws in this step, and Init does not report failure. */
  ghost predicate Succeeds(w: World, l: Label)
    requires Enabled(w, l)
  {
    l.Work? && w.svcs[l.i].jobs[l.k].InHook? ==>
      l.h.Returns? && (w.svcs[l.i].jobs[l.k].from == SSStart ==> l.h.ok)
  }

  ghost predicate AnsweredAt(r: History, t: nat) {
    StepAt(r, t) && Answered(r.world(t), r.step(t), r.answer)
  }

  ghost predicate SucceedsAt(r: History, t: nat) {
    StepAt(r, t) && Succeeds(r.world(t), r.step(t))
  }

  ghost predicate SignalAt(r: History, t: nat) {
    r.step(t).Signal?
  }

  predicate InPhaseNow(p: Phase, w: World) {
    !w.mgr.Done? && w.mgr.p == p
  }

  /** Of the other phases nothing is assumed. */
  ghost predicate HooksAt(r: History, p: Phase, t: nat) {
    StepAt(r, t) && (InPhaseNow(p, r.world(t)) ==> AnsweredAt(r, t) && SucceedsAt(r, t))
  }

  /** The hook of service i in phase p answers true when asked often enough. */
  ghost predicate Relents(answer: Answers, p: Phase, i: nat) {
    exists a: nat :: answer(p, i, a)
  }

  ghost predicate AllRelent(r: History, p: Phase) {
    forall i: nat :: i < r.n ==> Relents(r.answer, p, i)
  }

  ghost function Patience(answer: Answers, p: Phase, i: nat): (a: nat)
    ensures Relents(answer, p, i) ==> answer(p, i, a)
  {
    if Relents(answer, p, i) then var a: nat :| answer(p, i, a); a else 0
  }

  /** The manager's tick asks service i at step t whether it wants to run. */
  ghost predicate Visits(r: History, i: nat, t: nat) {
    r.world(t).mgr.Ticking? && r.world(t).mgr.k == i && r.step(t).Manage?
  }

  ghost predicate VisitAfter(r: History, i: nat, t: nat) {
    exists v: nat :: t <= v && Visits(r, i, v)
  }

  /** NeedSchedule answers true, or would answer false in the base class. */
  ghost predicate Accepts(r: History, i: nat, t: nat)
    requires i < |r.world(t).svcs|
  {
    Visits(r, i, t) && (NeedSchedule(r.world(t).svcs[i].state) ==> r.step(t).need)
  }

  ghost predicate AcceptsAfter(r: History, i: nat, t: nat)
    requires i < r.n && forall u: nat :: |r.world(u).svcs| == r.n
  {
    exists v: nat :: t <= v && Accepts(r, i, v)
  }

  /** A NeedSchedule that is asked again and again does not always put its service off. */
  ghost predicate NeedsRecur(r: History)
    requires forall u: nat :: |r.world(u).svcs| == r.n
  {
    forall i: nat, t: nat | i < r.n :: (forall u: nat :: t <= u ==> VisitAfter(r, i, u)) ==> AcceptsAfter(r, i, t)
  }

  /** What a fair run needs in order to get through phase p. */
  ghost predicate Cooperates(r: History, p: Phase) {
    && (forall t: nat :: HooksAt(r, p, t))
    && (p == Main ==> exists t: nat :: SignalAt(r, t))
    && (p != Main ==> AllRelent(r, p))
  }

  // ----- the measures ------------------------------------------------------------------------

  function InProcess(p: Phase, jobs: seq<Stage>): nat {
    if jobs == [InHook(Opening(p))] then 6
    else if jobs == [Leaving] then 5
    else if jobs == [] then 4
    else if jobs == [Queued] then 3
    else if jobs == [Begun] then 2
    else 1
  }

  /** Steps of phase p a service still has to make, when its hook says yes no later than at
      answer m. */
  function Remaining(p: Phase, m: nat, s: Svc): nat {
    if s.state == Closing(p) then 0
    else
      (if Asked(p, s) <= m then 5 * (m - Asked(p, s)) else 0)
      + if s.state == Before(p) then 10
        else if s.state == Opening(p) then match s.run case RSReady => 9 case RSSchedule => 8 case RSRunning => 7
        else InProcess(p, s.jobs)
  }

  /** Steps of its outstanding run. */
  function Pending(s: Svc): nat {
    if s.jobs == [] then 0
    else match s.jobs[0] case Queued => 4 case Begun => 3 case InHook(_) => 2 case Leaving => 1
  }

  function Sum(xs: seq<nat>): nat {
    if xs == [] then 0 else xs[0] + Sum(xs[1..])
  }

  lemma {:induction false} SumUpdate(xs: seq<nat>, i: nat, x: nat)
    requires i < |xs|
    ensures Sum(xs[i := x]) + xs[i] == Sum(xs) + x
    decreases |xs|
  {
    if i == 0 {
      assert xs[0 := x][1..] == xs[1..];
    } else {
      SumUpdate(xs[1..], i - 1, x);
      assert xs[i := x][1..] == xs[1..][i - 1 := x];
    }
  }

  lemma {:induction false} SumPositive(xs: seq<nat>) returns (i: nat)
    requires Sum(xs) > 0
    ensures i < |xs| && xs[i] > 0
    decreases |xs|
  {
    if xs[0] > 0 {
      i := 0;
    } else {
      i := SumPositive(xs[1..]);
      i := i + 1;
    }
  }

  lemma {:induction false} SumZero(xs: seq<nat>, i: nat)
    requires Sum(xs) == 0 && i < |xs|
    ensures xs[i] == 0
    decreases |xs|
  {
    if i > 0 {
      SumZero(xs[1..], i - 1);
    }
  }

  ghost function Left(r: History, p: Phase, i: nat, s: Svc): nat {
    Remaining(p, Patience(r.answer, p, i), s)
  }

  ghost function Lefts(r: History, p: Phase, svcs: seq<Svc>): seq<nat> {
    seq(|svcs|, i requires 0 <= i < |svcs| => Left(r, p, i, svcs[i]))
  }

  ghost function Pendings(svcs: seq<Svc>): seq<nat> {
    seq(|svcs|, i requires 0 <= i < |svcs| => Pending(svcs[i]))
  }

  /** Steps of phase p before all services are where it takes them. */
  ghost function Unfinished(r: History, p: Phase, w: World): nat {
    Sum(Lefts(r, p, w.svcs))
  }

  ghost function Outstanding(w: World): nat {
    Sum(Pendings(w.svcs))
  }

  lemma UnfinishedUpdate(r: History, p: Phase, w: World, v: World, i: nat, s: Svc)
    requires i < |w.svcs| && v.svcs == w.svcs[i := s]
    ensures Unfinished(r, p, v) + Left(r, p, i, w.svcs[i]) == Unfinished(r, p, w) + Left(r, p, i, s)
  {
    SumUpdate(Lefts(r, p, w.svcs), i, Left(r, p, i, s));
    assert Lefts(r, p, v.svcs) == Lefts(r, p, w.svcs)[i := Left(r, p, i, s)];
  }

  lemma OutstandingUpdate(w: World, v: World, i: nat, s: Svc)
    requires i < |w.svcs| && v.svcs == w.svcs[i := s]
    ensures Outstanding(v) + Pending(w.svcs[i]) == Outstanding(w) + Pending(s)
  {
    SumUpdate(Pendings(w.svcs), i, Pending(s));
    assert Pendings(v.svcs) == Pendings(w.svcs)[i := Pending(s)];
  }

  /** Manager steps before it visits service i, which is not yet finished. */
  function Distance(mgr: Manager, i: nat, n: nat): nat
    requires i < n
  {
    match mgr
    case Setting(_, k) => 4 * n + 6 + if k <= n then n - k else 0
    case Ticking(_, k) => if k <= i then i - k else if k <= n then n - k + 2 * i + 3 else 0
    case Checking(_, k) => if k <= i then 2 * i + 1 - k else 0
    case _ => 0
  }

  /** Manager steps before it waits for the pool, once all services are finished. */
  function ToDrain(mgr: Manager, n: nat): nat {
    match mgr
    case Setting(_, k) => 2 * n + 4 + if k <= n then n - k else 0
    case Ticking(_, k) => n + 2 + if k <= n then n - k else 0
    case Checking(_, k) => 1 + if k <= n then n - k else 0
    case _ => 0
  }

  // ----- one step of a phase ---------------------------------------------------------------------

  /** No Run of the service has failed, and its hook has not been asked too often. */
  predicate Sound(p: Phase, m: nat, s: Svc) {
    !s.threw && s.state != SSStartFail && (s.state == Asking(p) ==> Asked(p, s) <= m)
  }

  ghost predicate Good(r: History, p: Phase, w: World) {
    && Inv(w) && InPhaseNow(p, w)
    && forall i: nat :: i < |w.svcs| ==> Sound(p, Patience(r.answer, p, i), w.svcs[i])
  }

  /** The hook called by run k, if any, returns; Init says yes, and the hook of phase p does
      at answer m. */
  predicate HookHelps(p: Phase, s: Svc, k: nat, h: Hook, m: nat)
    requires k < |s.jobs|
  {
    s.jobs[k].InHook? ==>
      && h.Returns?
      && (s.jobs[k].from == SSStart ==> h.ok)
      && (p != Main && s.jobs[k].from == Asking(p) && Asked(p, s) == m ==> h.ok)
  }

  lemma WorkSound(p: Phase, mgr: Manager, i: nat, s: Svc, k: nat, h: Hook, m: nat)
    requires JobsMatch(s) && Placed(mgr, i, s) && !mgr.Done? && mgr.p == p && k < |s.jobs|
    requires Sound(p, m, s) && HookHelps(p, s, k, h, m)
    ensures Sound(p, m, Advance(s, k, h)) && Pending(Advance(s, k, h)) < Pending(s)
  {
    assert |s.jobs| == 1 && s.jobs == [s.jobs[0]];
  }

  /** A worker's step brings its service nearer to the end of the phase. */
  lemma WorkFalls(p: Phase, mgr: Manager, i: nat, s: Svc, k: nat, h: Hook, m: nat)
    requires JobsMatch(s) && Placed(mgr, i, s) && !mgr.Done? && mgr.p == p && k < |s.jobs|
    requires Sound(p, m, s) && HookHelps(p, s, k, h, m)
    ensures var s' := Advance(s, k, h);
            if Remaining(p, m, s) == 0 then Remaining(p, m, s') == 0 else Remaining(p, m, s') < Remaining(p, m, s)
  {
    assert |s.jobs| == 1 && s.jobs == [s.jobs[0]];
    assert s.jobs[k := Begun] == [Begun] && s.jobs[k := Leaving] == [Leaving] && Without(s.jobs, k) == [];
    assert s.jobs[k := InHook(s.state)] == [InHook(s.state)];
  }

  lemma HooksHelp(r: History, p: Phase, w: World, i: nat, k: nat, h: Hook)
    requires Good(r, p, w) && Enabled(w, Work(i, k, h)) && (p != Main ==> Relents(r.answer, p, i))
    requires Answered(w, Work(i, k, h), r.answer) && Succeeds(w, Work(i, k, h))
    ensures HookHelps(p, w.svcs[i], k, h, Patience(r.answer, p, i))
  {}

  lemma WorkStep(r: History, p: Phase, w: World, i: nat, k: nat, h: Hook)
    requires Good(r, p, w) && Enabled(w, Work(i, k, h)) && HookHelps(p, w.svcs[i], k, h, Patience(r.answer, p, i))
    ensures var w' := Next(w, Work(i, k, h));
            && Outstanding(w') < Outstanding(w)
            && (if Left(r, p, i, w.svcs[i]) == 0 then Unfinished(r, p, w') == Unfinished(r, p, w)
                else Unfinished(r, p, w') < Unfinished(r, p, w))
  {
    var s, m, w' := w.svcs[i], Patience(r.answer, p, i), Next(w, Work(i, k, h));
    WorkSound(p, w.mgr, i, s, k, h, m);
    WorkFalls(p, w.mgr, i, s, k, h, m);
    UnfinishedUpdate(r, p, w, w', i, Advance(s, k, h));
    OutstandingUpdate(w, w', i, Advance(s, k, h));
  }

  lemma WorkStays(r: History, p: Phase, w: World, i: nat, k: nat, h: Hook)
    requires Good(r, p, w) && Enabled(w, Work(i, k, h)) && HookHelps(p, w.svcs[i], k, h, Patience(r.answer, p, i))
    ensures Good(r, p, Next(w, Work(i, k, h))) && Next(w, Work(i, k, h)).mgr == w.mgr
  {
    StepKeepsInv(w, Work(i, k, h));
    WorkSound(p, w.mgr, i, w.svcs[i], k, h, Patience(r.answer, p, i));
  }

  /** What one visit does to a service that has not finished. */
  lemma VisitFalls(p: Phase, m: nat, s: Svc, i: nat, need: bool)
    requires JobsMatch(s) && Placed(Ticking(p, i), i, s) && Sound(p, m, s)
    ensures Remaining(p, m, Visit(s, need)) <= Remaining(p, m, s) && Sound(p, m, Visit(s, need))
    ensures Remaining(p, m, s) > 0 && s.jobs == [] && need ==> Remaining(p, m, Visit(s, need)) < Remaining(p, m, s)
  {
    assert [] + [Queued] == [Queued];
  }

  lemma SetFalls(p: Phase, m: nat, s: Svc, k: nat)
    requires JobsMatch(s) && Placed(Setting(p, k), k, s) && Sound(p, m, s)
    ensures Remaining(p, m, s.(state := Opening(p))) < Remaining(p, m, s) && Sound(p, m, s.(state := Opening(p)))
  {}

  lemma SettingStep(r: History, p: Phase, w: World, need: bool)
    requires Good(r, p, w) && w.mgr.Setting?
    ensures Good(r, p, ManageStep(w, need)) && Unfinished(r, p, ManageStep(w, need)) <= Unfinished(r, p, w)
    ensures w.mgr.k < |w.svcs| ==> Unfinished(r, p, ManageStep(w, need)) < Unfinished(r, p, w)
  {
    StepKeepsInv(w, Manage(need));
    var k, w' := w.mgr.k, ManageStep(w, need);
    if k < |w.svcs| {
      assert JobsMatch(w.svcs[k]) && Placed(w.mgr, k, w.svcs[k]);
      SetFalls(p, Patience(r.answer, p, k), w.svcs[k], k);
      UnfinishedUpdate(r, p, w, w', k, w.svcs[k].(state := Opening(p)));
    }
  }

  lemma VisitStep(r: History, p: Phase, w: World, need: bool)
    requires Good(r, p, w) && w.mgr.Ticking?
    ensures Good(r, p, ManageStep(w, need)) && Unfinished(r, p, ManageStep(w, need)) <= Unfinished(r, p, w)
    ensures var k := w.mgr.k;
            k < |w.svcs| && Left(r, p, k, w.svcs[k]) > 0 && w.svcs[k].jobs == [] && need ==>
              Unfinished(r, p, ManageStep(w, need)) < Unfinished(r, p, w)
  {
    StepKeepsInv(w, Manage(need));
    var k, w' := w.mgr.k, ManageStep(w, need);
    if k < |w.svcs| {
      assert JobsMatch(w.svcs[k]) && Placed(w.mgr, k, w.svcs[k]);
      VisitFalls(p, Patience(r.answer, p, k), w.svcs[k], k, need);
      UnfinishedUpdate(r, p, w, w', k, Visit(w.svcs[k], need));
    }
  }

  lemma CheckStep(r: History, p: Phase, w: World, need: bool)
    requires Good(r, p, w) && w.mgr.Checking?
    ensures Good(r, p, ManageStep(w, need)) && ManageStep(w, need).svcs == w.svcs
  {
    StepKeepsInv(w, Manage(need));
  }

  // ----- fair runs in one phase -------------------------------------------------------------------

  /** In a run fit to get through phase p, the worlds of that phase that are good. */
  ghost predicate GoodAt(r: History, p: Phase, t: nat) {
    && Good(r, p, r.world(t)) && |r.world(t).svcs| == r.n
    && HooksAt(r, p, t) && (p != Main ==> AllRelent(r, p))
  }

  ghost predicate Fit(r: History, p: Phase) {
    FairRun(r) && NeedsRecur(r) && Cooperates(r, p)
  }

  ghost function LeftAt(r: History, p: Phase, t: nat): nat {
    Unfinished(r, p, r.world(t))
  }

  ghost function OutstandingAt(r: History, t: nat): nat {
    Outstanding(r.world(t))
  }

  ghost function MgrAt(r: History, t: nat): Manager {
    r.world(t).mgr
  }

  ghost function SvcAt(r: History, i: nat, t: nat): Svc
    requires i < |r.world(t).svcs|
  {
    r.world(t).svcs[i]
  }

  /** The manager's step that closes the phase. */
  ghost predicate Closes(r: History, t: nat) {
    MgrAt(r, t).Draining? && r.step(t).Manage?
  }

  lemma WorkStepAt(r: History, p: Phase, t: nat)
    requires GoodAt(r, p, t) && r.step(t).Work?
    ensures r.step(t).i < r.n
    ensures Good(r, p, r.world(t + 1)) && MgrAt(r, t + 1) == MgrAt(r, t)
    ensures if Left(r, p, r.step(t).i, SvcAt(r, r.step(t).i, t)) == 0 then LeftAt(r, p, t + 1) == LeftAt(r, p, t)
            else LeftAt(r, p, t + 1) < LeftAt(r, p, t)
    ensures OutstandingAt(r, t + 1) < OutstandingAt(r, t)
  {
    var w, l := r.world(t), r.step(t);
    HooksHelp(r, p, w, l.i, l.k, l.h);
    WorkStays(r, p, w, l.i, l.k, l.h);
    WorkStep(r, p, w, l.i, l.k, l.h);
  }

  lemma SignalStepAt(r: History, p: Phase, t: nat)
    requires GoodAt(r, p, t) && r.step(t).Signal?
    ensures Good(r, p, r.world(t + 1)) && r.world(t + 1) == r.world(t).(shutdown := true)
  {
    StepKeepsInv(r.world(t), r.step(t));
  }

  /** No step takes a service further from the end of the phase. */
  lemma StepFallsAt(r: History, p: Phase, t: nat)
    requires GoodAt(r, p, t) && !Closes(r, t)
    ensures Good(r, p, r.world(t + 1)) && LeftAt(r, p, t + 1) <= LeftAt(r, p, t)
    ensures !r.step(t).Manage? ==> MgrAt(r, t + 1) == MgrAt(r, t)
  {
    var w := r.world(t);
    match r.step(t)
    case Manage(need) =>
      if w.mgr.Setting? { SettingStep(r, p, w, need); }
      else if w.mgr.Ticking? { VisitStep(r, p, w, need); }
      else { CheckStep(r, p, w, need); }
    case Work(_, _, _) => WorkStepAt(r, p, t);
    case Signal => SignalStepAt(r, p, t);
  }

  lemma GoodNext(r: History, p: Phase, t: nat)
    requires Fit(r, p) && Good(r, p, r.world(t))
    ensures GoodAt(r, p, t)
  {
    assert HooksAt(r, p, t);
  }

  /** What holds until a turn comes holds when it comes. */
  lemma {:induction false} Wait(keeps: nat -> bool, turn: nat -> bool, t: nat, u: nat) returns (v: nat)
    requires keeps(t) && t <= u && turn(u)
    requires forall x: nat {:trigger keeps(x), turn(x)} :: keeps(x) && !turn(x) ==> keeps(x + 1)
    ensures keeps(v) && turn(v)
    decreases u - t
  {
    if turn(t) {
      v := t;
    } else {
      v := Wait(keeps, turn, t + 1, u);
    }
  }

  /** The manager moves some time, unless it waits for a pool that is not empty. */
  ghost function NextTurn(r: History, t: nat): (u: nat)
    requires FairRun(r)
    ensures t <= u && ManagerTurn(r, u)
  {
    assert ManagerTurnAfter(r, t);
    var u: nat :| t <= u && ManagerTurn(r, u);
    u
  }

  /** When the workers next turn to service i, if it has a run then. */
  ghost function NextWorkerTurn(r: History, i: nat, t: nat): (u: nat)
    requires FairRun(r) && i < r.n
    ensures t <= u && WorkerTurn(r, i, u)
  {
    assert WorkerTurnAfter(r, i, t);
    var u: nat :| t <= u && WorkerTurn(r, i, u);
    u
  }

  /** Other steps leave an outstanding run alone, and the phase open. */
  lemma RunUndisturbed(r: History, p: Phase, t: nat, i: nat)
    requires GoodAt(r, p, t) && i < r.n && SvcAt(r, i, t).jobs != [] && !(r.step(t).Work? && r.step(t).i == i)
    ensures i < |r.world(t + 1).svcs| && SvcAt(r, i, t + 1) == SvcAt(r, i, t) && !Closes(r, t)
  {
    assert JobsMatch(SvcAt(r, i, t)) && Placed(MgrAt(r, t), i, SvcAt(r, i, t));
  }

  /** While the manager waits, no run is added. */
  lemma WaitingFalls(r: History, p: Phase, t: nat)
    requires GoodAt(r, p, t) && MgrAt(r, t).Draining? && !Closes(r, t)
    ensures MgrAt(r, t + 1).Draining? && OutstandingAt(r, t + 1) <= OutstandingAt(r, t)
  {
    match r.step(t)
    case Work(_, _, _) => WorkStepAt(r, p, t);
    case Signal => SignalStepAt(r, p, t);
  }

  /** Service i still has the run it had at time t, and is no further from the end. */
  ghost predicate RunKept(r: History, p: Phase, i: nat, t: nat, x: nat)
    requires i < |r.world(t).svcs|
  {
    && x >= t && GoodAt(r, p, x) && i < r.n && SvcAt(r, i, x) == SvcAt(r, i, t)
    && LeftAt(r, p, x) <= LeftAt(r, p, t)
    && (MgrAt(r, t).Draining? ==> MgrAt(r, x).Draining? && OutstandingAt(r, x) <= OutstandingAt(r, t))
  }

  lemma RunWaits(r: History, p: Phase, i: nat, t: nat, x: nat)
    requires Fit(r, p) && i < r.n && SvcAt(r, i, t).jobs != []
    requires RunKept(r, p, i, t, x) && !WorkerTurn(r, i, x)
    ensures RunKept(r, p, i, t, x + 1)
  {
    RunUndisturbed(r, p, x, i);
    StepFallsAt(r, p, x);
    if MgrAt(r, x).Draining? {
      WaitingFalls(r, p, x);
    }
    GoodNext(r, p, x + 1);
  }

  /** An outstanding run goes on some time, in the state it has now. */
  lemma NextWork(r: History, p: Phase, i: nat, t: nat) returns (v: nat)
    requires Fit(r, p) && GoodAt(r, p, t) && i < r.n && SvcAt(r, i, t).jobs != []
    ensures RunKept(r, p, i, t, v) && r.step(v).Work? && r.step(v).i == i
  {
    var keeps := (x: nat) => RunKept(r, p, i, t, x);
    var turn := (x: nat) => WorkerTurn(r, i, x);
    forall x: nat | keeps(x) && !turn(x) ensures keeps(x + 1) {
      RunWaits(r, p, i, t, x);
    }
    v := Wait(keeps, turn, t, NextWorkerTurn(r, i, t));
  }

  lemma WorkProgress(r: History, p: Phase, i: nat, t: nat) returns (v: nat)
    requires Fit(r, p) && GoodAt(r, p, t) && i < r.n
    requires SvcAt(r, i, t).jobs != [] && Left(r, p, i, SvcAt(r, i, t)) > 0
    ensures v >= t && GoodAt(r, p, v) && LeftAt(r, p, v) < LeftAt(r, p, t)
  {
    v := NextWork(r, p, i, t);
    WorkStepAt(r, p, v);
    GoodNext(r, p, v + 1);
    v := v + 1;
  }

  // ----- the manager comes to a service that is ready ---------------------------------------------

  /** Unless the manager is setting or visiting a service that gains by it, service i is
      nearer to its visit and as it was. */
  lemma PassingBy(w: World, need: bool, i: nat)
    requires !w.mgr.Done? && !w.mgr.Draining? && w.mgr.k <= |w.svcs|
    requires i < |w.svcs| && w.svcs[i].state != Closing(w.mgr.p) && (w.mgr.Checking? ==> w.mgr.k <= i)
    ensures |ManageStep(w, need).svcs| == |w.svcs|
    ensures (if w.mgr.Setting? then w.mgr.k == |w.svcs| else w.mgr.Ticking? ==> w.mgr.k != i) ==>
              && ManageStep(w, need).svcs[i] == w.svcs[i]
              && Distance(ManageStep(w, need).mgr, i, |w.svcs|) < Distance(w.mgr, i, |w.svcs|)
  {}

  /** While nothing gains, the manager comes nearer to visiting the ready service i. */
  lemma ManagerNearer(r: History, p: Phase, w: World, need: bool, i: nat)
    requires Good(r, p, w) && i < |w.svcs| && w.svcs[i].jobs == [] && Left(r, p, i, w.svcs[i]) > 0
    requires Enabled(w, Manage(need))
    ensures var w' := ManageStep(w, need);
            |w'.svcs| == |w.svcs| &&
            if w.mgr.Ticking? && w.mgr.k == i then
              if need then Unfinished(r, p, w') < Unfinished(r, p, w) else w'.svcs == w.svcs
            else Unfinished(r, p, w') >= Unfinished(r, p, w) ==>
              w'.svcs[i] == w.svcs[i] && Distance(w'.mgr, i, |w.svcs|) < Distance(w.mgr, i, |w.svcs|)
  {
    assert Placed(w.mgr, i, w.svcs[i]);
    if w.mgr.Setting? {
      SettingStep(r, p, w, need);
    } else if w.mgr.Ticking? {
      VisitStep(r, p, w, need);
    }
    PassingBy(w, need, i);
  }

  ghost predicate Ready(r: History, p: Phase, i: nat, t: nat) {
    GoodAt(r, p, t) && i < r.n && SvcAt(r, i, t).jobs == [] && Left(r, p, i, SvcAt(r, i, t)) > 0
  }

  /** One step: the phase stays open, and some service gains or the manager comes nearer. */
  lemma NearerAt(r: History, p: Phase, i: nat, t: nat)
    requires Ready(r, p, i, t)
    ensures Good(r, p, r.world(t + 1)) && LeftAt(r, p, t + 1) <= LeftAt(r, p, t) && !MgrAt(r, t).Draining?
    ensures Visits(r, i, t) && r.step(t).need ==> LeftAt(r, p, t + 1) < LeftAt(r, p, t)
    ensures LeftAt(r, p, t + 1) == LeftAt(r, p, t) ==>
              && i < |r.world(t + 1).svcs| && SvcAt(r, i, t + 1) == SvcAt(r, i, t)
              && if r.step(t).Manage? then
                   Visits(r, i, t) || Distance(MgrAt(r, t + 1), i, r.n) < Distance(MgrAt(r, t), i, r.n)
                 else MgrAt(r, t + 1) == MgrAt(r, t)
  {
    assert Placed(MgrAt(r, t), i, SvcAt(r, i, t));
    StepFallsAt(r, p, t);
    if r.step(t).Manage? {
      ManagerNearer(r, p, r.world(t), r.step(t).need, i);
    }
  }

  ghost predicate Gains(r: History, p: Phase, t: nat, v: nat) {
    v >= t && GoodAt(r, p, v) && LeftAt(r, p, v) < LeftAt(r, p, t)
  }

  /** At time x nothing has happened to the ready service i since time t. */
  ghost predicate Idle(r: History, p: Phase, i: nat, t: nat, x: nat)
    requires i < |r.world(t).svcs|
  {
    x >= t && GoodAt(r, p, x) && i < r.n && LeftAt(r, p, x) == LeftAt(r, p, t) && SvcAt(r, i, x) == SvcAt(r, i, t)
  }

  lemma IdleStep(r: History, p: Phase, i: nat, t: nat, x: nat)
    requires Fit(r, p) && Ready(r, p, i, t) && Idle(r, p, i, t, x)
    ensures Gains(r, p, t, x + 1) || Idle(r, p, i, t, x + 1)
    ensures Visits(r, i, x) && r.step(x).need ==> Gains(r, p, t, x + 1)
  {
    ReadyStill(r, p, i, t, x);
    NearerAt(r, p, i, x);
    GoodNext(r, p, x + 1);
  }

  lemma ReadyStill(r: History, p: Phase, i: nat, t: nat, x: nat)
    requires Ready(r, p, i, t) && Idle(r, p, i, t, x)
    ensures Ready(r, p, i, x)
  {}

  ghost predicate SomebodyGains(r: History, p: Phase, t: nat) {
    exists v: nat :: Gains(r, p, t, v)
  }

  lemma IdleGoesOn(r: History, p: Phase, i: nat, t: nat, x: nat)
    requires Fit(r, p) && Ready(r, p, i, t) && Idle(r, p, i, t, x)
    ensures Idle(r, p, i, t, x + 1) || SomebodyGains(r, p, t)
  {
    IdleStep(r, p, i, t, x);
  }

  /** Unless somebody gains, nothing ever happens to service i ... */
  lemma StaysIdle(r: History, p: Phase, i: nat, t: nat, x: nat)
    requires Fit(r, p) && Ready(r, p, i, t) && t <= x
    ensures Idle(r, p, i, t, x) || SomebodyGains(r, p, t)
  {
    if !SomebodyGains(r, p, t) {
      var keeps := (y: nat) => Idle(r, p, i, t, y);
      var turn := (y: nat) => y == x;
      forall y: nat | keeps(y) && !turn(y) ensures keeps(y + 1) {
        IdleGoesOn(r, p, i, t, y);
      }
      var v := Wait(keeps, turn, t, x);
    }
  }

  /** Nor has the manager moved since time u. */
  ghost predicate MgrKept(r: History, p: Phase, i: nat, t: nat, u: nat, x: nat)
    requires i < |r.world(t).svcs|
  {
    x >= u && Idle(r, p, i, t, x) && MgrAt(r, x) == MgrAt(r, u)
  }

  lemma ManagerTakesTurn(r: History, p: Phase, i: nat, t: nat, u: nat, x: nat)
    requires Fit(r, p) && Ready(r, p, i, t) && MgrKept(r, p, i, t, u, x)
    ensures SomebodyGains(r, p, t) || Idle(r, p, i, t, x + 1)
    ensures SomebodyGains(r, p, t) || ManagerTurn(r, x) || MgrKept(r, p, i, t, u, x + 1)
    ensures ManagerTurn(r, x) ==>
              || SomebodyGains(r, p, t) || Visits(r, i, x)
              || Distance(MgrAt(r, x + 1), i, r.n) < Distance(MgrAt(r, u), i, r.n)
  {
    IdleGoesOn(r, p, i, t, x);
    NearerAt(r, p, i, x);
  }

  lemma ManagerTurnComes(r: History, p: Phase, i: nat, t: nat, u: nat) returns (v: nat)
    requires Fit(r, p) && Ready(r, p, i, t) && MgrKept(r, p, i, t, u, u)
    ensures SomebodyGains(r, p, t) || (MgrKept(r, p, i, t, u, v) && ManagerTurn(r, v))
  {
    v := u;
    if !SomebodyGains(r, p, t) {
      var keeps := (x: nat) => MgrKept(r, p, i, t, u, x);
      var turn := (x: nat) => ManagerTurn(r, x);
      forall x: nat | keeps(x) && !turn(x) ensures keeps(x + 1) {
        ManagerTakesTurn(r, p, i, t, u, x);
      }
      v := Wait(keeps, turn, u, NextTurn(r, u));
    }
  }

  /** ... but the manager comes and asks it. */
  lemma {:induction false} VisitComes(r: History, p: Phase, i: nat, t: nat, u: nat)
    requires Fit(r, p) && Ready(r, p, i, t) && Idle(r, p, i, t, u)
    ensures VisitAfter(r, i, u) || SomebodyGains(r, p, t)
    decreases Distance(MgrAt(r, u), i, r.n)
  {
    var v := ManagerTurnComes(r, p, i, t, u);
    if !SomebodyGains(r, p, t) {
      ManagerTakesTurn(r, p, i, t, u, v);
      if !Visits(r, i, v) {
        VisitComes(r, p, i, t, v + 1);
        var w: nat :| v + 1 <= w && Visits(r, i, w);
      }
    }
  }

  lemma ReadyNeeds(r: History, p: Phase, i: nat, t: nat)
    requires Ready(r, p, i, t) && Visits(r, i, t)
    ensures NeedSchedule(SvcAt(r, i, t).state)
  {
    assert Placed(MgrAt(r, t), i, SvcAt(r, i, t));
  }

  lemma IdleIsAccepted(r: History, p: Phase, i: nat, t: nat)
    requires Fit(r, p) && Ready(r, p, i, t)
    ensures AcceptsAfter(r, i, t) || SomebodyGains(r, p, t)
  {
    if !SomebodyGains(r, p, t) {
      forall u: nat | t <= u ensures VisitAfter(r, i, u) {
        StaysIdle(r, p, i, t, u);
        VisitComes(r, p, i, t, u);
      }
    }
  }

  lemma AcceptedGains(r: History, p: Phase, i: nat, t: nat, v: nat)
    requires Fit(r, p) && Ready(r, p, i, t) && Idle(r, p, i, t, v) && Accepts(r, i, v)
    ensures Gains(r, p, t, v + 1)
  {
    ReadyNeeds(r, p, i, v);
    IdleStep(r, p, i, t, v);
  }

  /** A ready service does not wait for ever. */
  lemma ManagerProgress(r: History, p: Phase, i: nat, t: nat)
    requires Fit(r, p) && Ready(r, p, i, t)
    ensures SomebodyGains(r, p, t)
  {
    IdleIsAccepted(r, p, i, t);
    if !SomebodyGains(r, p, t) {
      var v: nat :| t <= v && Accepts(r, i, v);
      StaysIdle(r, p, i, t, v);
      AcceptedGains(r, p, i, t, v);
    }
  }

  /** As long as some service has not got through the phase, one comes nearer to it. */
  lemma Progress(r: History, p: Phase, t: nat) returns (v: nat)
    requires Fit(r, p) && GoodAt(r, p, t) && LeftAt(r, p, t) > 0
    ensures v >= t && GoodAt(r, p, v) && LeftAt(r, p, v) < LeftAt(r, p, t)
  {
    var i := SumPositive(Lefts(r, p, r.world(t).svcs));
    if SvcAt(r, i, t).jobs == [] {
      ManagerProgress(r, p, i, t);
      v :| Gains(r, p, t, v);
    } else {
      v := WorkProgress(r, p, i, t);
    }
  }

  lemma {:induction false} EventuallyFinished(r: History, p: Phase, t: nat) returns (v: nat)
    requires Fit(r, p) && GoodAt(r, p, t)
    ensures v >= t && GoodAt(r, p, v) && LeftAt(r, p, v) == 0
    decreases LeftAt(r, p, t)
  {
    v := t;
    if LeftAt(r, p, t) > 0 {
      v := Progress(r, p, t);
      v := EventuallyFinished(r, p, v);
    }
  }

  // ----- from the last service to the drained pool -----------------------------------------------------

  lemma AllFinished(r: History, p: Phase, w: World)
    requires Unfinished(r, p, w) == 0
    ensures forall i :: 0 <= i < |w.svcs| ==> w.svcs[i].state == Closing(p)
  {
    forall i | 0 <= i < |w.svcs| ensures w.svcs[i].state == Closing(p) {
      SumZero(Lefts(r, p, w.svcs), i);
      assert Lefts(r, p, w.svcs)[i] == Left(r, p, i, w.svcs[i]);
    }
  }

  lemma ManagerDrains(w: World, need: bool)
    requires !w.mgr.Done? && !w.mgr.Draining? && w.mgr.k <= |w.svcs| && (w.mgr.p == Main ==> w.shutdown)
    requires forall i :: 0 <= i < |w.svcs| ==> w.svcs[i].state == Closing(w.mgr.p)
    ensures ToDrain(ManageStep(w, need).mgr, |w.svcs|) < ToDrain(w.mgr, |w.svcs|)
  {}

  /** The run phase also waits for ShutDown(). */
  ghost predicate MayClose(r: History, p: Phase, t: nat) {
    LeftAt(r, p, t) == 0 && (p == Main ==> r.world(t).shutdown)
  }

  ghost predicate DrainKept(r: History, p: Phase, t: nat, x: nat) {
    x >= t && GoodAt(r, p, x) && MayClose(r, p, x) && MgrAt(r, x) == MgrAt(r, t)
  }

  lemma DrainsSooner(r: History, p: Phase, t: nat, x: nat)
    requires Fit(r, p) && DrainKept(r, p, t, x) && !MgrAt(r, t).Draining?
    ensures GoodAt(r, p, x + 1) && MayClose(r, p, x + 1)
    ensures if r.step(x).Manage? then ToDrain(MgrAt(r, x + 1), r.n) < ToDrain(MgrAt(r, t), r.n)
            else DrainKept(r, p, t, x + 1) && !ManagerTurn(r, x)
  {
    StepFallsAt(r, p, x);
    GoodNext(r, p, x + 1);
    if r.step(x).Manage? {
      AllFinished(r, p, r.world(x));
      ManagerDrains(r.world(x), r.step(x).need);
    }
  }

  lemma DrainTurn(r: History, p: Phase, t: nat) returns (v: nat)
    requires Fit(r, p) && DrainKept(r, p, t, t) && !MgrAt(r, t).Draining?
    ensures DrainKept(r, p, t, v) && r.step(v).Manage?
  {
    var keeps := (x: nat) => DrainKept(r, p, t, x);
    var turn := (x: nat) => ManagerTurn(r, x);
    forall x: nat | keeps(x) && !turn(x) ensures keeps(x + 1) {
      DrainsSooner(r, p, t, x);
    }
    v := Wait(keeps, turn, t, NextTurn(r, t));
    DrainsSooner(r, p, t, v);
  }

  lemma NextDrains(r: History, p: Phase, t: nat) returns (v: nat)
    requires Fit(r, p) && DrainKept(r, p, t, t) && !MgrAt(r, t).Draining?
    ensures v > t && DrainKept(r, p, v, v) && ToDrain(MgrAt(r, v), r.n) < ToDrain(MgrAt(r, t), r.n)
  {
    v := DrainTurn(r, p, t);
    DrainsSooner(r, p, t, v);
    v := v + 1;
  }

  lemma {:induction false} EventuallyDraining(r: History, p: Phase, t: nat) returns (v: nat)
    requires Fit(r, p) && DrainKept(r, p, t, t)
    ensures v >= t && GoodAt(r, p, v) && MgrAt(r, v).Draining?
    decreases ToDrain(MgrAt(r, t), r.n)
  {
    v := t;
    if !MgrAt(r, t).Draining? {
      v := NextDrains(r, p, t);
      v := EventuallyDraining(r, p, v);
    }
  }

  // ----- the phase closes ---------------------------------------------------------------------------

  /** The manager has left phase p with an empty pool and every service fit for the next. */
  ghost predicate Closed(r: History, p: Phase, w: World) {
    && Inv(w) && w.mgr == NextPhase(p) && PoolEmpty(w)
    && forall i: nat :: i < |w.svcs| ==> Sound(p, Patience(r.answer, p, i), w.svcs[i])
  }

  lemma ClosesAt(r: History, p: Phase, t: nat)
    requires GoodAt(r, p, t) && Closes(r, t)
    ensures Closed(r, p, r.world(t + 1))
  {
    StepKeepsInv(r.world(t), r.step(t));
  }

  ghost predicate EmptyKept(r: History, p: Phase, t: nat, x: nat) {
    x >= t && GoodAt(r, p, x) && MgrAt(r, x).Draining? && PoolEmpty(r.world(x))
  }

  lemma EmptyWaits(r: History, p: Phase, t: nat, x: nat)
    requires Fit(r, p) && EmptyKept(r, p, t, x) && !r.step(x).Manage?
    ensures EmptyKept(r, p, t, x + 1)
  {
    StepFallsAt(r, p, x);
    GoodNext(r, p, x + 1);
  }

  /** With an empty pool nothing but the manager's step changes the services. */
  lemma CloseOnEmptyPool(r: History, p: Phase, t: nat) returns (v: nat)
    requires Fit(r, p) && EmptyKept(r, p, t, t)
    ensures v > t && Closed(r, p, r.world(v))
  {
    var keeps := (x: nat) => EmptyKept(r, p, t, x);
    var turn := (x: nat) => ManagerTurn(r, x);
    forall x: nat | keeps(x) && !turn(x) ensures keeps(x + 1) {
      EmptyWaits(r, p, t, x);
    }
    v := Wait(keeps, turn, t, NextTurn(r, t));
    ClosesAt(r, p, v);
    v := v + 1;
  }

  /** A run still in the pool makes a step some time. */
  lemma PoolFalls(r: History, p: Phase, t: nat) returns (v: nat)
    requires Fit(r, p) && GoodAt(r, p, t) && MgrAt(r, t).Draining? && !PoolEmpty(r.world(t))
    ensures v > t && GoodAt(r, p, v) && MgrAt(r, v).Draining? && OutstandingAt(r, v) < OutstandingAt(r, t)
  {
    var i: nat :| i < r.n && r.world(t).svcs[i].jobs != [];
    v := NextWork(r, p, i, t);
    WorkStepAt(r, p, v);
    GoodNext(r, p, v + 1);
    v := v + 1;
  }

  /** While the manager waits for it the pool drains, and the phase closes. */
  lemma {:induction false} WaitingEnds(r: History, p: Phase, t: nat) returns (v: nat)
    requires Fit(r, p) && GoodAt(r, p, t) && MgrAt(r, t).Draining?
    ensures v > t && Closed(r, p, r.world(v))
    decreases OutstandingAt(r, t)
  {
    if PoolEmpty(r.world(t)) {
      v := CloseOnEmptyPool(r, p, t);
    } else {
      v := PoolFalls(r, p, t);
      v := WaitingEnds(r, p, v);
    }
  }

  lemma {:induction false} ShutdownStays(r: History, t: nat, v: nat)
    requires Behaviour(r) && t <= v && r.world(t).shutdown
    ensures r.world(v).shutdown
    decreases v - t
  {
    if t < v {
      assert StepAt(r, t);
      ShutdownStays(r, t + 1, v);
    }
  }

  /** The run phase is still open when ShutDown() is called, or that was before. */
  lemma {:induction false} EventuallySignalled(r: History, t: nat, u: nat) returns (v: nat)
    requires Fit(r, Main) && GoodAt(r, Main, t) && SignalAt(r, u)
    ensures v >= t && GoodAt(r, Main, v) && r.world(v).shutdown
    decreases if t <= u then u - t + 1 else 0
  {
    v := t;
    if u < t {
      assert StepAt(r, u);
      ShutdownStays(r, u + 1, t);
    } else if !r.world(t).shutdown {
      StepFallsAt(r, Main, t);
      GoodNext(r, Main, t + 1);
      v := EventuallySignalled(r, t + 1, u);
    }
  }

  /** Every fair run gets through a phase whose hooks cooperate. */
  lemma PhaseCloses(r: History, p: Phase, t: nat) returns (v: nat)
    requires Fit(r, p) && Good(r, p, r.world(t))
    ensures v > t && Closed(r, p, r.world(v))
  {
    GoodNext(r, p, t);
    v := t;
    if p == Main {
      var u: nat :| SignalAt(r, u);
      v := EventuallySignalled(r, t, u);
    }
    var from := v;
    v := EventuallyFinished(r, p, from);
    if p == Main {
      ShutdownStays(r, from, v);
    }
    v := EventuallyDraining(r, p, v);
    v := WaitingEnds(r, p, v);
  }
}
