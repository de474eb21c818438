/** The classes Service and ServiceManager as single-threaded code.  What happens
    when the manager and the pool's workers interleave is the subject of Scheduler. */
module Services {

  datatype ServiceState =
    | SSNone | SSStart | SSStartProcess | SSStartFail | SSStartOk
    | SSRun
    | SSShutdown | SSShutdownProcess | SSShutdownOk

  datatype RunningState = RSReady | RSSchedule | RSRunning

  /** How a virtual call ends; the members a subclass overrides are not known here. */
  datatype Hook = Returns(ok: bool) | Throws

  /** Which of the virtual functions a Run calls. */
  datatype HookName = Init | IsStartOK | Tick | Shutdown | IsShutdownOK

  // ----- the base class's own answers ---------------------------------------------------

  predicate NeedSchedule(s: ServiceState) {
    s != SSNone && s != SSShutdownOk
  }

  predicate BaseIsStartOk(s: ServiceState) {
    s == SSStartOk || s != SSRun
  }

  predicate BaseIsShutdownOk(s: ServiceState) {
    s == SSShutdownOk
  }

  /** Where they say no. */
  lemma BaseAnswersNo(s: ServiceState)
    ensures !NeedSchedule(s) <==> s == SSNone || s == SSShutdownOk
    ensures !BaseIsStartOk(s) <==> s == SSRun
    ensures !BaseIsShutdownOk(s) <==> s != SSShutdownOk
  {}

  // ----- what one Run does to the service state -----------------------------------------

  /** The state written before the state's hook is called. */
  function Entered(s: ServiceState): ServiceState {
    if s == SSStart then SSStartProcess else if s == SSShutdown then SSShutdownProcess else s
  }

  /** The states whose case calls a hook: Init, IsStartOK, Tick, Shutdown, IsShutdownOK. */
  predicate CallsHook(s: ServiceState) {
    s in {SSStart, SSStartProcess, SSRun, SSShutdown, SSShutdownProcess}
  }

  /** The state after the hook of case s has returned. */
  function Returned(s: ServiceState, ok: bool): ServiceState {
    match s
    case SSStart => if ok then SSStartProcess else SSStartFail
    case SSStartProcess => if ok then SSStartOk else SSStartProcess
    case SSShutdownProcess => if ok then SSShutdownOk else SSShutdownProcess
    case _ => Entered(s)
  }

  /** SS_START_FAIL asserts, which throws; a throwing hook is rethrown. */
  predicate RunThrows(s: ServiceState, h: Hook) {
    s == SSStartFail || (CallsHook(s) && h.Throws?)
  }

  function AfterRun(s: ServiceState, h: Hook): ServiceState {
    if CallsHook(s) && h.Returns? then Returned(s, h.ok) else Entered(s)
  }

  /** What the functions above come to, state by state. */
  lemma RunTable(s: ServiceState, h: Hook)
    ensures CallsHook(s) <==> s !in {SSNone, SSStartFail, SSStartOk, SSShutdownOk}
    ensures RunThrows(s, h) <==> s == SSStartFail || (h == Throws && s !in {SSNone, SSStartOk, SSShutdownOk})
    ensures AfterRun(s, h) ==
              match s
              case SSStart => if h == Returns(false) then SSStartFail else SSStartProcess
              case SSStartProcess => if h == Returns(true) then SSStartOk else SSStartProcess
              case SSShutdown => SSShutdownProcess
              case SSShutdownProcess => if h == Returns(true) then SSShutdownOk else SSShutdownProcess
              case _ => s
  {}

  class Service {
    var runState: RunningState
    var serviceState: ServiceState
    var id: int
    var updateTime: int

    constructor ()
      ensures runState == RSReady && serviceState == SSNone && id == -1 && updateTime == 0
    {
      runState, serviceState, id, updateTime := RSReady, SSNone, -1, 0;
    }

    /** A job of the pool.  `h` is the outcome of the hook that is called, if one is.  An
        exception leaves the function before the running state is set back. */
    method Run(now: int, h: Hook) returns (thrown: bool, called: seq<HookName>)
      modifies this
      ensures called == match old(serviceState)
                        case SSStart => [Init]
                        case SSStartProcess => [IsStartOK]
                        case SSRun => [Tick]
                        case SSShutdown => [Shutdown]
                        case SSShutdownProcess => [IsShutdownOK]
                        case _ => []
      ensures thrown <==> old(serviceState) == SSStartFail || (called != [] && h == Throws)
      ensures serviceState == match old(serviceState)
                              case SSStart => if h == Returns(false) then SSStartFail else SSStartProcess
                              case SSStartProcess => if h == Returns(true) then SSStartOk else SSStartProcess
                              case SSShutdown => SSShutdownProcess
                              case SSShutdownProcess => if h == Returns(true) then SSShutdownOk else SSShutdownProcess
                              case _ => old(serviceState)
      ensures runState == if thrown then RSRunning else RSReady
      ensures id == old(id) && updateTime == now
    {
      runState := RSRunning;
      updateTime := now;
      called := [];
      match serviceState {
        case SSStart =>
          serviceState := SSStartProcess;
          called := [Init];
          if h.Throws? { return true, called; }
          if !h.ok {
            serviceState := SSStartFail;
          }
        case SSStartProcess =>
          called := [IsStartOK];
          if h.Throws? { return true, called; }
          if h.ok {
            serviceState := SSStartOk;
          }
        case SSStartFail =>
          return true, called;
        case SSStartOk =>
        case SSRun =>
          called := [Tick];
          if h.Throws? { return true, called; }
        case SSShutdown =>
          serviceState := SSShutdownProcess;
          called := [Shutdown];
          if h.Throws? { return true, called; }
        case SSShutdownProcess =>
          called := [IsShutdownOK];
          if h.Throws? { return true, called; }
          if h.ok {
            serviceState := SSShutdownOk;
          }
        case SSShutdownOk =>
        case SSNone =>
      }
      runState := RSReady;
      thrown := false;
    }
  }

  /** The members of a set, each where it comes first. */
  function Selected<T(==)>(ts: seq<T>, due: set<T>): seq<T> {
    if ts == [] then []
    else
      var n := |ts| - 1;
      Selected(ts[..n], due) + if ts[n] in due && ts[n] !in ts[..n] then [ts[n]] else []
  }

  lemma {:induction false} SelectedOnce<T>(ts: seq<T>, due: set<T>, t: T)
    ensures multiset(Selected(ts, due))[t] == if t in ts && t in due then 1 else 0
  {
    if ts != [] {
      var n := |ts| - 1;
      SelectedOnce(ts[..n], due, t);
      assert ts == ts[..n] + [ts[n]];
    }
  }

  // ----- the manager --------------------------------------------------------------------------

  class ServiceManager {
    var services: seq<Service>
    var shutdown: bool
    /** The jobs handed to the pool, oldest first. */
    var pool: seq<Service>

    /** No service has been registered twice. */
    ghost predicate Valid()
      reads this
    {
      forall i, j :: 0 <= i < j < |services| ==> services[i] != services[j]
    }

    constructor ()
      ensures Valid() && services == [] && !shutdown && pool == []
    {
      services, shutdown, pool := [], false, [];
    }

    /** A null pointer fails the assertion; that the service is new is not tested. */
    method Register(s: Service?) returns (thrown: bool)
      modifies this, s
      ensures thrown <==> s == null
      ensures thrown ==> services == old(services)
      ensures !thrown ==>
                && services == old(services) + [s] && s.id == |services|
                && s.runState == old(s.runState) && s.serviceState == old(s.serviceState)
                && s.updateTime == old(s.updateTime)
                && (Valid() <==> old(Valid()) && s !in old(services))
      ensures shutdown == old(shutdown) && pool == old(pool)
    {
      if s == null {
        return true;
      }
      s.id := |services| + 1;
      services := services + [s];
      assert services[|services| - 1] == s;
      assert services[..|services| - 1] == old(services);
      return false;
    }

    ghost predicate IsDue(s: Service)
      reads s
    {
      s.runState == RSReady && s.serviceState != SSNone && s.serviceState != SSShutdownOk
    }

    ghost function Due(): set<Service>
      reads this, services
    {
      set s | s in services && IsDue(s)
    }

    /** An undisturbed tick hands every service that is ready and wants to run to the pool
        once, even one that is registered twice, in order, and touches no other.  With the
        base class's NeedSchedule all want to but those in SS_NONE and SS_SHUTDOWN_OK. */
    method Tick(now: int) returns (ghost added: seq<Service>)
      modifies this, services
      ensures services == old(services) && shutdown == old(shutdown)
      ensures pool == old(pool) + added && added == Selected(services, old(Due()))
      ensures forall s :: s in services ==>
                if old(s.runState) == RSReady && old(s.serviceState) != SSNone && old(s.serviceState) != SSShutdownOk
                then multiset(added)[s] == 1 && s.runState == RSSchedule && s.updateTime == now
                else s !in added && s.runState == old(s.runState) && s.updateTime == old(s.updateTime)
      ensures forall s :: s in services ==> s.serviceState == old(s.serviceState) && s.id == old(s.id)
    {
      ghost var due := Due();
      var i := 0;
      while i < |services|
        invariant 0 <= i <= |services| && services == old(services) && shutdown == old(shutdown)
        invariant pool == old(pool) + Selected(services[..i], due)
        invariant forall s :: s in services[..i] ==> Visited(s, s in due, now)
        invariant forall s :: s in services && s !in services[..i] ==> unchanged(s)
      {
        VisitService(services[i], now);
        assert services[..i + 1][..i] == services[..i] && services[..i + 1][i] == services[i];
        i := i + 1;
      }
      assert services[..i] == services;
      added := Selected(services, due);
      forall s | s in services ensures multiset(added)[s] == if s in due then 1 else 0 {
        SelectedOnce(services, due, s);
      }
    }

    twostate predicate Visited(s: Service, due: bool, now: int)
      reads s
    {
      && s.serviceState == old(s.serviceState) && s.id == old(s.id)
      && s.runState == (if due then RSSchedule else old(s.runState))
      && s.updateTime == (if due then now else old(s.updateTime))
    }

    /** The body of the loop: one service. */
    method VisitService(s: Service, now: int)
      modifies s, this`pool
      ensures Visited(s, old(IsDue(s)), now)
      ensures pool == old(pool) + if old(IsDue(s)) then [s] else []
    {
      if s.runState == RSReady && NeedSchedule(s.serviceState) {
        s.runState := RSSchedule;
        s.updateTime := now;
        pool := pool + [s];
      }
    }

    method IsAllServiceStatusEqual(st: ServiceState) returns (all: bool)
      ensures all <==> forall s :: s in services ==> s.serviceState == st
    {
      var i := 0;
      while i < |services|
        invariant 0 <= i <= |services|
        invariant forall j :: 0 <= j < i ==> services[j].serviceState == st
      {
        if services[i].serviceState != st {
          return false;
        }
        i := i + 1;
      }
      all := true;
    }

    method SetAllServiceStatus(st: ServiceState)
      modifies services
      ensures forall s :: s in services ==>
                && s.serviceState == st && s.runState == old(s.runState)
                && s.id == old(s.id) && s.updateTime == old(s.updateTime)
    {
      var i := 0;
      while i < |services|
        invariant 0 <= i <= |services|
        invariant forall j :: 0 <= j < i ==> services[j].serviceState == st
        invariant forall s :: s in services ==>
                    s.runState == old(s.runState) && s.id == old(s.id) && s.updateTime == old(s.updateTime)
      {
        services[i].serviceState := st;
        i := i + 1;
      }
    }

    method RunLogicBreakCondition(st: ServiceState) returns (stop: bool)
      ensures stop <==>
                match st
                case SSStart => forall s :: s in services ==> s.serviceState == SSStartOk
                case SSRun => shutdown
                case SSShutdown => forall s :: s in services ==> s.serviceState == SSShutdownOk
                case _ => true
    {
      match st
      case SSStart => stop := IsAllServiceStatusEqual(SSStartOk);
      case SSRun => stop := shutdown;
      case SSShutdown => stop := IsAllServiceStatusEqual(SSShutdownOk);
      case _ => stop := true;
    }

    method ShutDown()
      modifies this`shutdown
      ensures shutdown
    {
      shutdown := true;
    }
  }
}
