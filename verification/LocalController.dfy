/**
 * The state machine of the client's controller (client/mozilla/localsocketcontroller.cpp):
 * connecting with retries, initialisation, and the single slot for the log callback.
 */
module LocalController {

  const MAX_CONNECTION_RETRY: nat := 10

  datatype DaemonState = Unknown | Initializing | Ready

  datatype Callback = NoCallback | Waiting(id: nat)

  /**
   * Fields of the controller, then what the outside has seen: connection attempts, emissions
   * of `initialized`, callbacks handed in and callbacks called, in order. `outstanding` is
   * whether the socket is still to report on the last attempt.
   */
  datatype State = State(daemon: DaemonState, retry: nat, timer: bool, slot: Callback,
                         outstanding: bool,
                         attempts: nat, initialized: nat, registered: seq<nat>, called: seq<nat>)

  datatype Event =
    | Initialize
    | TimerFires
    | SocketConnected
    | SocketError
    | StatusReply(wellFormed: bool)
    | DisconnectedReply
    | LogsReply
    | OtherReply
    | GetLogs(id: nat)
    | CleanLogs

  predicate IsReply(e: Event) { e.StatusReply? || e.DisconnectedReply? || e.LogsReply? || e.OtherReply? }

  const START := State(Unknown, 0, false, NoCallback, false, 0, 0, [], [])

  /**
   * What may happen in a state. The controller is initialised once, timer and socket report
   * only when they are due, and no status comes in while a retry is scheduled: EarlyReplyIff
   * shows that this last restriction is exactly what is needed.
   */
  predicate Possible(s: State, e: Event) {
    match e
    case Initialize => s.daemon.Unknown?
    case TimerFires => s.timer
    case SocketConnected => s.outstanding
    case StatusReply(_) => !s.timer
    case _ => true
  }

  function Connecting(s: State): State {
    s.(daemon := Initializing, outstanding := true, attempts := s.attempts + 1)
  }

  function Disconnecting(s: State): State { s.(daemon := Ready, retry := 0, timer := false) }

  /** Calls whatever callback is waiting. */
  function Flushed(s: State): State {
    if s.slot.Waiting? then s.(slot := NoCallback, called := s.called + [s.slot.id]) else s
  }

  function Step(s: State, e: Event): State {
    match e
    case Initialize => Connecting(s.(retry := 0))
    case TimerFires => Connecting(s.(timer := false))
    case SocketConnected => s.(outstanding := false)
    case SocketError =>
      var t := s.(outstanding := false);
      if t.daemon.Initializing? then
        if t.retry < MAX_CONNECTION_RETRY then t.(retry := t.retry + 1, timer := true)
        else Disconnecting(t.(retry := t.retry + 1, initialized := t.initialized + 1))
      else Disconnecting(t)
    case StatusReply(wellFormed) =>
      if s.daemon.Initializing? then
        s.(daemon := Ready, initialized := s.initialized + if wellFormed then 1 else 0)
      else s
    case DisconnectedReply => if s.daemon.Ready? then Disconnecting(s) else s
    case LogsReply => if s.daemon.Ready? then Flushed(s) else s
    case OtherReply => s
    case GetLogs(id) =>
      var t := Flushed(s);
      var u := t.(registered := t.registered + [id]);
      if u.daemon.Ready? then u.(slot := Waiting(id)) else u.(called := u.called + [id])
    case CleanLogs => Flushed(s)
  }

  function Run(s: State, events: seq<Event>): State {
    if events == [] then s else Step(Run(s, events[..|events| - 1]), events[|events| - 1])
  }

  ghost predicate PossibleRun(s: State, events: seq<Event>) {
    forall i :: 0 <= i < |events| ==> Possible(Run(s, events[..i]), events[i])
  }

  // ------------------------------------------------------------ the controller

  class Controller {
    var daemonState: DaemonState
    var initializingRetry: nat
    var timerArmed: bool
    var logCallback: Callback
    var outstanding: bool
    var attempts: nat
    var initialized: nat
    var registered: seq<nat>
    var called: seq<nat>

    function Now(): State
      reads this
    {
      State(daemonState, initializingRetry, timerArmed, logCallback, outstanding,
            attempts, initialized, registered, called)
    }

    /** Retries, timer and announcements are within their bounds, and no callback is lost. */
    predicate Valid()
      reads this
    {
      Invariant(Now()) && Conserved(Now())
    }

    constructor ()
      ensures Valid() && Now() == START
    {
      daemonState, initializingRetry, timerArmed, logCallback := Unknown, 0, false, NoCallback;
      outstanding, attempts, initialized, registered, called := false, 0, 0, [], [];
    }

    method OnInitialize()
      requires Valid() && Possible(Now(), Initialize)
      modifies this
      ensures Valid() && Now() == Step(old(Now()), Initialize)
    {
      StepKeeps(Now(), Initialize);
      initializingRetry := 0;
      InitializeInternal();
    }

    method InitializeInternal()
      modifies this
      ensures Now() == Connecting(old(Now()))
    {
      daemonState := Initializing;
      outstanding, attempts := true, attempts + 1;
    }

    method OnTimer()
      requires Valid() && Possible(Now(), TimerFires)
      modifies this
      ensures Valid() && Now() == Step(old(Now()), TimerFires)
    {
      StepKeeps(Now(), TimerFires);
      timerArmed := false;
      InitializeInternal();
    }

    method OnConnected()
      requires Valid() && Possible(Now(), SocketConnected)
      modifies this
      ensures Valid() && Now() == Step(old(Now()), SocketConnected)
    {
      StepKeeps(Now(), SocketConnected);
      outstanding := false;
    }

    method DisconnectInternal()
      modifies this
      ensures Now() == Disconnecting(old(Now()))
    {
      daemonState := Ready;
      initializingRetry := 0;
      timerArmed := false;
    }

    method OnError()
      requires Valid()
      modifies this
      ensures Valid() && Now() == Step(old(Now()), SocketError)
    {
      StepKeeps(Now(), SocketError);
      outstanding := false;
      if daemonState.Initializing? {
        var retry := initializingRetry;
        initializingRetry := initializingRetry + 1;
        if retry < MAX_CONNECTION_RETRY {
          timerArmed := true;
          return;
        }
        initialized := initialized + 1;
      }
      DisconnectInternal();
    }

    method FlushCallback()
      modifies this
      ensures Now() == Flushed(old(Now()))
    {
      if logCallback.Waiting? {
        called := called + [logCallback.id];
        logCallback := NoCallback;
      }
    }

    /** LocalSocketController::parseCommand, by the type of the message. */
    method OnReply(reply: Event)
      requires IsReply(reply) && Valid() && Possible(Now(), reply)
      modifies this
      ensures Valid() && Now() == Step(old(Now()), reply)
    {
      StepKeeps(Now(), reply);
      if daemonState.Initializing? && reply.StatusReply? {
        daemonState := Ready;
        if !reply.wellFormed { return; }
        initialized := initialized + 1;
        return;
      }
      if !daemonState.Ready? { return; }
      match reply {
        case DisconnectedReply => DisconnectInternal();
        case LogsReply => FlushCallback();
        case _ =>
      }
    }

    method GetBackendLogs(id: nat)
      requires Valid()
      modifies this
      ensures Valid() && Now() == Step(old(Now()), GetLogs(id))
    {
      StepKeeps(Now(), GetLogs(id));
      FlushCallback();
      registered := registered + [id];
      if !daemonState.Ready? {
        called := called + [id];
        return;
      }
      logCallback := Waiting(id);
    }

    method CleanupBackendLogs()
      requires Valid()
      modifies this
      ensures Valid() && Now() == Step(old(Now()), CleanLogs)
    {
      StepKeeps(Now(), CleanLogs);
      FlushCallback();
    }

    method Handle(e: Event)
      requires Valid() && Possible(Now(), e)
      modifies this
      ensures Valid() && Now() == Step(old(Now()), e)
    {
      match e {
        case Initialize => OnInitialize();
        case TimerFires => OnTimer();
        case SocketConnected => OnConnected();
        case SocketError => OnError();
        case GetLogs(id) => GetBackendLogs(id);
        case CleanLogs => CleanupBackendLogs();
        case _ => OnReply(e);
      }
    }
  }

  /**
   * Any events in any possible order, on the controller itself: there are at most eleven
   * connection attempts, `initialized` is emitted at most once, and the callbacks called,
   * followed by the one waiting, are those handed in, in order.
   */
  method Operate(events: seq<Event>) returns (c: Controller)
    requires PossibleRun(START, events)
    ensures c.Valid() && c.Now() == Run(START, events)
    ensures c.attempts <= 11 && c.initialized <= 1
    ensures c.called + Pending(c.Now()) == c.registered
  {
    c := new Controller();
    for i := 0 to |events|
      invariant c.Valid() && c.Now() == Run(START, events[..i])
      invariant fresh(c)
    {
      assert events[..i + 1][..i] == events[..i];
      c.Handle(events[i]);
    }
    assert events[..|events|] == events;
  }

  // ------------------------------------------------------------ what every run keeps

  predicate Invariant(s: State) {
    && s.retry <= MAX_CONNECTION_RETRY
    && (s.timer ==> s.daemon.Initializing? && !s.outstanding)
    && match s.daemon
       case Unknown => s.attempts == 0 && s.initialized == 0 && !s.outstanding
       case Initializing => s.attempts + (if s.timer then 1 else 0) <= 1 + s.retry && s.initialized == 0
       case Ready => s.attempts <= 1 + MAX_CONNECTION_RETRY && s.initialized <= 1
  }

  lemma StepKeepsInvariant(s: State, e: Event)
    requires Invariant(s) && Possible(s, e)
    ensures Invariant(Step(s, e))
    ensures s.daemon.Ready? ==> Step(s, e).daemon.Ready?
  {
  }

  lemma StepKeeps(s: State, e: Event)
    requires Invariant(s) && Conserved(s) && Possible(s, e)
    ensures Invariant(Step(s, e)) && Conserved(Step(s, e))
  {
    StepKeepsInvariant(s, e);
    StepConservesCallbacks(s, e);
  }

  lemma {:induction false} PossibleRunsKeepInvariant(s: State, events: seq<Event>)
    requires Invariant(s) && PossibleRun(s, events)
    ensures Invariant(Run(s, events))
  {
    if events != [] {
      var n := |events| - 1;
      assert forall i :: 0 <= i < n ==> events[..n][..i] == events[..i];
      PossibleRunsKeepInvariant(s, events[..n]);
      StepKeepsInvariant(Run(s, events[..n]), events[n]);
    }
  }

  /** In every possible run: at most eleven connection attempts, at most one `initialized`. */
  lemma AttemptsAndInitialization(events: seq<Event>)
    requires PossibleRun(START, events)
    ensures Run(START, events).attempts <= 11
    ensures Run(START, events).initialized <= 1
  {
    PossibleRunsKeepInvariant(START, events);
  }

  /** The first attempt and `n` retries, all of them failing but the last still outstanding. */
  function Failing(n: nat): State {
    if n == 0 then Step(START, Initialize) else Step(Step(Failing(n - 1), SocketError), TimerFires)
  }

  /** The eleventh attempt can be reached, so the bound is not slack; the next error gives up. */
  lemma {:induction false} RetriesCount(n: nat)
    requires n <= MAX_CONNECTION_RETRY
    ensures Failing(n) == State(Initializing, n, false, NoCallback, true, n + 1, 0, [], [])
    ensures n == MAX_CONNECTION_RETRY ==> Step(Failing(n), SocketError).daemon.Ready?
                                          && Step(Failing(n), SocketError).initialized == 1
  {
    if n > 0 {
      RetriesCount(n - 1);
      OneRetry(Failing(n - 1));
    }
  }

  lemma OneRetry(s: State)
    requires s.daemon.Initializing? && s.retry < MAX_CONNECTION_RETRY
    ensures Step(Step(s, SocketError), TimerFires)
         == s.(retry := s.retry + 1, attempts := s.attempts + 1, outstanding := true, timer := false)
  {
  }

  /**
   * When a status is harmless: whatever possible events follow one that is taken while
   * initialising, `initialized` is emitted at most once, if and only if no retry was scheduled.
   */
  lemma EarlyReplyIff(s: State)
    requires Invariant(s) && s.daemon.Initializing?
    ensures var t := Step(s, StatusReply(true));
            (forall events :: PossibleRun(t, events) ==> Run(t, events).initialized <= 1) <==> !s.timer
  {
    var t := Step(s, StatusReply(true));
    if s.timer {
      var e := [TimerFires, StatusReply(true)];
      assert e[..1][..0] == [] && e[..0] == [];
      assert Run(t, e[..1]) == Step(t, TimerFires);
      assert PossibleRun(t, e) && Run(t, e).initialized == 2;
    } else {
      StepKeepsInvariant(s, StatusReply(true));
      forall events | PossibleRun(t, events) ensures Run(t, events).initialized <= 1 {
        PossibleRunsKeepInvariant(t, events);
        assert Invariant(Run(t, events));
      }
    }
  }

  /** A scheduled retry is reachable, so the harmful case is too: the first attempt fails. */
  lemma RetryIsReachable()
    ensures PossibleRun(START, [Initialize, SocketError])
    ensures var s := Run(START, [Initialize, SocketError]); Invariant(s) && s.daemon.Initializing? && s.timer
  {
    var e := [Initialize, SocketError];
    assert e[..1][..0] == [] && e[..0] == [];
    assert Run(START, e[..1]) == Step(START, Initialize);
  }

  function Pending(s: State): seq<nat> { if s.slot.Waiting? then [s.slot.id] else [] }

  /** The callbacks called so far, followed by the one waiting, are those registered, in order. */
  predicate Conserved(s: State) { s.called + Pending(s) == s.registered }

  lemma StepConservesCallbacks(s: State, e: Event)
    requires Conserved(s)
    ensures Conserved(Step(s, e))
  {
    assert Flushed(s).called == s.called + Pending(s);
  }

  /**
   * In every run whatsoever, possible or not, the callbacks called so far followed by the one
   * waiting are the callbacks registered, in order: each is called once and none is lost.
   */
  lemma {:induction false} CallbacksConserved(events: seq<Event>)
    ensures Conserved(Run(START, events))
  {
    if events != [] {
      CallbacksConserved(events[..|events| - 1]);
      StepConservesCallbacks(Run(START, events[..|events| - 1]), events[|events| - 1]);
    }
  }
}
