/**
 * The start/stop/loop protocol of the MQTT client (src/mqtt_client.cpp:57-121 and 406-484): a
 * controlling thread that calls `start` and `stop`, and the loop thread, interleaved step by
 * step. They share `running_`, `connected_`, `sock_fd_` and the mutex; `sock_fd_` is also
 * written without the mutex, when a connection is made.
 *
 * Every socket the system hands out is a new number here, so that closing one twice shows.
 */
module MqttThreads {
  import opened Basics

  datatype Owner = Free | Controller | Looper

  /** Why the loop thread is in `close_socket`. */
  datatype Cause = Connecting | HandshakeFailed | LoopEnded

  /** The inside of `close_socket`, by the next thing it does. */
  datatype Closing = Test | Close | Clear | Disconnect | Unlock

  datatype ControlPc =
    | Idle
    | StartTest          // start: look at running_
    | StartSpawn         // start: create the loop thread
    | StopBegin          // stop: running_ = false
    | StopLock           // stop: close_socket, take the mutex
    | StopClosing(step: Closing)
    | StopJoin           // stop: join the loop thread
    | StopReturned

  datatype LoopPc =
    | NoThread           // never started, or joined
    | While              // look at running_
    | Lock(cause: Cause)
    | InClose(cause: Cause, step: Closing)
    | Resolve            // look the host up, open a socket
    | Connect
    | Assign             // sock_fd_ = fd
    | Handshake
    | SetConnected
    | Inner              // the receive loop
    | Sleep
    | Finished

  datatype State = State(
    running: bool,
    connected: bool,
    sock: Option<nat>,
    mutex: Owner,
    control: ControlPc,
    looper: LoopPc,
    local: Option<nat>,
    handedOut: nat,
    closed: multiset<nat>)

  predicate Init(s: State) {
    s == State(false, false, None, Free, Idle, NoThread, None, 0, multiset{})
  }

  /** One step of `close_socket` under the mutex, and where the thread is then inside it. */
  function ClosingStep(s: State, step: Closing): (State, Option<Closing>) {
    match step
    case Test => (s, Some(if s.sock.Some? then Close else Disconnect))
    case Close => (s.(closed := CloseNow(s, s.sock)), Some(Clear))
    case Clear => (s.(sock := None), Some(Disconnect))
    case Disconnect => (s.(connected := false), Some(Unlock))
    case Unlock => (s.(mutex := Free), None)
  }

  function CloseNow(s: State, fd: Option<nat>): multiset<nat> {
    if fd.Some? then s.closed + multiset{fd.value} else s.closed
  }

  function ControlClosing(s: State, step: Closing): State {
    var (u, next) := ClosingStep(s, step);
    u.(control := if next.Some? then StopClosing(next.value) else StopJoin)
  }

  function LoopClosing(s: State, cause: Cause, step: Closing): State {
    var (u, next) := ClosingStep(s, step);
    u.(looper := if next.Some? then InClose(cause, next.value)
                 else if cause == Connecting then Resolve else Sleep)
  }

  predicate ControlStep(s: State, t: State) {
    match s.control
    case Idle => t == s.(control := StartTest) || t == s.(control := StopBegin)
    case StartTest =>
      // running already, or disabled or without a host: return
      t == s.(control := Idle) || (!s.running && t == s.(running := true, control := StartSpawn))
    case StartSpawn => t == s.(looper := While, control := Idle)
    case StopBegin => t == s.(running := false, control := StopLock)
    case StopLock => s.mutex == Free && t == s.(mutex := Controller, control := StopClosing(Test))
    case StopClosing(step) => t == ControlClosing(s, step)
    case StopJoin =>
      s.looper in {NoThread, Finished} && t == s.(looper := NoThread, control := StopReturned)
    case StopReturned => t == s.(control := Idle)
  }

  predicate LoopStep(s: State, t: State) {
    match s.looper
    case NoThread => false
    case While => t == s.(looper := if s.running then Lock(Connecting) else Finished)
    case Lock(cause) => s.mutex == Free && t == s.(mutex := Looper, looper := InClose(cause, Test))
    case InClose(cause, step) => t == LoopClosing(s, cause, step)
    case Resolve =>
      t == s.(looper := Sleep) ||
      t == s.(local := Some(s.handedOut), handedOut := s.handedOut + 1, looper := Connect)
    case Connect =>
      t == s.(closed := CloseNow(s, s.local), local := None, looper := Sleep) ||
      t == s.(looper := Assign)
    case Assign => t == s.(sock := s.local, local := None, looper := Handshake)
    case Handshake => t == s.(looper := Lock(HandshakeFailed)) || t == s.(looper := SetConnected)
    case SetConnected => t == s.(connected := true, looper := Inner)
    case Inner => t == s.(looper := Lock(LoopEnded))
    case Sleep => t == s.(looper := While)
    case Finished => false
  }

  predicate Next(s: State, t: State) { ControlStep(s, t) || LoopStep(s, t) }

  // ---------------------------------------------------------------- the invariant

  /** Only here can the loop thread's connection be in `sock_fd_`. */
  predicate MayHold(pc: LoopPc) {
    match pc
    case Handshake => true
    case SetConnected => true
    case Inner => true
    case Lock(cause) => cause != Connecting
    case InClose(cause, step) => cause != Connecting && step in {Test, Close, Clear}
    case _ => false
  }

  predicate MayBeConnected(pc: LoopPc) {
    match pc
    case Inner => true
    case Lock(cause) => cause == LoopEnded
    case InClose(cause, step) => cause == LoopEnded && step != Unlock
    case _ => false
  }

  predicate Stopping(s: State) {
    s.control in {StopLock, StopJoin, StopReturned} || s.control.StopClosing?
  }

  /** The socket in `sock_fd_` that is still open. */
  function OpenSock(s: State): Option<nat> {
    if s.control == StopClosing(Clear) || (s.looper.InClose? && s.looper.step == Clear) then None
    else s.sock
  }

  predicate Locking(s: State) {
    (s.mutex == Controller <==> s.control.StopClosing?) &&
    (s.mutex == Looper <==> s.looper.InClose?)
  }

  predicate Holding(s: State) {
    (s.sock.Some? ==> MayHold(s.looper) && s.sock.value < s.handedOut) &&
    (s.local.Some? <==> s.looper in {Connect, Assign}) &&
    (s.local.Some? ==> s.local.value < s.handedOut) &&
    (s.connected ==> MayBeConnected(s.looper)) &&
    (s.control in {StopClosing(Close), StopClosing(Clear)} ==> s.sock.Some?) &&
    (s.looper.InClose? && s.looper.step in {Close, Clear} ==> s.sock.Some?)
  }

  predicate Controlled(s: State) {
    (Stopping(s) ==> !s.running) &&
    (s.control == StartSpawn ==> s.running && s.looper == NoThread) &&
    (s.looper != NoThread ==> s.running || Stopping(s)) &&
    (s.control == StopReturned ==> s.looper == NoThread)
  }

  /** Every socket handed out is open in one of the two variables, or closed exactly once. */
  ghost predicate Accounted(s: State) {
    forall fd: nat :: s.closed[fd] ==
      if fd < s.handedOut && s.local != Some(fd) && OpenSock(s) != Some(fd) then 1 else 0
  }

  ghost predicate Inv(s: State) {
    Locking(s) && Holding(s) && Controlled(s) && Accounted(s)
  }

  lemma InitInv(s: State)
    requires Init(s)
    ensures Inv(s)
  {}

  lemma ControlClosingKeepsInv(s: State)
    requires Inv(s) && s.control.StopClosing?
    ensures Inv(ControlClosing(s, s.control.step))
  {}

  lemma ControlKeepsInv(s: State, t: State)
    requires Inv(s) && ControlStep(s, t)
    ensures Inv(t)
  {
    if s.control.StopClosing? {
      ControlClosingKeepsInv(s);
    }
  }

  lemma LoopClosingKeepsInv(s: State)
    requires Inv(s) && s.looper.InClose?
    ensures Inv(LoopClosing(s, s.looper.cause, s.looper.step))
  {
    LoopClosingAccounts(s);
  }

  lemma LoopClosingAccounts(s: State)
    requires Inv(s) && s.looper.InClose?
    ensures Accounted(LoopClosing(s, s.looper.cause, s.looper.step))
  {}

  lemma LoopKeepsInv(s: State, t: State)
    requires Inv(s) && LoopStep(s, t)
    ensures Inv(t)
  {
    if s.looper.InClose? {
      LoopClosingKeepsInv(s);
    }
  }

  // ---------------------------------------------------------------- whole runs

  predicate StepAt(states: seq<State>, i: nat)
    requires i + 1 < |states|
  {
    Next(states[i], states[i + 1])
  }

  predicate Run(states: seq<State>) {
    states != [] && Init(states[0]) && forall i :: 0 <= i < |states| - 1 ==> StepAt(states, i)
  }

  lemma {:induction false} RunKeepsInv(states: seq<State>, n: nat)
    requires Run(states) && n < |states|
    ensures Inv(states[n])
  {
    if n == 0 {
      InitInv(states[0]);
    } else {
      RunKeepsInv(states, n - 1);
      assert StepAt(states, n - 1);
      if ControlStep(states[n - 1], states[n]) {
        ControlKeepsInv(states[n - 1], states[n]);
      } else {
        LoopKeepsInv(states[n - 1], states[n]);
      }
    }
  }

  /** In every interleaving: when `stop` returns, every socket ever opened has been closed
      exactly once, `sock_fd_` is -1, `connected_` is false and no loop thread is left. */
  lemma StoppedIsClean(states: seq<State>, n: nat)
    requires Run(states) && n < |states| && states[n].control == StopReturned
    ensures
      var s := states[n];
      s.sock == None && !s.connected && !s.running && s.looper == NoThread && s.mutex == Free &&
      forall fd: nat :: s.closed[fd] == if fd < s.handedOut then 1 else 0
  {
    RunKeepsInv(states, n);
  }

  /** At any time no socket has been closed twice, none but opened ones are closed, and `start`
      never replaces a thread that has not been joined. */
  lemma AlwaysSafe(states: seq<State>, n: nat)
    requires Run(states) && n < |states|
    ensures
      var s := states[n];
      (forall fd: nat :: s.closed[fd] <= 1 && (fd >= s.handedOut ==> s.closed[fd] == 0)) &&
      (s.control == StartSpawn ==> s.looper == NoThread) &&
      (s.sock.Some? && OpenSock(s).Some? ==> s.closed[s.sock.value] == 0)
  {
    RunKeepsInv(states, n);
  }

  // ---------------------------------------------------------------- the connection

  /** The last socket handed out. */
  function Newest(s: State): Option<nat> {
    if s.handedOut == 0 then None else Some(s.handedOut - 1)
  }

  /** As long as nobody stops the client: from `start` to the loop's end there is a thread, from
      the connection to its close the newest socket is in `sock_fd_`, and the client counts as
      connected from the handshake until that close is over. */
  predicate Connected(s: State) {
    (s.running <==> s.looper != NoThread || s.control == StartSpawn) &&
    s.looper != Finished &&
    (s.looper in {Connect, Assign} ==> s.local == Newest(s) != None) &&
    (s.looper in {Handshake, SetConnected, Inner, Lock(HandshakeFailed), Lock(LoopEnded)} ==>
      s.sock == Newest(s) != None) &&
    (s.looper in {Inner, Lock(LoopEnded), InClose(LoopEnded, Test)} ==> s.connected) &&
    (s.looper.InClose? && s.looper.cause != Connecting && s.looper.step in {Test, Close, Clear} ==>
      s.sock == Newest(s) != None) &&
    (s.looper in {NoThread, While, Resolve, Connect, Assign, Sleep} ==> s.sock == None && !s.connected)
  }

  lemma StepConnects(s: State, t: State)
    requires Inv(s) && Next(s, t) && (!Stopping(s) ==> Connected(s))
    ensures !Stopping(t) ==> Connected(t)
  {
    if ControlStep(s, t) {
      ControlConnects(s, t);
    } else if s.looper.InClose? {
      CloseConnects(s);
    }
  }

  lemma ControlConnects(s: State, t: State)
    requires Inv(s) && ControlStep(s, t) && (!Stopping(s) ==> Connected(s))
    ensures !Stopping(t) ==> Connected(t)
  {}

  lemma CloseConnects(s: State)
    requires Inv(s) && s.looper.InClose? && (!Stopping(s) ==> Connected(s))
    ensures !Stopping(s) ==> Connected(LoopClosing(s, s.looper.cause, s.looper.step))
  {}

  /** ... in every state of every run. */
  lemma {:induction false} RunConnects(states: seq<State>, n: nat)
    requires Run(states) && n < |states| && !Stopping(states[n])
    ensures Connected(states[n])
  {
    if n > 0 {
      RunKeepsInv(states, n - 1);
      assert StepAt(states, n - 1);
      if !Stopping(states[n - 1]) {
        RunConnects(states, n - 1);
      }
      StepConnects(states[n - 1], states[n]);
    }
  }

  /** In the receive loop of a client that nobody stops, `publish` finds it connected, with the
      newest socket. */
  lemma PublishFindsConnection(states: seq<State>, n: nat)
    requires Run(states) && n < |states|
    ensures
      var s := states[n];
      !Stopping(s) ==>
        (s.looper in {Handshake, SetConnected, Inner} ==>
          s.handedOut > 0 && s.sock == Some(s.handedOut - 1)) &&
        (s.looper == Inner ==> s.connected)
  {
    if !Stopping(states[n]) {
      RunConnects(states, n);
    }
  }

  ghost predicate Reachable(s: State) {
    exists states :: Run(states) && states[|states| - 1] == s
  }

  lemma ReachInit()
    ensures Reachable(State(false, false, None, Free, Idle, NoThread, None, 0, multiset{}))
  {
    var s := State(false, false, None, Free, Idle, NoThread, None, 0, multiset{});
    assert Run([s]) && [s][0] == s;
  }

  lemma ReachNext(s: State, t: State)
    requires Reachable(s) && Next(s, t)
    ensures Reachable(t)
  {
    var states :| Run(states) && states[|states| - 1] == s;
    var longer := states + [t];
    forall i | 0 <= i < |longer| - 1 ensures StepAt(longer, i) {
      assert i < |states| - 1 ==> StepAt(states, i);
    }
    assert longer[0] == states[0];
    assert Run(longer) && longer[|longer| - 1] == t;
  }

  /** A close of an empty descriptor by the loop thread, before it connects. */
  lemma ReachResolve(s: State)
    requires Reachable(s) && s.running && s.looper == While && s.mutex == Free && s.sock == None && !s.connected
    ensures Reachable(s.(looper := Resolve))
  {
    var a := s.(looper := Lock(Connecting));
    var b := s.(looper := InClose(Connecting, Test), mutex := Looper);
    var c := b.(looper := InClose(Connecting, Disconnect));
    var d := b.(looper := InClose(Connecting, Unlock));
    ReachNext(s, a);
    ReachNext(a, b);
    ReachNext(b, c);
    ReachNext(c, d);
    ReachNext(d, s.(looper := Resolve));
  }

  /** A close of the loop thread's connection by itself. */
  lemma ReachSleep(s: State, cause: Cause)
    requires Reachable(s) && s.looper == Lock(cause) && cause != Connecting && s.mutex == Free && s.sock.Some?
    ensures Reachable(s.(looper := Sleep, sock := None, connected := false,
                         closed := s.closed + multiset{s.sock.value}))
  {
    var a := s.(looper := InClose(cause, Test), mutex := Looper);
    var b := a.(looper := InClose(cause, Close));
    var c := a.(looper := InClose(cause, Clear), closed := s.closed + multiset{s.sock.value});
    var d := c.(looper := InClose(cause, Disconnect), sock := None);
    var e := d.(looper := InClose(cause, Unlock), connected := false);
    ReachNext(s, a);
    ReachNext(a, b);
    ReachNext(b, c);
    ReachNext(c, d);
    ReachNext(d, e);
    ReachNext(e, e.(looper := Sleep, mutex := Free));
  }

  /** `start` brings a client up to its receive loop; a lost connection is closed and replaced. */
  lemma ClientConnects()
    ensures Reachable(State(true, false, None, Free, Idle, While, None, 0, multiset{}))
    ensures Reachable(State(true, false, Some(0), Free, Idle, Handshake, None, 1, multiset{}))
    ensures Reachable(State(true, true, Some(0), Free, Idle, Inner, None, 1, multiset{}))
    ensures Reachable(State(true, false, None, Free, Idle, While, None, 1, multiset{0}))
    ensures Reachable(State(true, true, Some(1), Free, Idle, Inner, None, 2, multiset{0}))
  {
    var s := State(false, false, None, Free, Idle, NoThread, None, 0, multiset{});
    var a := s.(control := StartTest);
    var b := s.(control := StartSpawn, running := true);
    var c := State(true, false, None, Free, Idle, While, None, 0, multiset{});
    ReachInit();
    ReachNext(s, a);
    ReachNext(a, b);
    ReachNext(b, c);
    ReachInner(c);
    Reconnects();
  }

  lemma Reconnects()
    requires Reachable(State(true, true, Some(0), Free, Idle, Inner, None, 1, multiset{}))
    ensures Reachable(State(true, false, None, Free, Idle, While, None, 1, multiset{0}))
    ensures Reachable(State(true, true, Some(1), Free, Idle, Inner, None, 2, multiset{0}))
  {
    var d := State(true, true, Some(0), Free, Idle, Inner, None, 1, multiset{});
    var e := d.(looper := Lock(LoopEnded));
    var f := State(true, false, None, Free, Idle, Sleep, None, 1, multiset{0});
    ReachNext(d, e);
    assert multiset{} + multiset{0} == multiset{0};
    ReachSleep(e, LoopEnded);
    ReachNext(f, f.(looper := While));
    ReachInner(f.(looper := While));
  }

  lemma ReachInner(s: State)
    requires Reachable(s) && s.running && s.looper == While && s.mutex == Free
    requires s.sock == None && s.local == None && !s.connected
    ensures Reachable(s.(looper := Handshake, sock := Some(s.handedOut), handedOut := s.handedOut + 1))
    ensures Reachable(s.(looper := Inner, sock := Some(s.handedOut), handedOut := s.handedOut + 1,
                         connected := true))
  {
    ReachResolve(s);
    var a := s.(looper := Connect, local := Some(s.handedOut), handedOut := s.handedOut + 1);
    var b := a.(looper := Assign);
    var c := a.(looper := Handshake, local := None, sock := Some(s.handedOut));
    var d := c.(looper := SetConnected);
    ReachNext(s.(looper := Resolve), a);
    ReachNext(a, b);
    ReachNext(b, c);
    ReachNext(c, d);
    ReachNext(d, d.(looper := Inner, connected := true));
  }

  /** What can go wrong on the way: no host or socket, no connection (the new socket is closed),
      no handshake (the descriptor is closed). */
  lemma ConnectingFails()
    ensures Reachable(State(true, false, None, Free, Idle, Sleep, None, 0, multiset{}))
    ensures Reachable(State(true, false, None, Free, Idle, Sleep, None, 1, multiset{0}))
    ensures Reachable(State(true, false, Some(0), Free, Idle, Lock(HandshakeFailed), None, 1, multiset{}))
  {
    ClientConnects();
    ReachResolve(State(true, false, None, Free, Idle, While, None, 0, multiset{}));
    var s := State(true, false, None, Free, Idle, Resolve, None, 0, multiset{});
    var a := s.(looper := Connect, local := Some(0), handedOut := 1);
    ReachNext(s, s.(looper := Sleep));
    ReachNext(s, a);
    assert multiset{} + multiset{0} == multiset{0};
    ReachNext(a, a.(looper := Sleep, local := None, closed := multiset{0}));
    var h := State(true, false, Some(0), Free, Idle, Handshake, None, 1, multiset{});
    ReachNext(h, h.(looper := Lock(HandshakeFailed)));
  }

  /** `stop` in the receive loop: the controlling thread closes the socket, the loop thread finds
      nothing more to close, and after the join a new start is possible. */
  lemma ClientStops()
    ensures Reachable(State(false, false, None, Free, StopJoin, Inner, None, 1, multiset{0}))
    ensures Reachable(State(false, false, None, Free, StopReturned, NoThread, None, 1, multiset{0}))
    ensures Reachable(State(true, false, None, Free, Idle, While, None, 1, multiset{0}))
  {
    ClientConnects();
    var s := State(true, true, Some(0), Free, Idle, Inner, None, 1, multiset{});
    var a := s.(control := StopBegin);
    var b := s.(control := StopLock, running := false);
    var c := b.(control := StopClosing(Test), mutex := Controller);
    var d := c.(control := StopClosing(Close));
    var e := c.(control := StopClosing(Clear), closed := multiset{0});
    assert multiset{} + multiset{0} == multiset{0};
    ReachNext(s, a);
    ReachNext(a, b);
    ReachNext(b, c);
    ReachNext(c, d);
    ReachNext(d, e);
    var f := e.(control := StopClosing(Disconnect), sock := None);
    var g := f.(control := StopClosing(Unlock), connected := false);
    var h := State(false, false, None, Free, StopJoin, Inner, None, 1, multiset{0});
    ReachNext(e, f);
    ReachNext(f, g);
    ReachNext(g, h);
    LoopEnds(h);
  }

  lemma LoopEnds(s: State)
    requires s == State(false, false, None, Free, StopJoin, Inner, None, 1, multiset{0}) && Reachable(s)
    ensures Reachable(State(false, false, None, Free, StopReturned, NoThread, None, 1, multiset{0}))
  {
    var a := s.(looper := Lock(LoopEnded));
    var b := s.(looper := InClose(LoopEnded, Test), mutex := Looper);
    var c := b.(looper := InClose(LoopEnded, Disconnect));
    var d := b.(looper := InClose(LoopEnded, Unlock));
    var e := s.(looper := Sleep);
    var f := s.(looper := While);
    var g := s.(looper := Finished);
    ReachNext(s, a);
    ReachNext(a, b);
    ReachNext(b, c);
    ReachNext(c, d);
    ReachNext(d, e);
    ReachNext(e, f);
    ReachNext(f, g);
    ReachNext(g, s.(looper := NoThread, control := StopReturned));
  }

  // ---------------------------------------------------------------- stop returns

  function ClosingRank(step: Closing): nat {
    match step
    case Test => 5 case Close => 4 case Clear => 3 case Disconnect => 2 case Unlock => 1
  }

  /** How many steps the loop thread has left once `running_` is false. */
  function LoopRank(pc: LoopPc): (rank: nat)
    ensures rank <= 22
  {
    match pc
    case NoThread => 0
    case Finished => 1
    case While => 2
    case Sleep => 3
    case InClose(cause, step) => ClosingRank(step) + (if cause == Connecting then 16 else 3)
    case Lock(cause) => 6 + (if cause == Connecting then 16 else 3)
    case Inner => 10
    case SetConnected => 11
    case Handshake => 12
    case Assign => 13
    case Connect => 14
    case Resolve => 15
  }

  function ControlRank(pc: ControlPc): (rank: nat)
    ensures rank <= 7
  {
    match pc
    case StopLock => 7
    case StopClosing(step) => 1 + ClosingRank(step)
    case StopJoin => 1
    case _ => 0
  }

  function Rank(s: State): nat { ControlRank(s.control) + LoopRank(s.looper) }

  /** Once `stop` has cleared `running_`, every step of either thread brings it nearer to its
      return. */
  lemma StopAdvances(s: State, t: State)
    requires Inv(s) && Next(s, t) && Stopping(s) && s.control != StopReturned
    ensures Stopping(t) && Rank(t) < Rank(s)
  {
    if ControlStep(s, t) {
      ControlAdvances(s, t);
    } else if s.looper.InClose? {
      LoopClosingAdvances(s);
    }
  }

  lemma ControlAdvances(s: State, t: State)
    requires Inv(s) && ControlStep(s, t) && Stopping(s) && s.control != StopReturned
    ensures Stopping(t) && Rank(t) < Rank(s)
  {}

  lemma LoopClosingAdvances(s: State)
    requires s.looper.InClose?
    ensures
      var t := LoopClosing(s, s.looper.cause, s.looper.step);
      t.control == s.control && LoopRank(t.looper) < LoopRank(s.looper)
  {}

  /** ... and until it has returned, some thread can take a step: the two never deadlock. */
  lemma StopIsNotBlocked(s: State)
    requires Inv(s) && Stopping(s) && s.control != StopReturned
    ensures exists t :: Next(s, t)
  {
    var t :=
      if s.control.StopClosing? then ControlClosing(s, s.control.step)
      else if s.looper.InClose? then LoopClosing(s, s.looper.cause, s.looper.step)
      else if s.control == StopLock then s.(mutex := Controller, control := StopClosing(Test))
      else if s.looper in {NoThread, Finished} then s.(looper := NoThread, control := StopReturned)
      else match s.looper
        case While => s.(looper := if s.running then Lock(Connecting) else Finished)
        case Lock(cause) => s.(mutex := Looper, looper := InClose(cause, Test))
        case Resolve => s.(looper := Sleep)
        case Connect => s.(looper := Assign)
        case Assign => s.(sock := s.local, local := None, looper := Handshake)
        case Handshake => s.(looper := SetConnected)
        case SetConnected => s.(connected := true, looper := Inner)
        case Inner => s.(looper := Lock(LoopEnded))
        case _ => s.(looper := While);
    assert Next(s, t);
  }

  lemma RunAdvances(states: seq<State>, n: nat)
    requires Run(states) && n + 1 < |states|
    requires Stopping(states[n]) && states[n].control != StopReturned
    ensures Stopping(states[n + 1]) && Rank(states[n + 1]) < Rank(states[n])
  {
    RunKeepsInv(states, n);
    assert StepAt(states, n);
    StopAdvances(states[n], states[n + 1]);
  }

  /** The first `k` states of a stop that has not returned. */
  lemma {:induction false} RankFalls(states: seq<State>, n: nat, k: nat)
    requires Run(states) && n + k < |states| && Stopping(states[n])
    requires forall i :: n <= i <= n + k ==> states[i].control != StopReturned
    ensures Stopping(states[n + k]) && Rank(states[n + k]) + k <= Rank(states[n])
    decreases k
  {
    if k > 0 {
      RankFalls(states, n, k - 1);
      RunAdvances(states, n + k - 1);
    }
  }

  /** However the two threads are interleaved, `stop` returns within 30 steps of them. */
  lemma StopReturns(states: seq<State>, n: nat)
    requires Run(states) && n + 30 < |states| && states[n].control == StopLock
    ensures exists i :: n < i <= n + 30 && states[i].control == StopReturned
  {
    if forall i :: n <= i <= n + 30 ==> states[i].control != StopReturned {
      RankFalls(states, n, 30);
    }
  }
}
