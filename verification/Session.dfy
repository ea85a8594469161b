/**
  The session of a Context as a state machine: what connecting, disconnecting, sending and receiving make of
  its fields and of the descriptors it has open, and what every run keeps.
 */
module Session {
  import opened Bytes
  import opened RecordStream

  /**
    An open descriptor: the port that ::connect was called with, its result, the bytes written to the
    socket, all bytes the peer ever delivers, and how many of those have been read.  Only a result of 0
    means that there is a peer.
   */
  datatype Endpoint = Endpoint(port: int, refused: int, outbound: seq<byte>, inbound: seq<byte>, consumed: nat) {
    function Unread(): seq<byte> {
      if consumed <= |inbound| then inbound[consumed..] else []
    }
  }

  lemma UnreadAdvances(e: Endpoint, n: nat)
    requires e.consumed <= |e.inbound| && n <= |e.Unread()|
    ensures e.(consumed := e.consumed + n).Unread() == e.Unread()[n..]
    ensures e.consumed + n <= |e.inbound|
  {
  }

  /** Taking n more bytes after r were taken: the descriptor table and the unread bytes afterwards. */
  lemma TakesMore(open: map<int, Endpoint>, fd: int, e: Endpoint, r: nat, n: nat)
    requires e.consumed <= |e.inbound| && r + n <= |e.Unread()|
    ensures var e' := e.(consumed := e.consumed + r);
            && open[fd := e'][fd := e'.(consumed := e'.consumed + n)]
                == open[fd := e.(consumed := e.consumed + (r + n))]
            && e.Unread()[r..][n..] == e.Unread()[r + n..]
            && e'.Unread() == e.Unread()[r..]
  {
    UnreadAdvances(e, r);
  }

  /** What the system answers while a connection is set up; `fd` is -1 when there is no socket to be had. */
  datatype Dial = Dial(gai: int, fd: int, refused: int, opt: int, inbound: seq<byte>)

  datatype State = State(
    socketFd: int, port: int, portMapperPort: int, mountPort: int, nfsPort: int,
    error: int, connectError: int, totalSent: uint64, totalReceived: uint64, open: map<int, Endpoint>)

  datatype Result = Result(state: State, status: Status)

  datatype Op =
    | Connect(dial: Dial)
    | ConnectTo(port: int, dial: Dial)
    | Disconnect
    | Send(msg: seq<byte>, sends: seq<SendEvent>)
    | Receive(buf: seq<byte>, opt: int, receives: seq<RecvEvent>)
    | ConnectPortMapper(dial: Dial)
    | ConnectMount(dial: Dial)
    | ConnectNfs(dial: Dial)
    | SetMountPort(mount: uint32)
    | SetNfsPort(nfs: uint32)

  /** There is an open descriptor, and ::connect has reached its peer. */
  predicate IsConnected(s: State) {
    s.socketFd in s.open && s.open[s.socketFd].refused == 0
  }

  /** What printStatus tells the user. */
  predicate ReportsConnected(s: State) {
    !(s.socketFd < 0 || s.connectError != 0)
  }

  function Initial(portMapperPort: int, connectError: int): State {
    State(-1, -1, portMapperPort, -1, -1, 0, connectError, 0, 0, map[])
  }

  function Add64(total: uint64, n: nat): uint64 {
    (total + n) % 0x1_0000_0000_0000_0000
  }

  // ------------------------------------------------------------------ operations

  /** A refused ::connect is only recorded in connectError: the descriptor stays open and the call goes on. */
  function Connected(s: State, d: Dial): Result {
    if s.socketFd != -1 then Result(s, Returned(-1))
    else if d.gai != 0 then Result(s.(error := d.gai), Returned(d.gai))
    else if d.fd < 0 then Result(s.(error := 0, socketFd := d.fd), Returned(-1))
    else
      var t := s.(socketFd := d.fd, connectError := d.refused,
                  open := s.open[d.fd := Endpoint(s.port, d.refused, [], d.inbound, 0)]);
      if d.opt != 0 then Result(t.(error := d.opt), Returned(-1))
      else Result(t.(error := 0), Returned(0))
  }

  /** Descriptor 0 is not closed. */
  function Disconnected(s: State): State {
    if s.socketFd > 0 then
      s.(socketFd := -1, totalSent := 0, totalReceived := 0, open := s.open - {s.socketFd})
    else s
  }

  function ConnectedTo(s: State, port: int, d: Dial): Result {
    Connected(Disconnected(s).(port := port), d)
  }

  /** The results of the inner connect are not looked at: the call always returns 0. */
  function PortMapperConnected(s: State, d: Dial): Result {
    if s.port != s.portMapperPort then
      Result(ConnectedTo(s.(port := s.portMapperPort), s.portMapperPort, d).state, Returned(0))
    else Result(s, Returned(0))
  }

  function SendRun(s: State, msg: seq<byte>, events: seq<SendEvent>): Sending
    requires s.socketFd in s.open
  {
    SendLoop(msg, SendStart(msg, s.open[s.socketFd].outbound, s.error, events))
  }

  function Sent(s: State, msg: seq<byte>, events: seq<SendEvent>): Result {
    if msg == [] then Result(s, Returned(0))
    else if s.socketFd == -1 || s.socketFd !in s.open then Result(s, Returned(-1))
    else
      var e, r := s.open[s.socketFd], SendRun(s, msg, events);
      Result(s.(error := r.error, open := s.open[s.socketFd := e.(outbound := r.outbound)],
                totalSent := if r.status == Returned(0) then Add64(s.totalSent, |msg|) else s.totalSent),
             r.status)
  }

  function RecvRun(s: State, buf: seq<byte>, events: seq<RecvEvent>): Receiving
    requires 4 <= |buf| && s.socketFd in s.open
  {
    RecvLoop(RecvStart(buf, s.open[s.socketFd].Unread(), 0, events))
  }

  /** What a receive loop that ends with r has made of the session. */
  function AfterReceive(s: State, r: Receiving): State
    requires s.socketFd in s.open
  {
    var e := s.open[s.socketFd];
    s.(error := r.error, open := s.open[s.socketFd := e.(consumed := e.consumed + r.received)],
       totalReceived := Add64(s.totalReceived, r.received))
  }

  function Received(s: State, buf: seq<byte>, opt: int, events: seq<RecvEvent>): Result
    requires 4 <= |buf|
  {
    if s.socketFd == -1 || s.socketFd !in s.open then Result(s, Returned(-1))
    else if opt != 0 then Result(s.(error := opt), Returned(-1))
    else
      var r := RecvRun(s, buf, events);
      Result(AfterReceive(s.(error := 0), r), r.status)
  }

  function Step(s: State, op: Op): Result
    requires op.Receive? ==> 4 <= |op.buf|
  {
    match op
    case Connect(d) => Connected(s, d)
    case ConnectTo(port, d) => ConnectedTo(s, port, d)
    case Disconnect => Result(Disconnected(s), Returned(0))
    case Send(msg, events) => Sent(s, msg, events)
    case Receive(buf, opt, events) => Received(s, buf, opt, events)
    case ConnectPortMapper(d) => PortMapperConnected(s, d)
    case ConnectMount(d) => Result(ConnectedTo(s, s.mountPort, d).state, Returned(0))
    case ConnectNfs(d) => Result(ConnectedTo(s, s.nfsPort, d).state, Returned(0))
    case SetMountPort(p) => Result(s.(mountPort := ToInt32(p)), Returned(0))
    case SetNfsPort(p) => Result(s.(nfsPort := ToInt32(p)), Returned(0))
  }

  // ------------------------------------------------------------------ runs

  /** The system hands out descriptors that are not open. */
  predicate LegalDial(open: map<int, Endpoint>, d: Dial) {
    d.fd == -1 || (d.fd >= 0 && d.fd !in open)
  }

  predicate Legal(s: State, op: Op) {
    match op
    case Connect(d) => LegalDial(s.open, d)
    case ConnectTo(_, d) => LegalDial(Disconnected(s).open, d)
    case ConnectPortMapper(d) => LegalDial(Disconnected(s).open, d)
    case ConnectMount(d) => LegalDial(Disconnected(s).open, d)
    case ConnectNfs(d) => LegalDial(Disconnected(s).open, d)
    case Receive(buf, _, _) => 4 <= |buf|
    case _ => true
  }

  /** No dial of the operation obtains descriptor 0, that is, standard input is open. */
  predicate Positive(op: Op) {
    match op
    case Connect(d) => d.fd != 0
    case ConnectTo(_, d) => d.fd != 0
    case ConnectPortMapper(d) => d.fd != 0
    case ConnectMount(d) => d.fd != 0
    case ConnectNfs(d) => d.fd != 0
    case _ => true
  }

  predicate LegalRun(s: State, ops: seq<Op>)
    decreases |ops|
  {
    ops == [] ||
    (Legal(s, ops[0])
     && (Step(s, ops[0]).status.Returned? ==> LegalRun(Step(s, ops[0]).state, ops[1..])))
  }

  predicate AllPositive(ops: seq<Op>) {
    forall i :: 0 <= i < |ops| ==> Positive(ops[i])
  }

  /** A call that does not return keeps the lock, so it is the last one of its run. */
  function Run(s: State, ops: seq<Op>): State
    requires LegalRun(s, ops)
    decreases |ops|
  {
    if ops == [] then s
    else
      var r := Step(s, ops[0]);
      if r.status.Returned? then Run(r.state, ops[1..]) else r.state
  }

  /**
    At most one descriptor is open and it is the one in socketFd; connectError is the result of its
    ::connect; what was counted as received was consumed; a closed context has counted nothing.
   */
  ghost predicate Steady(s: State) {
    && (s.socketFd == -1 ==> s.open == map[] && s.totalSent == 0 && s.totalReceived == 0)
    && (s.socketFd != -1 ==>
          && s.socketFd >= 0
          && s.open.Keys == {s.socketFd}
          && var e := s.open[s.socketFd];
             && e.refused == s.connectError
             && e.consumed <= |e.inbound|
             && s.totalReceived == e.consumed % 0x1_0000_0000_0000_0000
             && s.totalSent <= |e.outbound|)
  }

  /** Moreover the descriptor is not 0, and the peer that ::connect has reached is at `port`. */
  ghost predicate Inv(s: State) {
    && Steady(s)
    && (s.socketFd != -1 ==>
          && s.socketFd > 0
          && (s.connectError == 0 ==> s.open[s.socketFd].port == s.port))
  }

  lemma AddsTo(total: uint64, a: nat, b: nat)
    requires total == a % 0x1_0000_0000_0000_0000
    ensures Add64(total, b) == (a + b) % 0x1_0000_0000_0000_0000
    ensures Add64(total, b) <= total + b
  {
    ModAdds(a, b);
  }

  lemma DisconnectKeepsInv(s: State)
    requires Steady(s)
    ensures Steady(Disconnected(s))
    ensures s.socketFd != 0 ==> Disconnected(s).socketFd == -1 && Disconnected(s).open == map[]
    ensures Inv(s) ==> Inv(Disconnected(s)) && Disconnected(s).socketFd == -1
  {
  }

  lemma ConnectKeepsInv(s: State, d: Dial)
    requires Steady(s) && LegalDial(s.open, d)
    ensures Steady(Connected(s, d).state)
    ensures Inv(s) && d.fd != 0 ==> Inv(Connected(s, d).state)
  {
  }

  lemma ConnectToKeepsInv(s: State, port: int, d: Dial)
    requires Steady(s) && LegalDial(Disconnected(s).open, d)
    ensures Steady(ConnectedTo(s, port, d).state)
    ensures Inv(s) && d.fd != 0 ==> Inv(ConnectedTo(s, port, d).state)
  {
    DisconnectKeepsInv(s);
    ConnectKeepsInv(Disconnected(s).(port := port), d);
  }

  lemma SendKeepsInv(s: State, msg: seq<byte>, events: seq<SendEvent>)
    requires Steady(s)
    ensures Steady(Sent(s, msg, events).state)
    ensures Inv(s) ==> Inv(Sent(s, msg, events).state)
  {
    if msg != [] && s.socketFd != -1 {
      SendWritesPrefix(msg, SendStart(msg, s.open[s.socketFd].outbound, s.error, events));
    }
  }

  lemma ReceiveKeepsInv(s: State, buf: seq<byte>, opt: int, events: seq<RecvEvent>)
    requires Steady(s) && 4 <= |buf|
    ensures Steady(Received(s, buf, opt, events).state)
    ensures Inv(s) ==> Inv(Received(s, buf, opt, events).state)
  {
    if s.socketFd != -1 && opt == 0 {
      var e := s.open[s.socketFd];
      ReceiveSplitsRecord(buf, e.Unread(), 0, events);
      AddsTo(s.totalReceived, e.consumed, RecvRun(s, buf, events).received);
    }
  }

  lemma StepKeepsInv(s: State, op: Op)
    requires Steady(s) && Legal(s, op)
    ensures Steady(Step(s, op).state)
    ensures Inv(s) && Positive(op) ==> Inv(Step(s, op).state)
  {
    match op
    case Connect(d) => ConnectKeepsInv(s, d);
    case ConnectTo(port, d) => ConnectToKeepsInv(s, port, d);
    case Disconnect => DisconnectKeepsInv(s);
    case Send(msg, events) => SendKeepsInv(s, msg, events);
    case Receive(buf, opt, events) => ReceiveKeepsInv(s, buf, opt, events);
    case ConnectPortMapper(d) =>
      if s.port != s.portMapperPort {
        ConnectToRepeatsPort(s, d);
        ConnectToKeepsInv(s, s.portMapperPort, d);
      }
    case ConnectMount(d) => ConnectToKeepsInv(s, s.mountPort, d);
    case ConnectNfs(d) => ConnectToKeepsInv(s, s.nfsPort, d);
    case SetMountPort(p) =>
    case SetNfsPort(p) =>
  }

  /** Setting the port before a reconnect that sets it again changes nothing. */
  lemma ConnectToRepeatsPort(s: State, d: Dial)
    ensures ConnectedTo(s.(port := s.portMapperPort), s.portMapperPort, d) == ConnectedTo(s, s.portMapperPort, d)
  {
  }

  /** The session invariant over every run; in runs in which no dial obtains descriptor 0, with the peer's port. */
  lemma {:induction false} SessionInvariant(s: State, ops: seq<Op>)
    requires Steady(s) && LegalRun(s, ops)
    ensures Steady(Run(s, ops))
    ensures Inv(s) && AllPositive(ops) ==> Inv(Run(s, ops))
    decreases |ops|
  {
    if ops != [] {
      StepKeepsInv(s, ops[0]);
      if Step(s, ops[0]).status.Returned? {
        assert forall i :: 0 <= i < |ops[1..]| ==> ops[1..][i] == ops[i + 1];
        SessionInvariant(Step(s, ops[0]).state, ops[1..]);
      }
    }
  }

  // ------------------------------------------------------------------ connected or not

  /**
    After every run, printStatus says "Connected" exactly when there is a connection; its peer is at `port`
    if no dial has obtained descriptor 0.
   */
  lemma StatusReportExact(portMapperPort: int, connectError: int, ops: seq<Op>)
    requires LegalRun(Initial(portMapperPort, connectError), ops)
    ensures var s := Run(Initial(portMapperPort, connectError), ops);
            && (ReportsConnected(s) <==> IsConnected(s))
            && (AllPositive(ops) && IsConnected(s) ==> s.open[s.socketFd].port == s.port)
  {
    SessionInvariant(Initial(portMapperPort, connectError), ops);
  }

  /**
    A reconnect ends up connected exactly when the address is found, there is a socket, and ::connect
    returns 0; so its own return of 0 means a connection exactly when ::connect returned 0 as well.
   */
  lemma ConnectExact(s: State, port: int, d: Dial)
    requires Inv(s) && LegalDial(Disconnected(s).open, d)
    ensures var r := ConnectedTo(s, port, d);
            && (IsConnected(r.state) <==> d.gai == 0 && d.fd >= 0 && d.refused == 0)
            && (r.status == Returned(0) <==> d.gai == 0 && d.fd >= 0 && d.opt == 0)
            && (r.status == Returned(0) ==> (IsConnected(r.state) <==> d.refused == 0))
            && r.state.port == port
            && (IsConnected(r.state) ==> r.state.open[r.state.socketFd].port == port)
  {
    DisconnectKeepsInv(s);
  }

  /**
    With a port mapper that can be reached, a context ends up connected to it exactly when it was on another
    port or was connected: one that failed to connect to the port mapper before is never connected again
    this way.
   */
  lemma PortMapperConnects(s: State, d: Dial)
    requires Inv(s) && LegalDial(Disconnected(s).open, d) && d.gai == 0 && d.fd > 0 && d.refused == 0
    ensures IsConnected(PortMapperConnected(s, d).state)
            <==> s.port != s.portMapperPort || (s.socketFd != -1 && s.connectError == 0)
  {
    if s.port != s.portMapperPort {
      ConnectToRepeatsPort(s, d);
      ConnectExact(s, s.portMapperPort, d);
    }
  }

  /**
    A port mapper that refuses once: the call returns 0 all the same, and no later call connects, however
    willing the port mapper is by then.
   */
  lemma RefusedOnce(portMapperPort: int, connectError: int, fd: int, refused: int, later: Dial)
    requires portMapperPort != -1 && fd > 0 && refused != 0
    ensures var r := PortMapperConnected(Initial(portMapperPort, connectError), Dial(0, fd, refused, 0, []));
            && r.status == Returned(0)
            && r.state.socketFd == fd && r.state.port == portMapperPort
            && !IsConnected(r.state)
            && PortMapperConnected(r.state, later) == Result(r.state, Returned(0))
  {
    ConnectToRepeatsPort(Initial(portMapperPort, connectError), Dial(0, fd, refused, 0, []));
  }

  // ------------------------------------------------------------------ descriptor 0

  /** What holds whatever descriptors are handed out: the one in socketFd is open. */
  ghost predicate Sound(s: State) {
    s.socketFd != -1 ==> s.socketFd in s.open && s.open[s.socketFd].consumed <= |s.open[s.socketFd].inbound|
  }

  lemma ReceiveKeepsSound(s: State, buf: seq<byte>, opt: int, events: seq<RecvEvent>)
    requires Sound(s) && 4 <= |buf|
    ensures Sound(Received(s, buf, opt, events).state)
  {
    if s.socketFd != -1 && opt == 0 {
      ReceiveSplitsRecord(buf, s.open[s.socketFd].Unread(), 0, events);
    }
  }

  lemma StepKeepsSound(s: State, op: Op)
    requires Sound(s) && Legal(s, op)
    ensures Sound(Step(s, op).state)
  {
    match op
    case Receive(buf, opt, events) => ReceiveKeepsSound(s, buf, opt, events);
    case ConnectPortMapper(d) => ConnectToRepeatsPort(s, d);
    case _ =>
  }

  lemma {:induction false} RunKeepsSound(s: State, ops: seq<Op>)
    requires Sound(s) && LegalRun(s, ops)
    ensures Sound(Run(s, ops))
    decreases |ops|
  {
    if ops != [] {
      StepKeepsSound(s, ops[0]);
      if Step(s, ops[0]).status.Returned? {
        RunKeepsSound(Step(s, ops[0]).state, ops[1..]);
      }
    }
  }

  /** As Inv, but the descriptor may be 0. */
  ghost predicate OneOpen(s: State) {
    && s.socketFd >= 0 && s.open.Keys == {s.socketFd}
    && s.open[s.socketFd].refused == s.connectError
    && (s.connectError == 0 ==> s.open[s.socketFd].port == s.port)
  }

  /** A disconnect closes an open context exactly when its descriptor is not 0. */
  lemma DisconnectCloses(s: State)
    requires OneOpen(s)
    ensures Disconnected(s).open == map[] <==> s.socketFd != 0
    ensures Disconnected(s).socketFd == -1 <==> s.socketFd != 0
  {
  }

  lemma StepKeepsZero(s: State, op: Op)
    requires s.socketFd == 0 && s.open.Keys == {0} && Legal(s, op)
    ensures var t := Step(s, op).state;
            t.socketFd == 0 && t.open.Keys == {0}
            && t.open[0].port == s.open[0].port && t.open[0].refused == s.open[0].refused
  {
    if op.ConnectPortMapper? {
      ConnectToRepeatsPort(s, op.dial);
    }
  }

  /** Once a context has descriptor 0, no run of any operations closes it or connects it to another port. */
  lemma {:induction false} DescriptorZeroStays(s: State, ops: seq<Op>)
    requires s.socketFd == 0 && s.open.Keys == {0} && LegalRun(s, ops)
    ensures var t := Run(s, ops);
            t.socketFd == 0 && t.open.Keys == {0}
            && t.open[0].port == s.open[0].port && t.open[0].refused == s.open[0].refused
    decreases |ops|
  {
    if ops != [] {
      StepKeepsZero(s, ops[0]);
      if Step(s, ops[0]).status.Returned? {
        DescriptorZeroStays(Step(s, ops[0]).state, ops[1..]);
      }
    }
  }

  /**
    After a reconnect a connected socket leads to `port` exactly when its old descriptor was not 0, or the
    port is the same, or the old socket was never connected.
   */
  lemma ReconnectLeadsToPort(s: State, port: int, d: Dial)
    requires OneOpen(s) && LegalDial(Disconnected(s).open, d)
    ensures var t := ConnectedTo(s, port, d).state;
            (IsConnected(t) ==> t.open[t.socketFd].port == t.port)
            <==> s.socketFd != 0 || port == s.port || s.connectError != 0
  {
  }

  // ------------------------------------------------------------------ byte conservation

  /** Bytes written to the current connection by sends that returned 0, and by sends that did not. */
  datatype Ledger = Ledger(completed: nat, lost: nat)

  ghost function Written(s: State): nat {
    if s.socketFd in s.open then |s.open[s.socketFd].outbound| else 0
  }

  /** The books are closed with the connection; descriptor 0 stays open. */
  ghost function Closed(s: State, l: Ledger): Ledger {
    if s.socketFd == 0 then l else Ledger(0, 0)
  }

  ghost function Book(s: State, op: Op, l: Ledger): Ledger
    requires Legal(s, op)
  {
    match op
    case Disconnect => Closed(s, l)
    case ConnectTo(_, _) => Closed(s, l)
    case ConnectMount(_) => Closed(s, l)
    case ConnectNfs(_) => Closed(s, l)
    case ConnectPortMapper(_) => if s.port != s.portMapperPort then Closed(s, l) else l
    case Send(msg, events) =>
      var r := Step(s, op);
      if r.status == Returned(0) then l.(completed := l.completed + |msg|)
      else if Written(r.state) >= Written(s) then l.(lost := l.lost + Written(r.state) - Written(s))
      else l
    case _ => l
  }

  /** The ledger at the end of a run. */
  ghost function Account(s: State, ops: seq<Op>, l: Ledger): Ledger
    requires LegalRun(s, ops)
    decreases |ops|
  {
    if ops == [] then l
    else
      var r := Step(s, ops[0]);
      if r.status.Returned? then Account(r.state, ops[1..], Book(s, ops[0], l)) else Book(s, ops[0], l)
  }

  /** The books balance: nothing is written that neither a completed nor a failed send accounts for. */
  ghost predicate Balanced(s: State, l: Ledger) {
    Written(s) == l.completed + l.lost && s.totalSent == l.completed % 0x1_0000_0000_0000_0000
  }

  lemma ConnectBalances(s: State, d: Dial)
    requires Steady(s) && s.socketFd == -1
    ensures Balanced(Connected(s, d).state, Ledger(0, 0))
  {
  }

  lemma ConnectToBalances(s: State, port: int, d: Dial, l: Ledger)
    requires Steady(s) && Balanced(s, l)
    ensures Balanced(ConnectedTo(s, port, d).state, Closed(s, l))
  {
    DisconnectKeepsInv(s);
    if s.socketFd != 0 {
      ConnectBalances(Disconnected(s).(port := port), d);
    }
  }

  lemma SendBalances(s: State, msg: seq<byte>, events: seq<SendEvent>, l: Ledger)
    requires Steady(s) && Balanced(s, l)
    ensures Balanced(Sent(s, msg, events).state, Book(s, Send(msg, events), l))
  {
    if msg != [] && s.socketFd != -1 {
      var st := SendStart(msg, s.open[s.socketFd].outbound, s.error, events);
      SendWritesPrefix(msg, st);
      AddsTo(s.totalSent, l.completed, |msg|);
    }
  }

  lemma StepBalances(s: State, op: Op, l: Ledger)
    requires Steady(s) && Legal(s, op) && Balanced(s, l)
    ensures Balanced(Step(s, op).state, Book(s, op, l))
  {
    match op
    case Connect(d) =>
      if s.socketFd == -1 {
        ConnectBalances(s, d);
      }
    case ConnectTo(port, d) => ConnectToBalances(s, port, d, l);
    case Disconnect => DisconnectKeepsInv(s);
    case Send(msg, events) => SendBalances(s, msg, events, l);
    case Receive(buf, opt, events) =>
    case ConnectPortMapper(d) =>
      if s.port != s.portMapperPort {
        ConnectToRepeatsPort(s, d);
        ConnectToBalances(s, s.portMapperPort, d, l);
      }
    case ConnectMount(d) => ConnectToBalances(s, s.mountPort, d, l);
    case ConnectNfs(d) => ConnectToBalances(s, s.nfsPort, d, l);
    case SetMountPort(p) =>
    case SetNfsPort(p) =>
  }

  lemma {:induction false} RunBalances(s: State, ops: seq<Op>, l: Ledger)
    requires Steady(s) && LegalRun(s, ops) && Balanced(s, l)
    ensures Balanced(Run(s, ops), Account(s, ops, l))
    decreases |ops|
  {
    if ops != [] {
      StepKeepsInv(s, ops[0]);
      StepBalances(s, ops[0], l);
      if Step(s, ops[0]).status.Returned? {
        RunBalances(Step(s, ops[0]).state, ops[1..], Book(s, ops[0], l));
      }
    }
  }

  /**
    Byte conservation for every run from a fresh context: what was received is what was consumed, and
    totalSent never exceeds what was written and equals it exactly when no send of this connection stopped
    after a partial write (and the 64-bit counter has not wrapped).
   */
  lemma ByteConservation(portMapperPort: int, connectError: int, ops: seq<Op>)
    requires LegalRun(Initial(portMapperPort, connectError), ops)
    ensures var s0 := Initial(portMapperPort, connectError);
            var s, l := Run(s0, ops), Account(s0, ops, Ledger(0, 0));
            && Written(s) == l.completed + l.lost
            && s.totalSent <= Written(s)
            && (s.totalSent == Written(s) <==> l.lost == 0 && Written(s) < 0x1_0000_0000_0000_0000)
            && (s.socketFd != -1 ==>
                  s.socketFd in s.open && s.totalReceived == s.open[s.socketFd].consumed % 0x1_0000_0000_0000_0000)
            && (s.socketFd == -1 ==> s.totalReceived == 0 && s.totalSent == 0)
  {
    var s0 := Initial(portMapperPort, connectError);
    SessionInvariant(s0, ops);
    RunBalances(s0, ops, Ledger(0, 0));
  }
}
