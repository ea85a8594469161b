/**
  GETPORT (PortMapperContext.cpp): its effect on a session, and a port mapper that answers it.
 */
module PortMapper {
  import opened Bytes
  import opened Messages
  import opened RecordStream
  import opened Monotonic
  import opened Rpc
  import opened Calls
  import opened Replies
  import opened RemoteCall
  import opened Mount
  import S = Session

  /** `port` is what the method returns, -1 without a payload. */
  datatype Queried = Queried(state: S.State, port: int, outcome: Outcome)

  /** The versions a PortMapperContext was made with, and its question. */
  datatype Query = Query(rpcVersion: uint32, programVersion: uint32, program: uint32, version: uint32)

  ghost function GetPortFrame(seed: uint64, host: seq<byte>, q: Query): (bs: seq<byte>)
    requires |host| < 1024
    ensures |bs| == 84 + RoundUp4(|host|)
  {
    var c := GetPortCall(Draw32(seed, 0), q.rpcVersion, q.programVersion, Draw32(seed, 1), host, q.program, q.version);
    AuthSysCallLength(c, Draw32(seed, 1), host);
    Record(EncodeCall(c))
  }

  ghost function GetPortEffect(s: S.State, seed: uint64, host: seq<byte>, q: Query, d: S.Dial, w: Wire,
                               garbage: seq<byte>): Queried
    requires |host| < 1024 && |garbage| == BUFFER_SIZE
  {
    var x := Exchange(S.PortMapperConnected(s, d).state, GetPortFrame(seed, host, q), Draw32(seed, 0), w, garbage);
    match x.answer
    case At(at) => Queried(x.state, ToInt32(WordAt(x.buf, at)), Done)
    case Refused => Queried(x.state, -1, Done)
    case Asserts => Queried(x.state, -1, AssertionFails)
    case Overflows => Queried(x.state, -1, WritesBeyond)
    case NeverReturns => Queried(x.state, -1, Hangs)
  }

  /** The frame of GETPORT fits the request buffer. */
  predicate QueryFits(host: seq<byte>) {
    |host| < 1024 && 84 + RoundUp4(|host|) <= BUFFER_SIZE
  }

  // ------------------------------------------------------------------ the peer

  type Registry = map<(uint32, uint32, uint32), uint32>

  /** Program number, version and protocol to port; 0 for what is not registered (section 3 of RFC 1833). */
  function Lookup(table: Registry, program: uint32, version: uint32, protocol: uint32): uint32 {
    if (program, version, protocol) in table then table[(program, version, protocol)] else 0
  }

  ghost function ServePort(request: seq<byte>, table: Registry): Option<Reply> {
    if !HoldsRecord(request) then None
    else
      var c :- DecodeCall(request[4..4 + RecordLength(request)]);
      var none := OpaqueAuth(0, []);
      if c.prog != 100000 || c.procedure != 3 then
        Some(Accepted(c.xid, none, Failure(PROC_UNAVAIL)))
      else
        var (ws, rest) :- TakeWords(4, c.args);
        Some(Accepted(c.xid, none, Success(U32(Lookup(table, ws[0], ws[1], ws[2])))))
  }

  lemma PortServed(seed: uint64, host: seq<byte>, q: Query, table: Registry)
    requires |host| < 1024
    ensures ServePort(GetPortFrame(seed, host, q), table)
         == Some(Accepted(Draw32(seed, 0), OpaqueAuth(0, []),
                          Success(U32(Lookup(table, q.program, q.version, IPPROTO_TCP)))))
  {
    hide EncodeCall, DecodeCall, DecodeAuthSys, TakeWords, RecordLength, Record, Draw32, Words;
    var frame := GetPortFrame(seed, host, q);
    var c := GetPortCall(Draw32(seed, 0), q.rpcVersion, q.programVersion, Draw32(seed, 1), host, q.program, q.version);
    GetPortFrameDecodes(Draw32(seed, 0), q.rpcVersion, q.programVersion, Draw32(seed, 1), host, q.program, q.version);
    assert frame[4..4 + RecordLength(frame)] == frame[4..];
    assert DecodeCall(frame[4..4 + RecordLength(frame)]) == Some(c);
  }

  /**
    End to end: on the port mapper's connection, new or still open, with enough progress the method returns
    the registered port, the peer has the frame behind what it had, and what follows the reply stays unread.
   */
  lemma GetPortEndToEnd(s: S.State, seed: uint64, host: seq<byte>, q: Query, d: S.Dial, w: Wire, garbage: seq<byte>,
                        table: Registry, reply: Reply, rest: seq<byte>)
    requires |host| < 1024 && |garbage| == BUFFER_SIZE
    requires ServePort(GetPortFrame(seed, host, q), table) == Some(reply)
    requires reply.Valid() && |EncodeReply(reply)| <= BUFFER_SIZE
    requires Ready(S.PortMapperConnected(s, d).state, Record(EncodeReply(reply)) + rest)
    requires Suffices(w, |GetPortFrame(seed, host, q)|, |EncodeReply(reply)|)
    ensures var t, r := S.PortMapperConnected(s, d).state, GetPortEffect(s, seed, host, q, d, w, garbage);
            && r.outcome == Done
            && r.port == ToInt32(Lookup(table, q.program, q.version, IPPROTO_TCP))
            && Ready(r.state, rest)
            && r.state.socketFd == t.socketFd
            && r.state.open[t.socketFd].outbound == t.open[t.socketFd].outbound + GetPortFrame(seed, host, q)
  {
    hide Exchange, GetPortFrame, EncodeReply, Record, ServePort, S.PortMapperConnected, Holds, Suffices, Draw32, Parse,
      WordAt, Lookup;
    var t, frame := S.PortMapperConnected(s, d).state, GetPortFrame(seed, host, q);
    PortServed(seed, host, q, table);
    ExchangeDelivers(t, frame, Draw32(seed, 0), w, garbage, reply, rest);
    var x := Exchange(t, frame, Draw32(seed, 0), w, garbage);
    PayloadIsResults(x.buf, reply);
    ResultWord(x.buf, 24, Lookup(table, q.program, q.version, IPPROTO_TCP));
  }

  lemma ResultWord(s: seq<byte>, at: nat, v: uint32)
    requires Holds(s, at, U32(v))
    ensures at + 4 <= |s| && WordAt(s, at) == v
  {
    HoldsWord(s, at, v);
  }

  /** A query leaves the context connected where it was. */
  lemma QueryKeepsPorts(s: S.State, seed: uint64, host: seq<byte>, q: Query, d: S.Dial, w: Wire, garbage: seq<byte>)
    requires |host| < 1024 && |garbage| == BUFFER_SIZE
    ensures var t, r := S.PortMapperConnected(s, d).state, GetPortEffect(s, seed, host, q, d, w, garbage).state;
            r.port == t.port && r.portMapperPort == t.portMapperPort && r.socketFd == t.socketFd
  {
    hide Exchange, S.PortMapperConnected, GetPortFrame, WordAt, Draw32;
    ExchangeKeepsPorts(S.PortMapperConnected(s, d).state, GetPortFrame(seed, host, q), Draw32(seed, 0), w, garbage);
  }

  /** The first query of a fresh context connects, a later one does not. */
  lemma QueriesConnectOnce(portMapperPort: int, connectError: int, d: S.Dial)
    requires portMapperPort != -1 && d.gai == 0 && d.fd > 0 && d.refused == 0
    ensures var t := S.PortMapperConnected(S.Initial(portMapperPort, connectError), d).state;
            && Ready(t, d.inbound) && t.open[t.socketFd].outbound == []
            && t.port == portMapperPort == t.portMapperPort
  {
    var s0 := S.Initial(portMapperPort, connectError);
    ConnectIsReady(s0, portMapperPort, d);
    S.ConnectToRepeatsPort(s0, d);
  }

  /**
    The program's start: from a fresh context the mount port and then the NFS port are asked for over one
    connection, whose peer receives exactly the two frames, and both answers are the registered ports.
   */
  lemma BothPortsOverOneConnection(portMapperPort: int, connectError: int, seed: uint64, host: seq<byte>, q1: Query,
                                   q2: Query, d1: S.Dial, d2: S.Dial, w1: Wire, w2: Wire, garbage1: seq<byte>,
                                   garbage2: seq<byte>, table: Registry, reply1: Reply, reply2: Reply,
                                   rest: seq<byte>)
    requires portMapperPort != -1
    requires |host| < 1024 && |garbage1| == BUFFER_SIZE == |garbage2|
    requires d1.gai == 0 && d1.fd > 0 && d1.refused == 0
    requires ServePort(GetPortFrame(seed, host, q1), table) == Some(reply1)
    requires ServePort(GetPortFrame(Draw(seed, 2), host, q2), table) == Some(reply2)
    requires reply1.Valid() && |EncodeReply(reply1)| <= BUFFER_SIZE
    requires reply2.Valid() && |EncodeReply(reply2)| <= BUFFER_SIZE
    requires d1.inbound == Record(EncodeReply(reply1)) + (Record(EncodeReply(reply2)) + rest)
    requires Suffices(w1, |GetPortFrame(seed, host, q1)|, |EncodeReply(reply1)|)
    requires Suffices(w2, |GetPortFrame(Draw(seed, 2), host, q2)|, |EncodeReply(reply2)|)
    ensures var r1 := GetPortEffect(S.Initial(portMapperPort, connectError), seed, host, q1, d1, w1, garbage1);
            var r2 := GetPortEffect(r1.state, Draw(seed, 2), host, q2, d2, w2, garbage2);
            && r1.outcome == Done && r1.port == ToInt32(Lookup(table, q1.program, q1.version, IPPROTO_TCP))
            && r2.outcome == Done && r2.port == ToInt32(Lookup(table, q2.program, q2.version, IPPROTO_TCP))
            && Ready(r2.state, rest)
            && r2.state.socketFd == r1.state.socketFd
            && r2.state.open[r2.state.socketFd].outbound
               == GetPortFrame(seed, host, q1) + GetPortFrame(Draw(seed, 2), host, q2)
  {
    hide GetPortEffect, GetPortFrame, EncodeReply, Record, ServePort, S.ConnectedTo, Suffices, Lookup, Draw;
    var s0, frame1 := S.Initial(portMapperPort, connectError), GetPortFrame(seed, host, q1);
    QueriesConnectOnce(portMapperPort, connectError, d1);
    GetPortEndToEnd(s0, seed, host, q1, d1, w1, garbage1, table, reply1, Record(EncodeReply(reply2)) + rest);
    QueryKeepsPorts(s0, seed, host, q1, d1, w1, garbage1);
    var r1 := GetPortEffect(s0, seed, host, q1, d1, w1, garbage1);
    assert S.PortMapperConnected(r1.state, d2).state == r1.state;
    GetPortEndToEnd(r1.state, Draw(seed, 2), host, q2, d2, w2, garbage2, table, reply2, rest);
    assert [] + frame1 == frame1;
  }

  ghost function PortReply(seed: uint64, q: Query, table: Registry): (r: Reply)
    ensures r.Valid() && |EncodeReply(r)| == 28
  {
    SuccessReplySize(Draw32(seed, 0), U32(Lookup(table, q.program, q.version, IPPROTO_TCP)));
    Accepted(Draw32(seed, 0), OpaqueAuth(0, []), Success(U32(Lookup(table, q.program, q.version, IPPROTO_TCP))))
  }

  /**
    The same with nothing left open but the registry: over the slowest connection both answers are the
    registered ports.
   */
  lemma BothPortsOverSlowConnection(portMapperPort: int, connectError: int, seed: uint64, host: seq<byte>, q1: Query,
                                    q2: Query, fd: int, garbage1: seq<byte>, garbage2: seq<byte>, table: Registry)
    requires portMapperPort != -1 && fd > 0
    requires |host| < 1024 && |garbage1| == BUFFER_SIZE == |garbage2|
    ensures var first, second := PortReply(seed, q1, table), PortReply(Draw(seed, 2), q2, table);
            var inbound := Record(EncodeReply(first)) + Record(EncodeReply(second));
            var d, w := S.Dial(0, fd, 0, 0, inbound), Slow(84 + RoundUp4(|host|), 28);
            var r1 := GetPortEffect(S.Initial(portMapperPort, connectError), seed, host, q1, d, w, garbage1);
            var r2 := GetPortEffect(r1.state, Draw(seed, 2), host, q2, d, w, garbage2);
            && r1.outcome == Done && r1.port == ToInt32(Lookup(table, q1.program, q1.version, IPPROTO_TCP))
            && r2.outcome == Done && r2.port == ToInt32(Lookup(table, q2.program, q2.version, IPPROTO_TCP))
            && Ready(r2.state, [])
  {
    hide GetPortEffect, GetPortFrame, EncodeReply, Record, ServePort, Suffices, Slow, Lookup, Draw, Draw32, RoundUp4,
      U32;
    var reply1, reply2 := PortReply(seed, q1, table), PortReply(Draw(seed, 2), q2, table);
    var a, b := Record(EncodeReply(reply1)), Record(EncodeReply(reply2));
    var d, w := S.Dial(0, fd, 0, 0, a + b), Slow(84 + RoundUp4(|host|), 28);
    SlowSuffices(84 + RoundUp4(|host|), 28);
    PortServed(seed, host, q1, table);
    PortServed(Draw(seed, 2), host, q2, table);
    assert b + [] == b;
    BothPortsOverOneConnection(portMapperPort, connectError, seed, host, q1, q2, d, d, w, w, garbage1, garbage2,
                               table, reply1, reply2, []);
  }

  // ------------------------------------------------------------------ other connections

  /**
    A query whose socket calls fail, as on a connection that was refused: nothing moves, and the port is
    read from what the response buffer contained before, if that looks like a successful reply with the
    query's xid.
   */
  lemma FailedQuery(s: S.State, seed: uint64, host: seq<byte>, q: Query, d: S.Dial, w: Wire, garbage: seq<byte>)
    requires |host| < 1024 && |garbage| == BUFFER_SIZE && Fails(w)
    requires S.Sound(S.PortMapperConnected(s, d).state)
    ensures var t, r := S.PortMapperConnected(s, d).state, GetPortEffect(s, seed, host, q, d, w, garbage);
            var mine := WordAt(garbage, 0) == Draw32(seed, 0);
            && r.state.open == t.open && r.state.socketFd == t.socketFd
            && r.port == (if mine && WordAt(garbage, 8) != 1 && WordAt(garbage, 20) == 0
                          then ToInt32(WordAt(garbage, 24)) else -1)
            && r.outcome == (if mine && WordAt(garbage, 8) == 1 && WordAt(garbage, 12) > 1 then AssertionFails
                             else Done)
  {
    hide Exchange, S.PortMapperConnected, GetPortFrame, WordAt, Draw32, S.Sound;
    var t, frame := S.PortMapperConnected(s, d).state, GetPortFrame(seed, host, q);
    FailedExchange(t, frame, Draw32(seed, 0), w, garbage);
    ExchangeKeepsPorts(t, frame, Draw32(seed, 0), w, garbage);
    ParserOnWords(garbage, Draw32(seed, 0));
  }

  /** So it is when the port mapper refuses the connection; the context does not become connected. */
  lemma RefusedQuery(s: S.State, seed: uint64, host: seq<byte>, q: Query, d: S.Dial, w: Wire, garbage: seq<byte>)
    requires |host| < 1024 && |garbage| == BUFFER_SIZE && Fails(w)
    requires S.Inv(s) && s.port != s.portMapperPort && S.LegalDial(S.Disconnected(s).open, d)
    requires d.gai == 0 && d.fd > 0 && d.refused != 0
    ensures S.Sound(S.PortMapperConnected(s, d).state)
    ensures var r := GetPortEffect(s, seed, host, q, d, w, garbage);
            !S.IsConnected(r.state) && S.Written(r.state) == 0
            && (WordAt(garbage, 0) != Draw32(seed, 0) ==> r.port == -1)
  {
    hide GetPortEffect, WordAt, Draw32;
    S.ConnectToRepeatsPort(s, d);
    ConnectIsReady(s, s.portMapperPort, d);
    FailedQuery(s, seed, host, q, d, w, garbage);
  }

  /** With ample progress a query stores bytes behind its response buffer exactly as MNT does. */
  lemma QueryOverflows(s: S.State, seed: uint64, host: seq<byte>, q: Query, d: S.Dial, w: Wire, garbage: seq<byte>,
                       inbound: seq<byte>)
    requires |host| < 1024 && |garbage| == BUFFER_SIZE
    requires Ready(S.PortMapperConnected(s, d).state, inbound)
    requires Ample(w, 84 + RoundUp4(|host|), BUFFER_SIZE)
    ensures var r := GetPortEffect(s, seed, host, q, d, w, garbage);
            && (r.outcome == WritesBeyond <==> RunsOver(inbound, BUFFER_SIZE))
            && (r.outcome == Hangs <==> !HoldsFitting(inbound, BUFFER_SIZE) && !RunsOver(inbound, BUFFER_SIZE))
  {
    hide Exchange, GetPortFrame, RunsOver, HoldsFitting, Ample, Ready, S.PortMapperConnected, Draw32, WordAt;
    ExchangeOverflows(S.PortMapperConnected(s, d).state, GetPortFrame(seed, host, q), Draw32(seed, 0), w, garbage,
                      inbound);
  }

  /** A reply that answers another call yields no port. */
  lemma StaleReplyNoPort(s: S.State, seed: uint64, host: seq<byte>, q: Query, d: S.Dial, w: Wire, garbage: seq<byte>,
                         reply: Reply, rest: seq<byte>)
    requires |host| < 1024 && |garbage| == BUFFER_SIZE
    requires reply.Valid() && |EncodeReply(reply)| <= BUFFER_SIZE && reply.xid != Draw32(seed, 0)
    requires Ready(S.PortMapperConnected(s, d).state, Record(EncodeReply(reply)) + rest)
    requires Suffices(w, |GetPortFrame(seed, host, q)|, |EncodeReply(reply)|)
    ensures var r := GetPortEffect(s, seed, host, q, d, w, garbage);
            r.outcome == Done && r.port == -1 && Ready(r.state, rest)
  {
    hide Exchange, GetPortFrame, EncodeReply, Record, Ready, Suffices, S.PortMapperConnected, Draw32, WordAt;
    StaleReplyRefused(S.PortMapperConnected(s, d).state, GetPortFrame(seed, host, q), Draw32(seed, 0), w, garbage,
                      reply, rest);
  }

  /** A query that does not get through yields no port. */
  lemma OnlyDoneYieldsPort(s: S.State, seed: uint64, host: seq<byte>, q: Query, d: S.Dial, w: Wire, garbage: seq<byte>)
    requires |host| < 1024 && |garbage| == BUFFER_SIZE
    ensures var r := GetPortEffect(s, seed, host, q, d, w, garbage);
            r.port != -1 ==> r.outcome == Done
  {
    hide Exchange, GetPortFrame, Draw32, WordAt, S.PortMapperConnected;
  }

  /** Every well-formed reply that refuses the call yields no port. */
  lemma QueryRefused(s: S.State, seed: uint64, host: seq<byte>, q: Query, d: S.Dial, w: Wire, garbage: seq<byte>,
                     reply: Reply, rest: seq<byte>)
    requires |host| < 1024 && |garbage| == BUFFER_SIZE
    requires reply.Valid() && |EncodeReply(reply)| <= BUFFER_SIZE && Refuses(reply, Draw32(seed, 0))
    requires Ready(S.PortMapperConnected(s, d).state, Record(EncodeReply(reply)) + rest)
    requires Suffices(w, |GetPortFrame(seed, host, q)|, |EncodeReply(reply)|)
    ensures var r := GetPortEffect(s, seed, host, q, d, w, garbage);
            r.outcome == Done && r.port == -1 && Ready(r.state, rest)
  {
    hide Exchange, GetPortFrame, EncodeReply, Record, Ready, Suffices, S.PortMapperConnected, Draw32, WordAt, Refuses;
    ReplyRefuses(S.PortMapperConnected(s, d).state, GetPortFrame(seed, host, q), Draw32(seed, 0), w, garbage, reply,
                 rest);
  }

  // ------------------------------------------------------------------ queries that are one reply behind

  /** A query with the schedules of its call and the reply that the port mapper sends to it. */
  datatype Asked = Asked(q: Query, d: S.Dial, w: Wire, garbage: seq<byte>, reply: Reply) {
    ghost predicate WellFormed() {
      |garbage| == BUFFER_SIZE && reply.Valid() && |EncodeReply(reply)| <= BUFFER_SIZE
    }

    /** The schedules leave enough progress for any reply that fits the response buffer. */
    ghost predicate Served(seed: uint64, host: seq<byte>, table: Registry)
      requires |host| < 1024
    {
      && WellFormed()
      && ServePort(GetPortFrame(seed, host, q), table) == Some(reply)
      && Suffices(w, |GetPortFrame(seed, host, q)|, BUFFER_SIZE)
    }
  }

  ghost predicate AllWellFormed(asks: seq<Asked>) {
    forall i :: 0 <= i < |asks| ==> asks[i].WellFormed()
  }

  /** The replies as they come over the connection. */
  ghost function Replied(asks: seq<Asked>): seq<byte>
    requires AllWellFormed(asks)
  {
    if asks == [] then []
    else
      assert asks[0].WellFormed();
      Record(EncodeReply(asks[0].reply)) + Replied(asks[1..])
  }

  /** What the queries return, one after the other. */
  ghost function Ports(s: S.State, seed: uint64, host: seq<byte>, asks: seq<Asked>): seq<int>
    requires |host| < 1024 && AllWellFormed(asks)
    decreases |asks|
  {
    if asks == [] then []
    else
      assert asks[0].WellFormed();
      var r := GetPortEffect(s, seed, host, asks[0].q, asks[0].d, asks[0].w, asks[0].garbage);
      [r.port] + Ports(r.state, Draw(seed, 2), host, asks[1..])
  }

  ghost predicate AllAsked(asks: seq<Asked>, seed: uint64, host: seq<byte>, table: Registry)
    requires |host| < 1024
  {
    forall i :: 0 <= i < |asks| ==> asks[i].Served(Draw(seed, 2 * i), host, table)
  }

  lemma AskedTail(asks: seq<Asked>, seed: uint64, host: seq<byte>, table: Registry)
    requires |host| < 1024 && asks != [] && AllAsked(asks, seed, host, table)
    ensures asks[0].Served(seed, host, table) && AllAsked(asks[1..], Draw(seed, 2), host, table)
  {
    FirstDraw(seed);
    hide Asked.Served, Draw;
    assert asks[0].Served(Draw(seed, 2 * 0), host, table);
    forall i | 0 <= i < |asks[1..]|
      ensures asks[1..][i].Served(Draw(Draw(seed, 2), 2 * i), host, table)
    {
      DrawsCompose(seed, 2, 2 * i);
      assert 2 + 2 * i == 2 * (i + 1);
      assert asks[i + 1].Served(Draw(seed, 2 * (i + 1)), host, table);
    }
  }

  /** The port mapper answers with the xid of the query. */
  lemma ServedXid(ask: Asked, seed: uint64, host: seq<byte>, table: Registry)
    requires |host| < 1024 && ask.Served(seed, host, table)
    ensures ask.reply.xid == Draw32(seed, 0)
  {
    hide ServePort, GetPortFrame, EncodeReply, Suffices, Draw32;
    PortServed(seed, host, ask.q, table);
  }

  /** Two calls in a row never share an xid. */
  lemma NextXid(seed: uint64)
    ensures Draw32(Draw(seed, 2), 0) != Draw32(seed, 0)
  {
    DrawsCompose(seed, 2, 0);
    SameDraw32(seed, 0, 2);
  }

  /**
    A connection that is one reply behind never recovers: on a context whose port is the port mapper's, each
    query receives the reply to the one before it and returns -1, however many there are.
   */
  lemma {:induction false} QueriesStayBehind(s: S.State, seed: uint64, host: seq<byte>, behind: Reply, asks: seq<Asked>,
                                             table: Registry)
    requires |host| < 1024 && s.port == s.portMapperPort
    requires behind.Valid() && |EncodeReply(behind)| <= BUFFER_SIZE && behind.xid == Draw32(seed, 0)
    requires AllAsked(asks, Draw(seed, 2), host, table)
    requires AllWellFormed(asks)
    requires Ready(s, Record(EncodeReply(behind)) + Replied(asks))
    ensures forall port :: port in Ports(s, Draw(seed, 2), host, asks) ==> port == -1
    decreases |asks|
  {
    hide GetPortEffect, ServePort, GetPortFrame, EncodeReply, Record, Ready, Suffices, Draw, Draw32;
    if asks != [] {
      var ask, seed' := asks[0], Draw(seed, 2);
      AskedTail(asks, seed', host, table);
      ServedXid(ask, seed', host, table);
      NextXid(seed);
      FewerSuffice(ask.w, |GetPortFrame(seed', host, ask.q)|, |EncodeReply(behind)|, BUFFER_SIZE);
      assert S.PortMapperConnected(s, ask.d).state == s;
      StaleReplyNoPort(s, seed', host, ask.q, ask.d, ask.w, ask.garbage, behind, Replied(asks));
      QueryKeepsPorts(s, seed', host, ask.q, ask.d, ask.w, ask.garbage);
      var r := GetPortEffect(s, seed', host, ask.q, ask.d, ask.w, ask.garbage);
      QueriesStayBehind(r.state, seed', host, ask.reply, asks[1..], table);
    }
  }

  lemma FewerSuffice(w: Wire, frame: nat, few: nat, many: nat)
    requires Suffices(w, frame, many) && few <= many
    ensures Suffices(w, frame, few)
  {
  }

  /**
    One receive that fails before it has taken a byte is enough: its query is sent, the reply to it comes
    afterwards, and no later query on the connection returns a port.
   */
  lemma OneFailureNoPorts(s: S.State, seed: uint64, host: seq<byte>, q: Query, d: S.Dial, w: Wire, garbage: seq<byte>,
                          reply: Reply, asks: seq<Asked>, table: Registry)
    requires |host| < 1024 && |garbage| == BUFFER_SIZE && s.port == s.portMapperPort
    requires ServePort(GetPortFrame(seed, host, q), table) == Some(reply)
    requires reply.Valid() && |EncodeReply(reply)| <= BUFFER_SIZE
    requires AllAsked(asks, Draw(seed, 2), host, table)
    requires AllWellFormed(asks)
    requires Ready(s, Record(EncodeReply(reply)) + Replied(asks))
    requires NoSendError(w.sends) && |GetPortFrame(seed, host, q)| <= SendProgress(w.sends)
    requires w.opt != 0 || (w.receives != [] && w.receives[0].RecvError?)
    ensures var r := GetPortEffect(s, seed, host, q, d, w, garbage);
            forall port :: port in Ports(r.state, Draw(seed, 2), host, asks) ==> port == -1
  {
    hide GetPortEffect, ServePort, GetPortFrame, EncodeReply, Record, Suffices, Draw, Draw32, Ports;
    var r, inbound := GetPortEffect(s, seed, host, q, d, w, garbage), Record(EncodeReply(reply)) + Replied(asks);
    NothingReceived(s, seed, host, q, d, w, garbage, inbound);
    ServedReplyXid(seed, host, q, table, reply);
    QueriesStayBehind(r.state, seed, host, reply, asks, table);
  }

  lemma ServedReplyXid(seed: uint64, host: seq<byte>, q: Query, table: Registry, reply: Reply)
    requires |host| < 1024 && ServePort(GetPortFrame(seed, host, q), table) == Some(reply)
    ensures reply.xid == Draw32(seed, 0)
  {
    hide ServePort, GetPortFrame, Draw32;
    PortServed(seed, host, q, table);
  }

  /** The query is sent, and what the peer has sent stays unread. */
  lemma NothingReceived(s: S.State, seed: uint64, host: seq<byte>, q: Query, d: S.Dial, w: Wire, garbage: seq<byte>,
                        inbound: seq<byte>)
    requires |host| < 1024 && |garbage| == BUFFER_SIZE && s.port == s.portMapperPort
    requires Ready(s, inbound)
    requires NoSendError(w.sends) && |GetPortFrame(seed, host, q)| <= SendProgress(w.sends)
    requires w.opt != 0 || (w.receives != [] && w.receives[0].RecvError?)
    ensures var r := GetPortEffect(s, seed, host, q, d, w, garbage);
            Ready(r.state, inbound) && r.state.port == r.state.portMapperPort
  {
    hide GetPortFrame, Parse, WordAt, Draw32, SendLoop, S.Sent;
    var frame := GetPortFrame(seed, host, q);
    FrameArrives(s, frame, w, inbound);
    QueryKeepsPorts(s, seed, host, q, d, w, garbage);
    var t := S.Sent(s, frame, w.sends).state;
    S.ReceiveKeepsInv(t, garbage, w.opt, w.receives);
    assert t.open[t.socketFd := t.open[t.socketFd]] == t.open;
  }
}
