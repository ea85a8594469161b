/**
  MNT and UMNT calls (Mount.cpp) against a server that decodes what it receives, over connections of every
  kind.
 */
module Mount {
  import opened Bytes
  import opened Xdr
  import opened Messages
  import opened RecordStream
  import opened Monotonic
  import opened Rpc
  import opened Calls
  import opened Replies
  import opened RemoteCall
  import S = Session

  /**
    How the call methods end.  `ReadsBeyond` is a reply whose decoding would leave the response buffer;
    `WritesBeyond` is a record that is received, or a request that is built, beyond its buffer.
   */
  datatype Outcome = Done | NotSent | AssertionFails | ReadsBeyond | WritesBeyond | Hangs

  datatype Mounted = Mounted(state: S.State, fhandle: seq<byte>, outcome: Outcome)

  ghost function MountFrame(seed: uint64, procedure: uint32, host: seq<byte>, remote: seq<byte>): (bs: seq<byte>)
    requires |host| < 1024 && |remote| < 1024
    ensures |bs| == 72 + RoundUp4(|host|) + RoundUp4(|remote|)
  {
    var c := MountCall(Draw32(seed, 0), procedure, Draw32(seed, 1), host, remote);
    AuthSysCallLength(c, Draw32(seed, 1), host);
    Record(EncodeCall(c))
  }

  /** The frame of MNT and UMNT fits the request buffer. */
  predicate MountFits(host: seq<byte>, remote: seq<byte>) {
    |host| < 1024 && |remote| < 1024 && 72 + RoundUp4(|host|) + RoundUp4(|remote|) <= BUFFER_SIZE
  }

  /** What a MNT call makes of the session and of the handle, given the old contents of the response buffer. */
  ghost function MountEffect(s: S.State, seed: uint64, host: seq<byte>, remote: seq<byte>, d: S.Dial, w: Wire,
                             garbage: seq<byte>, fhandle: seq<byte>): Mounted
    requires |host| < 1024 && |remote| < 1024 && 32 <= |garbage|
  {
    var t := S.Step(s, S.ConnectMount(d)).state;
    var x := Exchange(t, MountFrame(seed, MOUNTPROC3_MNT, host, remote), Draw32(seed, 0), w, garbage);
    match x.answer
    case At(at) =>
      (match MountDecode(x.buf, at, fhandle)
       case Some(view) => Mounted(x.state, view.fhandle, Done)
       case None => Mounted(x.state, fhandle, ReadsBeyond))
    case Refused => Mounted(x.state, fhandle, AssertionFails)
    case Asserts => Mounted(x.state, fhandle, AssertionFails)
    case Overflows => Mounted(x.state, fhandle, WritesBeyond)
    case NeverReturns => Mounted(x.state, fhandle, Hangs)
  }

  datatype Unmounted = Unmounted(state: S.State, outcome: Outcome)

  /** What an UMNT call makes of the session; the reply is parsed, and whatever it says is not looked at. */
  ghost function UmountEffect(s: S.State, seed: uint64, host: seq<byte>, remote: seq<byte>, d: S.Dial, w: Wire,
                              garbage: seq<byte>): Unmounted
    requires |host| < 1024 && |remote| < 1024 && 32 <= |garbage|
  {
    var t := S.Step(s, S.ConnectMount(d)).state;
    var x := Exchange(t, MountFrame(seed, MOUNTPROC3_UMNT, host, remote), Draw32(seed, 0), w, garbage);
    match x.answer
    case At(at) => Unmounted(x.state, Done)
    case Refused => Unmounted(x.state, Done)
    case Asserts => Unmounted(x.state, AssertionFails)
    case Overflows => Unmounted(x.state, WritesBeyond)
    case NeverReturns => Unmounted(x.state, Hangs)
  }

  // ------------------------------------------------------------------ the peer

  /** What the server has under a path: an exported directory, or a reason to refuse it. */
  datatype Export = Export(fhandle: seq<byte>, flavors: seq<uint32>) | NoExport(status: uint32) {
    predicate Valid() {
      match this
      case Export(_, _) => |fhandle| <= 64 && |flavors| < 0x1_0000_0000
      case NoExport(status) => status != 0
    }
  }

  predicate IsExported(exports: map<seq<byte>, Export>, path: seq<byte>) {
    path in exports && exports[path].Export?
  }

  /** The handle of an exported path, nothing for any other. */
  function HandleOf(exports: map<seq<byte>, Export>, path: seq<byte>): seq<byte> {
    if IsExported(exports, path) then exports[path].fhandle else []
  }

  const MNT3ERR_NOENT: uint32 := 2
  const PROC_UNAVAIL: uint32 := 3

  ghost function MountResults(exports: map<seq<byte>, Export>, path: seq<byte>): seq<byte>
    requires path in exports ==> exports[path].Valid()
  {
    if path !in exports then U32(MNT3ERR_NOENT)
    else
      match exports[path]
      case Export(fhandle, flavors) => EncodeMountOk(fhandle, flavors)
      case NoExport(status) => U32(status)
  }

  /**
    A mount server with the numbers of Appendix I of RFC 1813: program 100005, version 3, procedures 1 (MNT)
    and 3 (UMNT).  It decodes the call, looks the path up and answers with the caller's xid and an empty
    verifier.
   */
  ghost function ServeMount(request: seq<byte>, exports: map<seq<byte>, Export>): Option<Reply>
    requires forall p :: p in exports ==> exports[p].Valid()
  {
    if !HoldsRecord(request) then None
    else
      var c :- DecodeCall(request[4..4 + RecordLength(request)]);
      var none := OpaqueAuth(0, []);
      if c.rpcvers != 2 then Some(Denied(c.xid, RpcMismatch(2, 2)))
      else if c.prog != 100005 || c.vers != 3 || c.procedure !in {1, 3} then
        Some(Accepted(c.xid, none, Failure(PROC_UNAVAIL)))
      else
        var (path, rest) :- TakeOpaque(c.args);
        Some(Accepted(c.xid, none, Success(if c.procedure == 1 then MountResults(exports, path) else [])))
  }

  /** Who has mounted what, as the server sees it: host and path. */
  type MountList = set<(seq<byte>, seq<byte>)>

  /** What a call makes of the server's list (sections I.4.1 and I.4.3 of RFC 1813). */
  ghost function Listed(request: seq<byte>, list: MountList, exports: map<seq<byte>, Export>): Option<MountList> {
    if !HoldsRecord(request) then None
    else
      var c :- DecodeCall(request[4..4 + RecordLength(request)]);
      var p :- DecodeAuthSys(c.cred.body);
      var (path, rest) :- TakeOpaque(c.args);
      if c.prog != 100005 then None
      else if c.procedure == 3 then Some(list - {(p.machine, path)})
      else if c.procedure == 1 && IsExported(exports, path) then Some(list + {(p.machine, path)})
      else Some(list)
  }

  /** A frame carries its call to the peer. */
  lemma FrameCarriesCall(c: CallMessage)
    requires c.Valid() && |EncodeCall(c)| < 0x8000_0000
    ensures var frame := Record(EncodeCall(c));
            HoldsRecord(frame) && 4 + RecordLength(frame) == |frame|
                && DecodeCall(frame[4..4 + RecordLength(frame)]) == Some(c)
  {
    var body := EncodeCall(c);
    RecordLengthOfRecord(body, []);
    assert Record(body) + [] == Record(body);
    CallRoundTrip(c);
  }

  /** The peer finds in a MNT or UMNT frame the xid, the credential and the path that went in, and nothing else. */
  lemma MountFrameDecodes(xid: uint32, procedure: uint32, stamp: uint32, host: seq<byte>, path: seq<byte>)
    requires |host| < 1024 && |path| < 1024
    ensures var c := MountCall(xid, procedure, stamp, host, path);
            var frame := Record(EncodeCall(c));
            && 4 <= |frame| && 4 + RecordLength(frame) == |frame|
            && DecodeCall(frame[4..]) == Some(c)
            && c.xid == xid && c.rpcvers == 2 && c.prog == 100005 && c.vers == 3 && c.procedure == procedure
            && DecodeAuthSys(c.cred.body) == Some(AuthSysParms(stamp, host, 0, 0, [0]))
            && TakeOpaque(c.args) == Some((path, []))
  {
    var c := MountCall(xid, procedure, stamp, host, path);
    AuthSysCallLength(c, stamp, host);
    FrameCarriesCall(c);
    AuthSysRoundTrip(Credential(stamp, host));
    TakeOpaqueInverts(path, []);
    assert XdrOpaque(path) + [] == XdrOpaque(path);
  }

  /** The same for GETPORT and its mapping. */
  lemma GetPortFrameDecodes(xid: uint32, rpcVersion: uint32, programVersion: uint32, stamp: uint32, host: seq<byte>,
                            program: uint32, version: uint32)
    requires |host| < 1024
    ensures var c := GetPortCall(xid, rpcVersion, programVersion, stamp, host, program, version);
            var frame := Record(EncodeCall(c));
            && 4 <= |frame| && 4 + RecordLength(frame) == |frame|
            && DecodeCall(frame[4..]) == Some(c)
            && c.xid == xid && c.rpcvers == rpcVersion && c.prog == 100000 && c.vers == programVersion
                && c.procedure == 3
            && DecodeAuthSys(c.cred.body) == Some(AuthSysParms(stamp, host, 0, 0, [0]))
            && TakeWords(4, c.args) == Some(([program, version, 6, 0], []))
  {
    var c := GetPortCall(xid, rpcVersion, programVersion, stamp, host, program, version);
    AuthSysCallLength(c, stamp, host);
    FrameCarriesCall(c);
    AuthSysRoundTrip(Credential(stamp, host));
    var ws := [program, version, IPPROTO_TCP, 0];
    TakeWordsInverts(ws, []);
    assert Words(ws) + [] == Words(ws);
  }

  /** Different GETPORT calls never share a frame. */
  lemma GetPortFrameInjective(xid: uint32, rpcVersion: uint32, programVersion: uint32, stamp: uint32, host: seq<byte>,
                              program: uint32, version: uint32, xid': uint32, rpcVersion': uint32,
                              programVersion': uint32, stamp': uint32, host': seq<byte>, program': uint32,
                              version': uint32)
    requires |host| < 1024 && |host'| < 1024
    requires Record(EncodeCall(GetPortCall(xid, rpcVersion, programVersion, stamp, host, program, version)))
          == Record(EncodeCall(GetPortCall(xid', rpcVersion', programVersion', stamp', host', program', version')))
    ensures xid == xid' && rpcVersion == rpcVersion' && programVersion == programVersion' && stamp == stamp'
    ensures host == host' && program == program' && version == version'
  {
    hide EncodeCall, DecodeCall, DecodeAuthSys, TakeWords, Record;
    GetPortFrameDecodes(xid, rpcVersion, programVersion, stamp, host, program, version);
    GetPortFrameDecodes(xid', rpcVersion', programVersion', stamp', host', program', version');
    assert [program, version, 6, 0][0] == [program', version', 6, 0][0];
    assert [program, version, 6, 0][1] == [program', version', 6, 0][1];
  }

  /** Nor do different MNT and UMNT calls. */
  lemma MountFrameInjective(xid: uint32, procedure: uint32, stamp: uint32, host: seq<byte>, path: seq<byte>,
                            xid': uint32, procedure': uint32, stamp': uint32, host': seq<byte>, path': seq<byte>)
    requires |host| < 1024 && |path| < 1024 && |host'| < 1024 && |path'| < 1024
    requires Record(EncodeCall(MountCall(xid, procedure, stamp, host, path)))
          == Record(EncodeCall(MountCall(xid', procedure', stamp', host', path')))
    ensures xid == xid' && procedure == procedure' && stamp == stamp' && host == host' && path == path'
  {
    MountFrameDecodes(xid, procedure, stamp, host, path);
    MountFrameDecodes(xid', procedure', stamp', host', path');
  }

  // ------------------------------------------------------------------ end to end

  /**
    A connect that obtains a descriptor leaves a fresh connection exactly when ::connect returns 0, even if
    a timeout cannot be set.
   */
  lemma ConnectIsReady(s: S.State, port: int, d: S.Dial)
    requires S.Inv(s) && S.LegalDial(S.Disconnected(s).open, d)
    requires d.gai == 0 && d.fd > 0
    ensures var t := S.ConnectedTo(s, port, d).state;
            && S.Inv(t) && t.socketFd == d.fd && t.port == port && t.open[d.fd].outbound == []
            && (Ready(t, d.inbound) <==> d.refused == 0)
  {
    S.ConnectToKeepsInv(s, port, d);
    S.DisconnectKeepsInv(s);
  }

  /** The server's answer to a MNT or UMNT frame, and what becomes of its list. */
  lemma MountServed(seed: uint64, procedure: uint32, host: seq<byte>, remote: seq<byte>,
                    exports: map<seq<byte>, Export>,
                    list: MountList)
    requires |host| < 1024 && |remote| < 1024
    requires procedure == MOUNTPROC3_MNT || procedure == MOUNTPROC3_UMNT
    requires forall p :: p in exports ==> exports[p].Valid()
    ensures ServeMount(MountFrame(seed, procedure, host, remote), exports)
         == Some(Accepted(Draw32(seed, 0), OpaqueAuth(0, []),
                          Success(if procedure == MOUNTPROC3_MNT then MountResults(exports, remote) else [])))
    ensures Listed(MountFrame(seed, procedure, host, remote), list, exports)
         == Some(if procedure == MOUNTPROC3_UMNT then list - {(host, remote)}
                 else if IsExported(exports, remote) then list + {(host, remote)} else list)
  {
    hide EncodeCall, MountResults, DecodeCall, DecodeAuthSys, TakeOpaque, RecordLength, Record, Draw32, XdrOpaque;
    var frame := MountFrame(seed, procedure, host, remote);
    var c := MountCall(Draw32(seed, 0), procedure, Draw32(seed, 1), host, remote);
    MountFrameDecodes(Draw32(seed, 0), procedure, Draw32(seed, 1), host, remote);
    assert frame[4..4 + RecordLength(frame)] == frame[4..];
    assert DecodeCall(frame[4..4 + RecordLength(frame)]) == Some(c);
  }

  /** Decoding the server's results at the payload. */
  lemma ResultsDecoded(s: seq<byte>, at: nat, exports: map<seq<byte>, Export>, remote: seq<byte>, fhandle: seq<byte>)
    requires forall p :: p in exports ==> exports[p].Valid()
    requires Holds(s, at, MountResults(exports, remote))
    ensures var view := MountDecode(s, at, fhandle);
            && view.Some?
            && view.value.fhandle == fhandle + HandleOf(exports, remote)
  {
    if IsExported(exports, remote) {
      MountReplyExact(s, at, exports[remote].fhandle, exports[remote].flavors, fhandle);
    } else {
      MountErrorKeepsHandle(s, at, if remote in exports then exports[remote].status else MNT3ERR_NOENT, fhandle);
      assert fhandle + [] == fhandle;
    }
  }

  /**
    End to end: from any session, whatever the schedules, as long as no socket call fails and both sides
    make enough progress, a MNT call against a server that answers what it decoded appends exactly the
    exported handle of the requested path, and appends nothing if the path is not exported.
   */
  lemma MountEndToEnd(s: S.State, seed: uint64, host: seq<byte>, remote: seq<byte>, d: S.Dial, w: Wire,
                      garbage: seq<byte>, fhandle: seq<byte>, exports: map<seq<byte>, Export>, reply: Reply,
                      rest: seq<byte>)
    requires |host| < 1024 && |remote| < 1024 && |garbage| == BUFFER_SIZE
    requires forall p :: p in exports ==> exports[p].Valid()
    requires S.Inv(s) && S.LegalDial(S.Disconnected(s).open, d) && d.gai == 0 && d.fd > 0 && d.refused == 0
    requires ServeMount(MountFrame(seed, MOUNTPROC3_MNT, host, remote), exports) == Some(reply)
    requires reply.Valid() && |EncodeReply(reply)| <= BUFFER_SIZE
    requires d.inbound == Record(EncodeReply(reply)) + rest
    requires Suffices(w, |MountFrame(seed, MOUNTPROC3_MNT, host, remote)|, |EncodeReply(reply)|)
    ensures var m := MountEffect(s, seed, host, remote, d, w, garbage, fhandle);
            && m.outcome == Done
            && m.fhandle == fhandle + HandleOf(exports, remote)
            && Ready(m.state, rest)
            && m.state.open[m.state.socketFd].outbound == MountFrame(seed, MOUNTPROC3_MNT, host, remote)
  {
    hide Exchange, MountDecode, MountResults, MountFrame, EncodeReply, Record, S.Connected, S.ConnectedTo,
      S.Disconnected;
    hide ServeMount, Listed, Holds, Suffices, Draw32, Parse, S.Inv, S.IsConnected, S.LegalDial;
    var frame, xid := MountFrame(seed, MOUNTPROC3_MNT, host, remote), Draw32(seed, 0);
    var t := S.ConnectedTo(s, s.mountPort, d).state;
    ConnectIsReady(s, s.mountPort, d);
    MountServed(seed, MOUNTPROC3_MNT, host, remote, exports, {});
    ExchangeDelivers(t, frame, xid, w, garbage, reply, rest);
    var x := Exchange(t, frame, xid, w, garbage);
    PayloadIsResults(x.buf, reply);
    ResultsDecoded(x.buf, 24, exports, remote, fhandle);
  }

  /** A successful reply with an empty verifier, and its size. */
  lemma SuccessReplySize(xid: uint32, results: seq<byte>)
    ensures var r := Accepted(xid, OpaqueAuth(0, []), Success(results));
            r.Valid() && |EncodeReply(r)| == 24 + |results|
  {
  }

  /**
    The same with nothing left open but the session, the server and a descriptor: whenever the results fit
    the response buffer, a MNT call over the slowest connection ends with the handle appended.
   */
  lemma MountOverSlowConnection(s: S.State, seed: uint64, host: seq<byte>, remote: seq<byte>, garbage: seq<byte>,
                                fhandle: seq<byte>, exports: map<seq<byte>, Export>, fd: int)
    requires |host| < 1024 && |remote| < 1024 && |garbage| == BUFFER_SIZE
    requires forall p :: p in exports ==> exports[p].Valid()
    requires 24 + |MountResults(exports, remote)| <= BUFFER_SIZE
    requires S.Inv(s) && fd > 0
    ensures var reply := Accepted(Draw32(seed, 0), OpaqueAuth(0, []), Success(MountResults(exports, remote)));
            var frame := MountFrame(seed, MOUNTPROC3_MNT, host, remote);
            && ServeMount(frame, exports) == Some(reply)
            && reply.Valid() && |EncodeReply(reply)| <= BUFFER_SIZE
            && var d := S.Dial(0, fd, 0, 0, Record(EncodeReply(reply)));
               var m := MountEffect(s, seed, host, remote, d, Slow(|frame|, |EncodeReply(reply)|), garbage, fhandle);
               && m.outcome == Done
               && m.fhandle == fhandle + HandleOf(exports, remote)
  {
    hide Exchange, MountDecode, MountResults, MountFrame, MountEffect, EncodeReply, Record, ServeMount, Suffices, Slow,
      Draw32;
    var reply := Accepted(Draw32(seed, 0), OpaqueAuth(0, []), Success(MountResults(exports, remote)));
    var frame := MountFrame(seed, MOUNTPROC3_MNT, host, remote);
    MountServed(seed, MOUNTPROC3_MNT, host, remote, exports, {});
    SuccessReplySize(Draw32(seed, 0), MountResults(exports, remote));
    var d, w := S.Dial(0, fd, 0, 0, Record(EncodeReply(reply))), Slow(|frame|, |EncodeReply(reply)|);
    SlowSuffices(|frame|, |EncodeReply(reply)|);
    S.DisconnectKeepsInv(s);
    assert d.inbound == Record(EncodeReply(reply)) + [];
    MountEndToEnd(s, seed, host, remote, d, w, garbage, fhandle, exports, reply, []);
  }

  /** UMNT against such a server: it receives exactly the frame, and the call returns. */
  lemma UmountEndToEnd(s: S.State, seed: uint64, host: seq<byte>, remote: seq<byte>, d: S.Dial, w: Wire,
                       garbage: seq<byte>, exports: map<seq<byte>, Export>, reply: Reply, rest: seq<byte>)
    requires |host| < 1024 && |remote| < 1024 && |garbage| == BUFFER_SIZE
    requires forall p :: p in exports ==> exports[p].Valid()
    requires S.Inv(s) && S.LegalDial(S.Disconnected(s).open, d) && d.gai == 0 && d.fd > 0 && d.refused == 0
    requires ServeMount(MountFrame(seed, MOUNTPROC3_UMNT, host, remote), exports) == Some(reply)
    requires reply.Valid() && |EncodeReply(reply)| <= BUFFER_SIZE
    requires d.inbound == Record(EncodeReply(reply)) + rest
    requires Suffices(w, |MountFrame(seed, MOUNTPROC3_UMNT, host, remote)|, |EncodeReply(reply)|)
    ensures var u := UmountEffect(s, seed, host, remote, d, w, garbage);
            && u.outcome == Done
            && Ready(u.state, rest)
            && u.state.open[u.state.socketFd].outbound == MountFrame(seed, MOUNTPROC3_UMNT, host, remote)
  {
    hide Exchange, MountFrame, EncodeReply, Record, S.Connected, S.ConnectedTo, S.Disconnected;
    hide ServeMount, Listed, Holds, Suffices, Draw32, Parse, S.Inv, S.IsConnected, S.LegalDial;
    var frame, xid := MountFrame(seed, MOUNTPROC3_UMNT, host, remote), Draw32(seed, 0);
    var t := S.ConnectedTo(s, s.mountPort, d).state;
    ConnectIsReady(s, s.mountPort, d);
    MountServed(seed, MOUNTPROC3_UMNT, host, remote, exports, {});
    ExchangeDelivers(t, frame, xid, w, garbage, reply, rest);
  }

  /**
    A dial that is refused, on which every call fails, is not noticed: nothing is sent, and the call decodes
    what the response buffer contained before, if that starts with its xid and has no denial and a zero
    status in the right places; otherwise it ends at the failed assertion.
   */
  lemma RefusedMount(s: S.State, seed: uint64, host: seq<byte>, remote: seq<byte>, d: S.Dial, w: Wire,
                     garbage: seq<byte>, fhandle: seq<byte>)
    requires |host| < 1024 && |remote| < 1024 && |garbage| == BUFFER_SIZE
    requires S.Inv(s) && S.LegalDial(S.Disconnected(s).open, d) && d.gai == 0 && d.fd > 0 && d.refused != 0
    requires Fails(w)
    ensures var m := MountEffect(s, seed, host, remote, d, w, garbage, fhandle);
            && !S.IsConnected(m.state) && S.Written(m.state) == 0
            && (m.outcome == AssertionFails <==> !(WordAt(garbage, 0) == Draw32(seed, 0)
                                                   && WordAt(garbage, 8) != 1
                                                   && WordAt(garbage, 20) == 0))
            && (m.outcome == AssertionFails ==> m.fhandle == fhandle)
            && (m.outcome == Done ==> MountDecode(garbage, 24, fhandle).value.fhandle == m.fhandle)
  {
    hide Exchange, MountDecode, MountFrame, WordAt, Draw32;
    var t := S.ConnectedTo(s, s.mountPort, d).state;
    ConnectIsReady(s, s.mountPort, d);
    FailedExchange(t, MountFrame(seed, MOUNTPROC3_MNT, host, remote), Draw32(seed, 0), w, garbage);
    ExchangeKeepsPorts(t, MountFrame(seed, MOUNTPROC3_MNT, host, remote), Draw32(seed, 0), w, garbage);
  }

  /**
    A reply that answers another call of the run never reaches the handle: however late it comes, the call
    ends at the failed assertion on the missing payload.
   */
  lemma StaleReplyLeavesHandle(s: S.State, seed: uint64, run: seq<bool>, mine: nat, other: nat, host: seq<byte>,
                               remote: seq<byte>, d: S.Dial, w: Wire, garbage: seq<byte>, fhandle: seq<byte>,
                               reply: Reply, rest: seq<byte>)
    requires |host| < 1024 && |remote| < 1024 && |garbage| == BUFFER_SIZE
    requires mine < |run| && other < |run| && mine != other && DrawnBefore(run, |run|) <= 0x1_0000_0000
    requires S.Inv(s) && S.LegalDial(S.Disconnected(s).open, d) && d.gai == 0 && d.fd > 0 && d.refused == 0
    requires reply.Valid() && |EncodeReply(reply)| <= BUFFER_SIZE && reply.xid == Xid(seed, run, other)
    requires d.inbound == Record(EncodeReply(reply)) + rest
    requires Suffices(w, |MountFrame(Draw(seed, DrawnBefore(run, mine)), MOUNTPROC3_MNT, host, remote)|,
                      |EncodeReply(reply)|)
    ensures var m := MountEffect(s, Draw(seed, DrawnBefore(run, mine)), host, remote, d, w, garbage, fhandle);
            m.outcome == AssertionFails && m.fhandle == fhandle
  {
    hide Exchange, MountDecode, MountFrame, EncodeReply, Record, Suffices, Ready, S.Inv, S.LegalDial, S.ConnectedTo;
    var seed' := Draw(seed, DrawnBefore(run, mine));
    var frame, xid := MountFrame(seed', MOUNTPROC3_MNT, host, remote), Draw32(seed', 0);
    DrawsCompose(seed, DrawnBefore(run, mine), 0);
    assert xid == Xid(seed, run, mine);
    ConnectIsReady(s, s.mountPort, d);
    if mine < other {
      XidsDistinct(seed, run, mine, other);
    } else {
      XidsDistinct(seed, run, other, mine);
    }
    StaleReplyRefused(S.ConnectedTo(s, s.mountPort, d).state, frame, xid, w, garbage, reply, rest);
  }

  /**
    Every well-formed reply that refuses the call, and every reply to another one, ends MNT at the failed
    assertion on the missing payload and leaves the handle alone.
   */
  lemma MountRefused(s: S.State, seed: uint64, host: seq<byte>, remote: seq<byte>, d: S.Dial, w: Wire,
                     garbage: seq<byte>, fhandle: seq<byte>, reply: Reply, rest: seq<byte>)
    requires |host| < 1024 && |remote| < 1024 && |garbage| == BUFFER_SIZE
    requires S.Inv(s) && S.LegalDial(S.Disconnected(s).open, d) && d.gai == 0 && d.fd > 0 && d.refused == 0
    requires reply.Valid() && |EncodeReply(reply)| <= BUFFER_SIZE && Refuses(reply, Draw32(seed, 0))
    requires d.inbound == Record(EncodeReply(reply)) + rest
    requires Suffices(w, |MountFrame(seed, MOUNTPROC3_MNT, host, remote)|, |EncodeReply(reply)|)
    ensures var m := MountEffect(s, seed, host, remote, d, w, garbage, fhandle);
            m.outcome == AssertionFails && m.fhandle == fhandle
  {
    hide Exchange, MountDecode, MountFrame, EncodeReply, Record, Ready, Suffices, S.Inv, S.LegalDial, S.ConnectedTo,
      Draw32, Refuses;
    ConnectIsReady(s, s.mountPort, d);
    ReplyRefuses(S.ConnectedTo(s, s.mountPort, d).state, MountFrame(seed, MOUNTPROC3_MNT, host, remote),
                 Draw32(seed, 0), w, garbage, reply, rest);
  }

  /** UMNT returns on every well-formed reply, whatever it says and whatever call it answers. */
  lemma UmountReturns(s: S.State, seed: uint64, host: seq<byte>, remote: seq<byte>, d: S.Dial, w: Wire,
                      garbage: seq<byte>, reply: Reply, rest: seq<byte>)
    requires |host| < 1024 && |remote| < 1024 && |garbage| == BUFFER_SIZE
    requires S.Inv(s) && S.LegalDial(S.Disconnected(s).open, d) && d.gai == 0 && d.fd > 0 && d.refused == 0
    requires reply.Valid() && |EncodeReply(reply)| <= BUFFER_SIZE
    requires d.inbound == Record(EncodeReply(reply)) + rest
    requires Suffices(w, |MountFrame(seed, MOUNTPROC3_UMNT, host, remote)|, |EncodeReply(reply)|)
    ensures UmountEffect(s, seed, host, remote, d, w, garbage).outcome == Done
  {
    hide Exchange, MountFrame, EncodeReply, Record, Ready, Suffices, S.Inv, S.LegalDial, S.ConnectedTo, Draw32;
    ConnectIsReady(s, s.mountPort, d);
    RepliesAnswer(S.ConnectedTo(s, s.mountPort, d).state, MountFrame(seed, MOUNTPROC3_UMNT, host, remote),
                  Draw32(seed, 0), w, garbage, reply, rest);
  }

  /** When the socket calls fail, UMNT returns unless the old contents show an unknown kind of denial. */
  lemma FailedUmount(s: S.State, seed: uint64, host: seq<byte>, remote: seq<byte>, d: S.Dial, w: Wire,
                     garbage: seq<byte>)
    requires |host| < 1024 && |remote| < 1024 && |garbage| == BUFFER_SIZE && Fails(w)
    requires S.Sound(S.Step(s, S.ConnectMount(d)).state)
    ensures UmountEffect(s, seed, host, remote, d, w, garbage).outcome
            == if WordAt(garbage, 0) == Draw32(seed, 0) && WordAt(garbage, 8) == 1 && WordAt(garbage, 12) > 1
               then AssertionFails else Done
  {
    hide Exchange, MountFrame, WordAt, Draw32, S.Step, S.Sound;
    FailedExchange(S.Step(s, S.ConnectMount(d)).state, MountFrame(seed, MOUNTPROC3_UMNT, host, remote), Draw32(seed, 0),
                   w, garbage);
    ParserOnWords(garbage, Draw32(seed, 0));
  }

  /** A MNT call that does not get through leaves the handle alone. */
  lemma OnlyDoneChangesHandle(s: S.State, seed: uint64, host: seq<byte>, remote: seq<byte>, d: S.Dial, w: Wire,
                              garbage: seq<byte>, fhandle: seq<byte>)
    requires |host| < 1024 && |remote| < 1024 && |garbage| == BUFFER_SIZE
    ensures var m := MountEffect(s, seed, host, remote, d, w, garbage, fhandle);
            m.fhandle != fhandle ==> m.outcome == Done
  {
    hide Exchange, MountDecode, MountFrame, Draw32, S.Step;
  }

  // ------------------------------------------------------------------ beyond the buffers

  /**
    With ample progress, MNT and UMNT store bytes behind their response buffer exactly when the server
    announces a record of more than 1024 bytes and sends more than 1024 of them, and never return exactly
    when it sends less than it announces otherwise.
   */
  lemma MountOverflows(s: S.State, seed: uint64, host: seq<byte>, remote: seq<byte>, d: S.Dial, w: Wire,
                       garbage: seq<byte>, fhandle: seq<byte>)
    requires |host| < 1024 && |remote| < 1024 && |garbage| == BUFFER_SIZE
    requires S.Inv(s) && S.LegalDial(S.Disconnected(s).open, d) && d.gai == 0 && d.fd > 0 && d.refused == 0
    requires Ample(w, 72 + RoundUp4(|host|) + RoundUp4(|remote|), BUFFER_SIZE)
    ensures var m := MountEffect(s, seed, host, remote, d, w, garbage, fhandle);
            && (m.outcome == WritesBeyond <==> RunsOver(d.inbound, BUFFER_SIZE))
            && (m.outcome == Hangs <==> !HoldsFitting(d.inbound, BUFFER_SIZE) && !RunsOver(d.inbound, BUFFER_SIZE))
    ensures var u := UmountEffect(s, seed, host, remote, d, w, garbage);
            && (u.outcome == WritesBeyond <==> RunsOver(d.inbound, BUFFER_SIZE))
            && (u.outcome == Hangs <==> !HoldsFitting(d.inbound, BUFFER_SIZE) && !RunsOver(d.inbound, BUFFER_SIZE))
  {
    hide Exchange, MountDecode, MountFrame, RunsOver, HoldsFitting, Ample, Ready, S.Inv, S.LegalDial,
      S.ConnectedTo, Draw32;
    var t := S.ConnectedTo(s, s.mountPort, d).state;
    ConnectIsReady(s, s.mountPort, d);
    var mount := MountFrame(seed, MOUNTPROC3_MNT, host, remote);
    var umount := MountFrame(seed, MOUNTPROC3_UMNT, host, remote);
    ExchangeOverflows(t, mount, Draw32(seed, 0), w, garbage, d.inbound);
    ExchangeOverflows(t, umount, Draw32(seed, 0), w, garbage, d.inbound);
  }

  /** Where the decoding of OK results looks for the number of flavors. */
  function CountPlace(s: seq<byte>, at: nat): (place: nat)
    requires at + 8 <= |s|
    ensures place <= at + 72
  {
    at + 8 + (if WordAt(s, at + 4) <= FHSIZE3 then WordAt(s, at + 4) else 0)
  }

  /** OK results in which the number of flavors is more than the bytes behind it can be. */
  predicate TooManyFlavors(s: seq<byte>, at: nat)
    requires at + 76 <= |s|
  {
    WordAt(s, at) == MNT3_OK && CountPlace(s, at) + 4 + 4 * WordAt(s, CountPlace(s, at)) > |s|
  }

  /** Decoding leaves the buffer exactly on such results. */
  lemma DecodingLeavesBuffer(s: seq<byte>, at: nat, fhandle: seq<byte>)
    requires at + 76 <= |s|
    ensures MountDecode(s, at, fhandle).None? <==> TooManyFlavors(s, at)
  {
    hide WordAt;
  }

  /** So a MNT call reads behind its response buffer exactly when its reply is accepted and has such results. */
  lemma MountReadsBeyond(s: S.State, seed: uint64, host: seq<byte>, remote: seq<byte>, d: S.Dial, w: Wire,
                         garbage: seq<byte>, fhandle: seq<byte>)
    requires |host| < 1024 && |remote| < 1024 && |garbage| == BUFFER_SIZE
    ensures var x := Exchange(S.Step(s, S.ConnectMount(d)).state, MountFrame(seed, MOUNTPROC3_MNT, host, remote),
                              Draw32(seed, 0), w, garbage);
            MountEffect(s, seed, host, remote, d, w, garbage, fhandle).outcome == ReadsBeyond
            <==> x.answer == At(24) && TooManyFlavors(x.buf, 24)
  {
    hide Exchange, MountDecode, MountFrame, TooManyFlavors, Draw32, S.Step;
    var x := Exchange(S.Step(s, S.ConnectMount(d)).state, MountFrame(seed, MOUNTPROC3_MNT, host, remote),
                      Draw32(seed, 0), w, garbage);
    DecodingLeavesBuffer(x.buf, 24, fhandle);
  }

  /** A server gets there with a handle that needs no padding and a number of flavors that the buffer cannot hold. */
  lemma AnnouncedTooMany(s: seq<byte>, at: nat, fhandle: seq<byte>, count: uint32, more: seq<byte>)
    requires at + 76 <= |s| && |fhandle| <= 64 && |fhandle| % 4 == 0
    requires Holds(s, at, U32(MNT3_OK) + (XdrOpaque(fhandle) + (U32(count) + more)))
    ensures TooManyFlavors(s, at) <==> at + 12 + |fhandle| + 4 * count > |s|
  {
    hide WordAt, U32;
    HoldsParts(s, at, U32(MNT3_OK), XdrOpaque(fhandle) + (U32(count) + more));
    HoldsWord(s, at, MNT3_OK);
    HoldsParts(s, at + 4, XdrOpaque(fhandle), U32(count) + more);
    OpaqueInside(s, at + 4, fhandle);
    HoldsParts(s, at + 8 + |fhandle|, U32(count), more);
    HoldsWord(s, at + 8 + |fhandle|, count);
  }
}
