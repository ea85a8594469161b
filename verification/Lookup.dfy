/**
  Inode::lookup (Context.cpp) from end to end against a server that decodes its arguments.
 */
module Lookup {
  import opened Bytes
  import opened Xdr
  import opened Messages
  import opened RecordStream
  import opened Monotonic
  import opened Rpc
  import opened Calls
  import opened Replies
  import opened RemoteCall
  import opened LookupFrames
  import opened Mount
  import opened MountContext
  import S = Session
  import C = Context

  const NFS3_OK: uint32 := 0
  const NFS3ERR_NOENT: uint32 := 2
  const GARBAGE_ARGS: uint32 := 4

  /** `child` is the handle decoded from the reply, empty without one. */
  datatype LookedUp = LookedUp(state: S.State, child: seq<byte>, outcome: Outcome)

  ghost function LookupFrame(seed: uint64, host: seq<byte>, dir: seq<byte>, name: seq<byte>): (bs: seq<byte>)
    requires |host| < 1024 && |dir| < 1024 && |name| < 1024
    ensures |bs| == 68 + RoundUp4(|host|) + RoundUp4(8 + |dir| + |name|)
  {
    var c := LookupCall(Draw32(seed, 0), Draw32(seed, 1), host, dir, name);
    AuthSysCallLength(c, Draw32(seed, 1), host);
    Record(EncodeCall(c))
  }

  /** The frame fits the request buffer. */
  predicate LookupFits(host: seq<byte>, dir: seq<byte>, name: seq<byte>) {
    && |host| < 1024 && |dir| < 1024 && |name| < 1024
    && 68 + RoundUp4(|host|) + RoundUp4(8 + |dir| + |name|) <= BUFFER_SIZE
  }

  /** The child handle in an NFS3_OK payload, if it is not too long. */
  function ChildHandle(s: seq<byte>, at: nat): seq<byte>
    requires at + 8 + 64 <= |s|
  {
    if WordAt(s, at) == NFS3_OK && WordAt(s, at + 4) <= FHSIZE3 then s[at + 8..at + 8 + WordAt(s, at + 4)] else []
  }

  ghost function LookupEffect(s: S.State, seed: uint64, host: seq<byte>, dir: seq<byte>, name: seq<byte>, d: S.Dial,
                              w: Wire, garbage: seq<byte>): LookedUp
    requires |host| < 1024 && |dir| < 1024 && |name| < 1024 && |garbage| == BUFFER_SIZE
  {
    var x := Exchange(S.Step(s, S.ConnectNfs(d)).state, LookupFrame(seed, host, dir, name), Draw32(seed, 0), w,
                      garbage);
    match x.answer
    case At(at) => LookedUp(x.state, ChildHandle(x.buf, at), Done)
    case Refused => LookedUp(x.state, [], AssertionFails)
    case Asserts => LookedUp(x.state, [], AssertionFails)
    case Overflows => LookedUp(x.state, [], WritesBeyond)
    case NeverReturns => LookedUp(x.state, [], Hangs)
  }

  /**
    The decoded child handle is logged and dropped: what the method returns is `lHandle`, which nothing
    sets. `childHandle` is a further result here so that the decoding can be specified.  A frame that does
    not fit is built behind the request buffer; the model stops there.
   */
  method LookupChild(context: C.Context, counter: Counter, host: seq<byte>, timeout: int, child: seq<byte>,
                     parentHandle: seq<byte>, authType: uint32, d: S.Dial, w: Wire)
    returns (lHandle: Option<seq<byte>>, childHandle: seq<byte>, outcome: Outcome, ghost garbage: seq<byte>)
    requires CanDial(context.State(), d)
    modifies context, context.os, counter
    ensures lHandle == None
    ensures |garbage| == BUFFER_SIZE
    ensures authType == AUTH_SYS && LookupFits(host, parentHandle, child) ==>
              && counter.sequential == Draw(old(counter.sequential), 2)
              && LookedUp(context.State(), childHandle, outcome)
                 == LookupEffect(old(context.State()), old(counter.sequential), host, parentHandle, child, d, w,
                                 garbage)
    ensures authType == AUTH_SYS && !LookupFits(host, parentHandle, child) ==>
              LookedUp(context.State(), childHandle, outcome)
              == LookedUp(S.Step(old(context.State()), S.ConnectNfs(d)).state, [], WritesBeyond)
    ensures authType != AUTH_SYS ==>
              && counter.sequential == Draw(old(counter.sequential), 1)
              && LookedUp(context.State(), childHandle, outcome)
                 == LookedUp(S.Step(old(context.State()), S.ConnectNfs(d)).state, [], NotSent)
  {
    hide Exchange, S.ConnectedTo, S.Connected, S.Disconnected, S.LegalDial, S.Sound;
    hide EncodeCall, LookupCall, Record, Draw, ToUint32, Zeros, RoundUp4, U32, Words, WordAt;
    ghost var s := context.State();
    lHandle, childHandle, garbage := None, [], Zeros(BUFFER_SIZE);
    S.StepKeepsSound(s, S.ConnectNfs(d));
    var code := context.ConnectNfsPort(d);
    if authType != AUTH_SYS {
      var xid := counter.GetMonotonic();
      return lHandle, childHandle, NotSent, garbage;
    }
    if !LookupFits(host, parentHandle, child) {
      return lHandle, childHandle, WritesBeyond, garbage;
    }
    var wireRequest := new byte[BUFFER_SIZE];
    var requestSize, xid := BuildLookupCall(counter, host, parentHandle, child, wireRequest);
    var wireResponse, answer;
    wireResponse, answer, garbage := RunExchange(context, wireRequest, requestSize, xid, timeout, w);
    match answer
    case NeverReturns => return lHandle, childHandle, Hangs, garbage;
    case Overflows => return lHandle, childHandle, WritesBeyond, garbage;
    case Refused => return lHandle, childHandle, AssertionFails, garbage;
    case Asserts => return lHandle, childHandle, AssertionFails, garbage;
    case At(at) =>
      var rpcResult, payloadOffset := DecodeU32(wireResponse, at);
      if rpcResult == NFS3_OK {
        var result;
        assert wireResponse[..][at + 8..] == wireResponse[at + 8..];
        result, childHandle, payloadOffset := DecodeNBytes(wireResponse, childHandle, FHSIZE3, payloadOffset);
      }
      return lHandle, childHandle, Done, garbage;
  }

  // ------------------------------------------------------------------ the peer

  /** What the server has under a name: a child's handle, or a reason to refuse it. */
  datatype Entry = Child(fhandle: seq<byte>) | NoChild(status: uint32) {
    predicate Valid() {
      match this
      case Child(fhandle) => |fhandle| <= 64
      case NoChild(status) => status != 0
    }
  }

  /** Entries by directory handle and name. */
  type Tree = map<(seq<byte>, seq<byte>), Entry>

  /** The handle of the child, nothing without one. */
  function ChildOf(tree: Tree, dir: seq<byte>, name: seq<byte>): seq<byte> {
    if (dir, name) in tree && tree[(dir, name)].Child? then tree[(dir, name)].fhandle else []
  }

  /**
    The results: status, the child's handle, and attributes the client does not look at (section 3.3.3 of
    RFC 1813).
   */
  ghost function LookupResults(tree: Tree, dir: seq<byte>, name: seq<byte>, attributes: seq<byte>): seq<byte>
    requires (dir, name) in tree ==> tree[(dir, name)].Valid()
  {
    if (dir, name) !in tree then U32(NFS3ERR_NOENT) + attributes
    else
      match tree[(dir, name)]
      case Child(fhandle) => U32(0) + (XdrOpaque(fhandle) + attributes)
      case NoChild(status) => U32(status) + attributes
  }

  ghost predicate ValidTree(tree: Tree) {
    forall k :: k in tree ==> tree[k].Valid()
  }

  /** An NFS server with the numbers of RFC 1813: program 100003, version 3, procedure 3 (LOOKUP). */
  ghost function ServeLookup(request: seq<byte>, tree: Tree, attributes: seq<byte>): Option<Reply>
    requires ValidTree(tree)
  {
    if !HoldsRecord(request) then None
    else
      var c :- DecodeCall(request[4..4 + RecordLength(request)]);
      var none := OpaqueAuth(0, []);
      if c.rpcvers != 2 then Some(Denied(c.xid, RpcMismatch(2, 2)))
      else if c.prog != 100003 || c.vers != 3 || c.procedure != 3 then
        Some(Accepted(c.xid, none, Failure(PROC_UNAVAIL)))
      else
        match DecodeLookup(c.args)
        case None => Some(Accepted(c.xid, none, Failure(GARBAGE_ARGS)))
        case Some((dir, name)) => Some(Accepted(c.xid, none, Success(LookupResults(tree, dir, name, attributes))))
  }

  lemma LookupServed(seed: uint64, host: seq<byte>, dir: seq<byte>, name: seq<byte>, tree: Tree, attributes: seq<byte>)
    requires |host| < 1024 && |dir| < 1024 && |name| < 1024 && ValidTree(tree)
    requires |dir| % 4 == 0 || name == []
    ensures ServeLookup(LookupFrame(seed, host, dir, name), tree, attributes)
         == Some(Accepted(Draw32(seed, 0), OpaqueAuth(0, []),
                          Success(LookupResults(tree, dir, name, attributes))))
  {
    hide EncodeCall, LookupResults, DecodeCall, DecodeLookup, RecordLength, Record, Draw32, LookupArgs, ValidTree;
    var frame := LookupFrame(seed, host, dir, name);
    var c := LookupCall(Draw32(seed, 0), Draw32(seed, 1), host, dir, name);
    FrameCarriesCall(c);
    assert DecodeCall(frame[4..4 + RecordLength(frame)]) == Some(c);
    LookupArgsExact(dir, name);
  }

  /** An error status is never the start of OK results. */
  lemma ErrorIsNotOk(a: seq<byte>, b: seq<byte>)
    ensures U32(NFS3ERR_NOENT) + a != U32(0) + b
  {
    var s, t := U32(NFS3ERR_NOENT) + a, U32(0) + b;
    HoldsWord(s, 0, NFS3ERR_NOENT);
    HoldsWord(t, 0, 0);
  }

  /**
    A server whose only name is the one looked up answers with its handle exactly when the directory's
    handle needs no padding or the name is empty; otherwise it takes the arguments for another question.
   */
  lemma OnlyChildServed(seed: uint64, host: seq<byte>, dir: seq<byte>, name: seq<byte>, child: seq<byte>,
                        attributes: seq<byte>)
    requires |host| < 1024 && |dir| < 1024 && |name| < 1024 && |child| <= 64
    ensures ServeLookup(LookupFrame(seed, host, dir, name), map[(dir, name) := Child(child)], attributes)
         == Some(Accepted(Draw32(seed, 0), OpaqueAuth(0, []),
                          Success(U32(0) + (XdrOpaque(child) + attributes))))
         <==> |dir| % 4 == 0 || name == []
  {
    hide EncodeCall, DecodeCall, DecodeLookup, RecordLength, Record, Draw32, LookupArgs, XdrOpaque, U32;
    var tree: Tree := map[(dir, name) := Child(child)];
    if |dir| % 4 == 0 || name == [] {
      LookupServed(seed, host, dir, name, tree, attributes);
    } else {
      var frame := LookupFrame(seed, host, dir, name);
      var c := LookupCall(Draw32(seed, 0), Draw32(seed, 1), host, dir, name);
      FrameCarriesCall(c);
      assert DecodeCall(frame[4..4 + RecordLength(frame)]) == Some(c);
      LookupArgsExact(dir, name);
      assert DecodeLookup(c.args) != Some((dir, name));
      ErrorIsNotOk(attributes, XdrOpaque(child) + attributes);
    }
  }

  /** Whatever status other than 0 the results have, and whatever longer handle they announce, there is no child. */
  lemma ChildHandleExact(s: seq<byte>, at: nat)
    requires at + 8 + 64 <= |s|
    ensures WordAt(s, at) != 0 || WordAt(s, at + 4) > 64 ==> ChildHandle(s, at) == []
    ensures WordAt(s, at) == 0 && WordAt(s, at + 4) <= 64 ==>
              ChildHandle(s, at) == s[at + 8..at + 8 + WordAt(s, at + 4)]
  {
  }

  lemma ChildDecoded(s: seq<byte>, at: nat, tree: Tree, dir: seq<byte>, name: seq<byte>, attributes: seq<byte>)
    requires ValidTree(tree) && at + 8 + 64 <= |s|
    requires Holds(s, at, LookupResults(tree, dir, name, attributes))
    ensures ChildHandle(s, at) == ChildOf(tree, dir, name)
  {
    hide WordAt, U32;
    ChildHandleExact(s, at);
    if (dir, name) in tree && tree[(dir, name)].Child? {
      var child := tree[(dir, name)].fhandle;
      HoldsParts(s, at, U32(0), XdrOpaque(child) + attributes);
      HoldsParts(s, at + 4, XdrOpaque(child), attributes);
      HoldsWord(s, at, 0);
      OpaqueInside(s, at + 4, child);
    } else {
      var status := if (dir, name) in tree then tree[(dir, name)].status else NFS3ERR_NOENT;
      HoldsParts(s, at, U32(status), attributes);
      HoldsWord(s, at, status);
    }
  }

  /** A call goes to the NFS port, and leaves all ports what they were. */
  lemma LookupKeepsPorts(s: S.State, seed: uint64, host: seq<byte>, dir: seq<byte>, name: seq<byte>, d: S.Dial, w: Wire,
                         garbage: seq<byte>)
    requires |host| < 1024 && |dir| < 1024 && |name| < 1024 && |garbage| == BUFFER_SIZE
    ensures var t := LookupEffect(s, seed, host, dir, name, d, w, garbage).state;
            t.port == s.nfsPort == t.nfsPort && t.mountPort == s.mountPort
  {
    hide Exchange, LookupFrame, ChildHandle, Draw32;
    ExchangeKeepsPorts(S.Step(s, S.ConnectNfs(d)).state, LookupFrame(seed, host, dir, name), Draw32(seed, 0), w,
                       garbage);
  }

  /**
    End to end, for directory handles that need no padding (or the empty name): the call goes to the NFS
    port, the peer there receives exactly the frame, and the handle decoded is the one the server has for the
    name in the directory, none if it has none or refuses with any status.
   */
  lemma LookupEndToEnd(s: S.State, seed: uint64, host: seq<byte>, dir: seq<byte>, name: seq<byte>, d: S.Dial, w: Wire,
                       garbage: seq<byte>, tree: Tree, attributes: seq<byte>, reply: Reply, rest: seq<byte>)
    requires |host| < 1024 && |dir| < 1024 && |name| < 1024 && |garbage| == BUFFER_SIZE && ValidTree(tree)
    requires |dir| % 4 == 0 || name == []
    requires S.Inv(s) && S.LegalDial(S.Disconnected(s).open, d) && d.gai == 0 && d.fd > 0 && d.refused == 0
    requires ServeLookup(LookupFrame(seed, host, dir, name), tree, attributes) == Some(reply)
    requires reply.Valid() && |EncodeReply(reply)| <= BUFFER_SIZE
    requires d.inbound == Record(EncodeReply(reply)) + rest
    requires Suffices(w, |LookupFrame(seed, host, dir, name)|, |EncodeReply(reply)|)
    ensures var r := LookupEffect(s, seed, host, dir, name, d, w, garbage);
            && r.outcome == Done
            && r.child == ChildOf(tree, dir, name)
            && r.state.port == s.nfsPort
            && Ready(r.state, rest)
            && r.state.open[r.state.socketFd].port == s.nfsPort
            && r.state.open[r.state.socketFd].outbound == LookupFrame(seed, host, dir, name)
  {
    hide Exchange, ChildHandle, LookupResults, LookupFrame, EncodeReply, Record, S.Connected, S.ConnectedTo,
      S.Disconnected;
    hide ServeLookup, Holds, Suffices, Draw32, Parse, ValidTree, ChildOf, S.LegalDial;
    var frame, xid := LookupFrame(seed, host, dir, name), Draw32(seed, 0);
    var t := S.ConnectedTo(s, s.nfsPort, d).state;
    ConnectIsReady(s, s.nfsPort, d);
    LookupServed(seed, host, dir, name, tree, attributes);
    ExchangeDelivers(t, frame, xid, w, garbage, reply, rest);
    var x := Exchange(t, frame, xid, w, garbage);
    PayloadIsResults(x.buf, reply);
    ChildDecoded(x.buf, 24, tree, dir, name, attributes);
    LookupKeepsPorts(s, seed, host, dir, name, d, w, garbage);
  }

  /** With ample progress lookup stores bytes behind its response buffer exactly as MNT does. */
  lemma LookupOverflows(s: S.State, seed: uint64, host: seq<byte>, dir: seq<byte>, name: seq<byte>, d: S.Dial, w: Wire,
                        garbage: seq<byte>)
    requires |host| < 1024 && |dir| < 1024 && |name| < 1024 && |garbage| == BUFFER_SIZE
    requires S.Inv(s) && S.LegalDial(S.Disconnected(s).open, d) && d.gai == 0 && d.fd > 0 && d.refused == 0
    requires Ample(w, |LookupFrame(seed, host, dir, name)|, BUFFER_SIZE)
    ensures var r := LookupEffect(s, seed, host, dir, name, d, w, garbage);
            && (r.outcome == WritesBeyond <==> RunsOver(d.inbound, BUFFER_SIZE))
            && (r.outcome == Hangs <==> !HoldsFitting(d.inbound, BUFFER_SIZE) && !RunsOver(d.inbound, BUFFER_SIZE))
  {
    hide Exchange, ChildHandle, LookupFrame, RunsOver, HoldsFitting, Ample, Ready, S.Inv, S.LegalDial,
      S.ConnectedTo, Draw32;
    ConnectIsReady(s, s.nfsPort, d);
    ExchangeOverflows(S.ConnectedTo(s, s.nfsPort, d).state, LookupFrame(seed, host, dir, name), Draw32(seed, 0), w,
                      garbage, d.inbound);
  }

  /**
    Every well-formed reply that refuses the call, and every reply to another one, ends lookup at the failed
    assertion on the missing payload.
   */
  lemma LookupRefused(s: S.State, seed: uint64, host: seq<byte>, dir: seq<byte>, name: seq<byte>, d: S.Dial, w: Wire,
                      garbage: seq<byte>, reply: Reply, rest: seq<byte>)
    requires |host| < 1024 && |dir| < 1024 && |name| < 1024 && |garbage| == BUFFER_SIZE
    requires S.Inv(s) && S.LegalDial(S.Disconnected(s).open, d) && d.gai == 0 && d.fd > 0 && d.refused == 0
    requires reply.Valid() && |EncodeReply(reply)| <= BUFFER_SIZE && Refuses(reply, Draw32(seed, 0))
    requires d.inbound == Record(EncodeReply(reply)) + rest
    requires Suffices(w, |LookupFrame(seed, host, dir, name)|, |EncodeReply(reply)|)
    ensures var r := LookupEffect(s, seed, host, dir, name, d, w, garbage);
            r.outcome == AssertionFails && r.child == []
  {
    hide Exchange, ChildHandle, LookupFrame, EncodeReply, Record, Ready, Suffices, S.Inv, S.LegalDial, S.ConnectedTo,
      Draw32, Refuses;
    ConnectIsReady(s, s.nfsPort, d);
    ReplyRefuses(S.ConnectedTo(s, s.nfsPort, d).state, LookupFrame(seed, host, dir, name), Draw32(seed, 0), w, garbage,
                 reply, rest);
  }

  /** A lookup that does not get through yields no child. */
  lemma OnlyDoneYieldsChild(s: S.State, seed: uint64, host: seq<byte>, dir: seq<byte>, name: seq<byte>, d: S.Dial,
                            w: Wire, garbage: seq<byte>)
    requires |host| < 1024 && |dir| < 1024 && |name| < 1024 && |garbage| == BUFFER_SIZE
    ensures var r := LookupEffect(s, seed, host, dir, name, d, w, garbage);
            r.child != [] ==> r.outcome == Done
  {
    hide Exchange, LookupFrame, Draw32, ChildHandle, S.Step;
  }

  /** When the socket calls fail, lookup decodes what the response buffer contained before. */
  lemma FailedLookup(s: S.State, seed: uint64, host: seq<byte>, dir: seq<byte>, name: seq<byte>, d: S.Dial, w: Wire,
                     garbage: seq<byte>)
    requires |host| < 1024 && |dir| < 1024 && |name| < 1024 && |garbage| == BUFFER_SIZE && Fails(w)
    requires S.Sound(S.Step(s, S.ConnectNfs(d)).state)
    ensures var r := LookupEffect(s, seed, host, dir, name, d, w, garbage);
            var taken := WordAt(garbage, 0) == Draw32(seed, 0) && WordAt(garbage, 8) != 1 && WordAt(garbage, 20) == 0;
            && r.outcome == (if taken then Done else AssertionFails)
            && r.child == (if taken then ChildHandle(garbage, 24) else [])
  {
    hide Exchange, LookupFrame, ChildHandle, WordAt, Draw32, S.Step, S.Sound;
    FailedExchange(S.Step(s, S.ConnectNfs(d)).state, LookupFrame(seed, host, dir, name), Draw32(seed, 0), w, garbage);
    ParserOnWords(garbage, Draw32(seed, 0));
  }
}
