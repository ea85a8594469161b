/**
  A remote call on an open connection, from end to end: send the frame, receive a record, strip the reply.
 */
module RemoteCall {
  import opened Bytes
  import opened RecordStream
  import opened Rpc
  import opened Replies
  import S = Session
  import C = Context

  /**
    How a call ends: its result, if any, lies at an offset of the response buffer; the reply was not
    accepted; an assertion fails; a record is stored behind the response buffer; or some socket call never
    returns.
   */
  datatype Answer = At(offset: nat) | Refused | Asserts | Overflows | NeverReturns

  datatype Exchanged = Exchanged(state: S.State, buf: seq<byte>, answer: Answer)

  /** The schedules of a call and the answer of setsockopt. */
  datatype Wire = Wire(sends: seq<SendEvent>, opt: int, receives: seq<RecvEvent>)

  function AnswerOf(outcome: ParseOutcome): Answer {
    match outcome
    case Payload(at) => At(at)
    case Rejected => Refused
    case Aborted => Asserts
  }

  /** Send and receive are tried in turn whatever they return; then the response buffer is parsed. */
  ghost function Exchange(s: S.State, frame: seq<byte>, xid: uint32, w: Wire, garbage: seq<byte>): (x: Exchanged)
    requires 32 <= |garbage|
    ensures |x.buf| == |garbage|
    ensures x.answer.At? ==> x.answer.offset == 24
  {
    var sent := S.Sent(s, frame, w.sends);
    if sent.status == Hung then Exchanged(sent.state, garbage, NeverReturns)
    else
      var got := S.Received(sent.state, garbage, w.opt, w.receives);
      var buf := if s.socketFd != -1 && s.socketFd in sent.state.open && w.opt == 0
                 then S.RecvRun(sent.state, garbage, w.receives).buf else garbage;
      if got.status == Hung then Exchanged(got.state, buf, NeverReturns)
      else if got.status == Overrun then Exchanged(got.state, buf, Overflows)
      else Exchanged(got.state, buf, AnswerOf(Parse(buf, xid)))
  }

  /** An exchange opens and closes nothing. */
  lemma ExchangeKeepsPorts(s: S.State, frame: seq<byte>, xid: uint32, w: Wire, garbage: seq<byte>)
    requires 32 <= |garbage|
    ensures var t := Exchange(s, frame, xid, w, garbage).state;
            && t.socketFd == s.socketFd && t.open.Keys == s.open.Keys && t.port == s.port
            && t.portMapperPort == s.portMapperPort && t.mountPort == s.mountPort && t.nfsPort == s.nfsPort
  {
    hide Parse, SendLoop, RecvLoop, SendStart, RecvStart, S.Add64;
  }

  /** A connected context whose peer has yet to deliver the given bytes. */
  ghost predicate Ready(s: S.State, inbound: seq<byte>) {
    S.Inv(s) && S.IsConnected(s) && s.open[s.socketFd].Unread() == inbound
  }

  /** No socket call fails, and there is enough progress for the frame and for the reply. */
  ghost predicate Suffices(w: Wire, frame: nat, reply: nat) {
    w.opt == 0 && NoSendError(w.sends) && frame <= SendProgress(w.sends)
    && NoRecvError(w.receives) && 4 + reply <= RecvProgress(w.receives)
  }

  /** After the send the peer has exactly the frame behind what it had, and the reply is still to come. */
  lemma FrameArrives(s: S.State, frame: seq<byte>, w: Wire, inbound: seq<byte>)
    requires Ready(s, inbound) && frame != []
    requires NoSendError(w.sends) && |frame| <= SendProgress(w.sends)
    ensures var t := S.Sent(s, frame, w.sends);
            && t.status == Returned(0)
            && Ready(t.state, inbound)
            && t.state.socketFd == s.socketFd
            && t.state.open[s.socketFd].outbound == s.open[s.socketFd].outbound + frame
  {
    var st := SendStart(frame, s.open[s.socketFd].outbound, s.error, w.sends);
    SendWritesPrefix(frame, st);
    SendTerminates(frame, st);
    assert frame[0..|frame|] == frame;
    S.SendKeepsInv(s, frame, w.sends);
  }

  /** Receiving a complete record into the response buffer, with what follows it left unread. */
  lemma ReplyArrives(s: S.State, w: Wire, garbage: seq<byte>, body: seq<byte>, rest: seq<byte>)
    requires 32 <= |garbage| && |body| <= |garbage| && |body| < 0x8000_0000
    requires Ready(s, Record(body) + rest)
    requires w.opt == 0 && NoRecvError(w.receives) && 4 + |body| <= RecvProgress(w.receives)
    ensures var t := S.Received(s, garbage, w.opt, w.receives);
            var r := S.RecvRun(s, garbage, w.receives);
            && t.status == Returned(0)
            && Ready(t.state, rest)
            && t.state.socketFd == s.socketFd
            && t.state.open[s.socketFd].outbound == s.open[s.socketFd].outbound
            && |r.buf| == |garbage| && Holds(r.buf, 0, body)
  {
    var inbound := Record(body) + rest;
    RecordLengthOfRecord(body, rest);
    ReceiveSplitsRecord(garbage, inbound, 0, w.receives);
    ReceiveTerminates(garbage, inbound, 0, w.receives);
    S.ReceiveKeepsInv(s, garbage, 0, w.receives);
    S.UnreadAdvances(s.open[s.socketFd], 4 + |body|);
    var buf := S.RecvRun(s, garbage, w.receives).buf;
    assert buf[..|body|] == body;
  }

  /**
    On a connection with enough progress the peer receives the frame, the response buffer holds the peer's
    reply, what the peer sends after it stays unread, and the answer is the reply's meaning exactly when the
    parser understands the reply.
   */
  lemma ExchangeDelivers(s: S.State, frame: seq<byte>, xid: uint32, w: Wire, garbage: seq<byte>, reply: Reply,
                         rest: seq<byte>)
    requires reply.Valid() && 32 <= |garbage| && frame != []
    requires |EncodeReply(reply)| <= |garbage| && |EncodeReply(reply)| < 0x8000_0000
    requires Ready(s, Record(EncodeReply(reply)) + rest)
    requires Suffices(w, |frame|, |EncodeReply(reply)|)
    ensures var x := Exchange(s, frame, xid, w, garbage);
            && Ready(x.state, rest)
            && x.state.socketFd == s.socketFd
            && x.state.open[s.socketFd].outbound == s.open[s.socketFd].outbound + frame
            && |x.buf| == |garbage| && Holds(x.buf, 0, EncodeReply(reply))
            && (Understood(reply, xid) <==> x.answer == AnswerOf(Meaning(reply, xid)))
  {
    var body := EncodeReply(reply);
    FrameArrives(s, frame, w, Record(body) + rest);
    var sent := S.Sent(s, frame, w.sends);
    ReplyArrives(sent.state, w, garbage, body, rest);
    hide S.Sent, S.Received, S.RecvRun, EncodeReply, Record, Parse, Understood, Meaning;
    ParserExact(S.RecvRun(sent.state, garbage, w.receives).buf, reply, xid);
  }

  /** A reply that answers another call is refused; it is off the connection then. */
  lemma StaleReplyRefused(s: S.State, frame: seq<byte>, xid: uint32, w: Wire, garbage: seq<byte>, reply: Reply,
                          rest: seq<byte>)
    requires reply.Valid() && reply.xid != xid && 32 <= |garbage| && frame != []
    requires |EncodeReply(reply)| <= |garbage| && |EncodeReply(reply)| < 0x8000_0000
    requires Ready(s, Record(EncodeReply(reply)) + rest)
    requires Suffices(w, |frame|, |EncodeReply(reply)|)
    ensures var x := Exchange(s, frame, xid, w, garbage);
            && x.answer == Refused
            && Ready(x.state, rest)
            && x.state.socketFd == s.socketFd
            && x.state.open[s.socketFd].outbound == s.open[s.socketFd].outbound + frame
  {
    ReplyRefuses(s, frame, xid, w, garbage, reply, rest);
  }

  /** No well-formed reply fails the parser's assertion. */
  lemma RepliesAnswer(s: S.State, frame: seq<byte>, xid: uint32, w: Wire, garbage: seq<byte>, reply: Reply,
                      rest: seq<byte>)
    requires reply.Valid() && 32 <= |garbage| && frame != []
    requires |EncodeReply(reply)| <= |garbage| && |EncodeReply(reply)| < 0x8000_0000
    requires Ready(s, Record(EncodeReply(reply)) + rest)
    requires Suffices(w, |frame|, |EncodeReply(reply)|)
    ensures var x := Exchange(s, frame, xid, w, garbage);
            x.answer == Refused || x.answer == At(24)
  {
    FrameArrives(s, frame, w, Record(EncodeReply(reply)) + rest);
    var sent := S.Sent(s, frame, w.sends);
    ReplyArrives(sent.state, w, garbage, EncodeReply(reply), rest);
    hide S.Sent, S.Received, S.RecvRun, EncodeReply, Record;
    RepliesParsed(S.RecvRun(sent.state, garbage, w.receives).buf, reply, xid);
  }

  /** A well-formed reply that gives the caller nothing, and that the parser understands. */
  ghost predicate Refuses(r: Reply, xid: uint32) {
    r.xid != xid || r.Denied? || (!r.body.Success? && (r.verf.body == [] || !StartsWithZeroWord(r.verf.body)))
  }

  lemma ReplyRefuses(s: S.State, frame: seq<byte>, xid: uint32, w: Wire, garbage: seq<byte>, reply: Reply,
                     rest: seq<byte>)
    requires reply.Valid() && Refuses(reply, xid) && 32 <= |garbage| && frame != []
    requires |EncodeReply(reply)| <= |garbage| && |EncodeReply(reply)| < 0x8000_0000
    requires Ready(s, Record(EncodeReply(reply)) + rest)
    requires Suffices(w, |frame|, |EncodeReply(reply)|)
    ensures var x := Exchange(s, frame, xid, w, garbage);
            x.answer == Refused && Ready(x.state, rest) && x.state.socketFd == s.socketFd
            && x.state.open[s.socketFd].outbound == s.open[s.socketFd].outbound + frame
  {
    hide Exchange, Record, EncodeReply, Ready, Suffices, Parse, StartsWithZeroWord;
    ExchangeDelivers(s, frame, xid, w, garbage, reply, rest);
  }

  /** No socket call fails, and there is progress beyond what the response buffer can hold. */
  ghost predicate Ample(w: Wire, frame: nat, size: nat) {
    w.opt == 0 && NoSendError(w.sends) && frame <= SendProgress(w.sends)
    && NoRecvError(w.receives) && 4 + size < RecvProgress(w.receives)
  }

  /**
    With ample progress the peer's bytes alone decide how a call ends: it stores bytes behind the response
    buffer exactly when they announce a longer record and more of it is there than fits; it never returns
    exactly when the record is not all there otherwise; and in all other cases the parser answers.
   */
  lemma ExchangeOverflows(s: S.State, frame: seq<byte>, xid: uint32, w: Wire, garbage: seq<byte>, inbound: seq<byte>)
    requires Ready(s, inbound) && frame != [] && 32 <= |garbage|
    requires Ample(w, |frame|, |garbage|)
    ensures var x := Exchange(s, frame, xid, w, garbage);
            && (x.answer == Overflows <==> RunsOver(inbound, |garbage|))
            && (x.answer == NeverReturns <==> !HoldsFitting(inbound, |garbage|) && !RunsOver(inbound, |garbage|))
  {
    FrameArrives(s, frame, w, inbound);
    hide SendLoop, RecvLoop, Parse, RecordLength, S.Sent, NoSendError, NoRecvError;
    ReceiveTerminates(garbage, inbound, 0, w.receives);
  }

  /** The first call on the socket fails, both in send and in receive, as on a socket whose ::connect has failed. */
  ghost predicate Fails(w: Wire) {
    w.sends != [] && w.sends[0].SendError?
    && (w.opt != 0 || (w.receives != [] && w.receives[0].RecvError?))
  }

  /** Nothing is sent, nothing is received, and what the response buffer contained before is taken for the reply. */
  lemma FailedExchange(s: S.State, frame: seq<byte>, xid: uint32, w: Wire, garbage: seq<byte>)
    requires S.Sound(s) && frame != [] && 32 <= |garbage| && Fails(w)
    ensures var x := Exchange(s, frame, xid, w, garbage);
            x.buf == garbage && x.state.open == s.open && x.answer == AnswerOf(Parse(garbage, xid))
  {
    if s.socketFd != -1 {
      assert s.open[s.socketFd := s.open[s.socketFd]] == s.open;
    }
  }

  function OneByteSends(n: nat): (events: seq<SendEvent>) {
    if n == 0 then [] else [Wrote(1)] + OneByteSends(n - 1)
  }

  /** Every byte is preceded by an EAGAIN. */
  function OneByteReceives(n: nat): (events: seq<RecvEvent>) {
    if n == 0 then [] else [TryAgain, Delivered(1)] + OneByteReceives(n - 1)
  }

  /** The slowest connection: every call moves one byte, and every second recv has to be repeated. */
  function Slow(frame: nat, reply: nat): Wire {
    Wire(OneByteSends(frame), 0, OneByteReceives(4 + reply))
  }

  lemma {:induction false} OneByteSendsSuffice(n: nat)
    ensures NoSendError(OneByteSends(n)) && SendProgress(OneByteSends(n)) == n
  {
    if n != 0 {
      OneByteSendsSuffice(n - 1);
    }
  }

  lemma TwoMore(events: seq<RecvEvent>)
    ensures NoRecvError(events) ==> NoRecvError([TryAgain, Delivered(1)] + events)
    ensures RecvProgress([TryAgain, Delivered(1)] + events) == 1 + RecvProgress(events)
  {
    var tail := [Delivered(1)] + events;
    var all := [TryAgain] + tail;
    assert all == [TryAgain, Delivered(1)] + events;
    assert all[1..] == tail && tail[1..] == events;
    assert RecvProgress(all) == RecvProgress(tail);
    assert RecvProgress(tail) == 1 + RecvProgress(events);
  }

  lemma {:induction false} OneByteReceivesSuffice(n: nat)
    ensures NoRecvError(OneByteReceives(n)) && RecvProgress(OneByteReceives(n)) == n
  {
    if n != 0 {
      OneByteReceivesSuffice(n - 1);
      TwoMore(OneByteReceives(n - 1));
    }
  }

  lemma SlowSuffices(frame: nat, reply: nat)
    ensures Suffices(Slow(frame, reply), frame, reply)
  {
    OneByteSendsSuffice(frame);
    OneByteReceivesSuffice(4 + reply);
  }

  /** The methods' part of an exchange; `garbage` is what the response buffer held when it was allocated. */
  method RunExchange(context: C.Context, wireRequest: array<byte>, requestSize: nat, xid: uint32, timeout: int, w: Wire)
    returns (wireResponse: array<byte>, answer: Answer, ghost garbage: seq<byte>)
    requires requestSize <= wireRequest.Length && requestSize < 0x8000_0000
    requires S.Sound(context.State())
    modifies context, context.os
    ensures fresh(wireResponse) && wireResponse.Length == BUFFER_SIZE == |garbage|
    ensures Exchanged(context.State(), wireResponse[..], answer)
         == Exchange(old(context.State()), old(wireRequest[..requestSize]), xid, w, garbage)
  {
    ghost var s := context.State();
    ghost var frame := wireRequest[..requestSize];
    S.StepKeepsSound(s, S.Send(frame, w.sends));
    var status := context.Send(wireRequest, requestSize, w.sends);
    wireResponse := new byte[BUFFER_SIZE];
    garbage := wireResponse[..];
    if status == Hung {
      return wireResponse, NeverReturns, garbage;
    }
    var responseSize := 0;
    status, responseSize := context.Receive(timeout, wireResponse, responseSize, w.opt, w.receives);
    if status == Hung {
      return wireResponse, NeverReturns, garbage;
    }
    if status == Overrun {
      return wireResponse, Overflows, garbage;
    }
    var outcome := ParseAndStripRPC(wireResponse, responseSize, xid);
    answer := AnswerOf(outcome);
  }
}
