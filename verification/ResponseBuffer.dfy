/**
  What the response buffer contained before a call.  The callers of `receive` look neither at its result nor
  at the number of bytes it has stored, so the reply parser may read bytes that no peer has sent: exactly
  when it does.
 */
module ResponseBuffer {
  import opened Bytes
  import opened Messages
  import opened RecordStream
  import opened Rpc
  import opened Replies
  import opened RemoteCall
  import S = Session

  // ------------------------------------------------------------------ what a receive determines

  /**
    The front of the caller's buffer after that many bytes of the stream: a part of the header, or the body,
    with the end of the stripped header behind a body of less than four bytes.
   */
  ghost function Filled(stream: seq<byte>, received: nat): (front: seq<byte>)
    requires received <= |stream|
    ensures |front| <= 4 || |front| == received - 4
  {
    if received < 4 then stream[..received]
    else if received < 8 then stream[4..received] + U32(RecordLength(stream))[received - 4..]
    else stream[4..received]
  }

  /** All of the buffer that the stream does not determine is as it was. */
  lemma TakenBuffer(buf: seq<byte>, stream: seq<byte>, s: Receiving)
    requires Taken(buf, stream, s)
    ensures |Filled(stream, s.received)| <= |buf|
    ensures s.buf == Filled(stream, s.received) + buf[|Filled(stream, s.received)|..]
  {
    hide U32, RecordLength, WordAt;
    if s.headerReceived {
      var h, b := U32(RecordLength(stream)), stream[4..s.received];
      assert AfterHeader(buf, stream) == h + buf[4..];
      if |b| < 4 {
        assert s.buf == b + (h + buf[4..])[|b|..] == b + h[|b|..] + buf[4..];
      } else {
        assert s.buf == b + (h + buf[4..])[|b|..] == b + buf[|b|..];
      }
    }
  }

  /** Two loops over one stream and one schedule go through the same turns, whatever their buffers contain. */
  lemma {:induction false} SameTurns(buf: seq<byte>, buf': seq<byte>, stream: seq<byte>, s: Receiving, s': Receiving)
    requires s.WellFormed() && s'.WellFormed() && s.status == Running && s' == s.(buf := s'.buf)
    requires |buf| == |buf'| && Taken(buf, stream, s) && Taken(buf', stream, s')
    ensures RecvLoop(s') == RecvLoop(s).(buf := RecvLoop(s').buf)
    decreases |s.events|
  {
    hide Store;
    if s.pending != 0 && s.events != [] {
      var t, t' := s.(events := s.events[1..]), s'.(events := s.events[1..]);
      match s.events[0]
      case TryAgain => SameTurns(buf, buf', stream, t.(error := -1), t'.(error := -1));
      case RecvError(e) =>
      case Delivered(k) =>
        var n := Obtained(k, s.pending, s.unread);
        if HasRoom(s, n) {
          StoreKeepsTaken(buf, stream, t, n);
          StoreKeepsTaken(buf', stream, t', n);
          SameStore(buf, buf', stream, t, t', n);
          SameTurns(buf, buf', stream, Store(t, n), Store(t', n));
        }
    }
  }

  lemma SameStore(buf: seq<byte>, buf': seq<byte>, stream: seq<byte>, s: Receiving, s': Receiving, n: nat)
    requires s.WellFormed() && s'.WellFormed() && s.status == Running && s' == s.(buf := s'.buf)
    requires n <= s.pending && n <= |s.unread| && HasRoom(s, n) && HasRoom(s', n)
    requires Taken(buf, stream, Store(s, n)) && Taken(buf', stream, Store(s', n))
    ensures Store(s', n) == Store(s, n).(buf := Store(s', n).buf)
  {
  }

  // ------------------------------------------------------------------ what the parser needs

  /** The bytes that are there of the word at `at` are those of v. */
  ghost predicate Agrees(front: seq<byte>, at: nat, v: uint32) {
    forall i :: 0 <= i < 4 && at + i < |front| ==> front[at + i] == U32(v)[i]
  }

  /**
    The front of a buffer decides what the parser says: another xid, even if it is cut off; a denial with
    its reason; or, without a denial, the status word; cut-off words decide if they can no longer become 0.
   */
  ghost predicate Decided(front: seq<byte>, xid: uint32) {
    || !Agrees(front, 0, xid)
    || (12 <= |front| && WordAt(front, 8) == MSG_DENIED && (16 <= |front| || !Agrees(front, 12, RPC_MISMATCH)))
    || (12 <= |front| && WordAt(front, 8) != MSG_DENIED && (24 <= |front| || !Agrees(front, 20, SUCCESS)))
  }

  /** The parser's answer is the same whatever follows the front, up to n bytes in all. */
  ghost predicate Independent(front: seq<byte>, xid: uint32, n: nat)
    requires 32 <= n && |front| <= n
  {
    forall a: seq<byte>, b: seq<byte> :: |a| == n - |front| && |b| == n - |front| ==>
      Parse(front + a, xid) == Parse(front + b, xid)
  }

  lemma WordInFront(front: seq<byte>, a: seq<byte>, at: nat)
    requires at + 4 <= |front|
    ensures WordAt(front + a, at) == WordAt(front, at)
  {
    assert (front + a)[at..at + 4] == front[at..at + 4];
  }

  /** A word of which one byte is there and differs is another word, whatever follows. */
  lemma OtherWord(front: seq<byte>, a: seq<byte>, at: nat, v: uint32)
    requires !Agrees(front, at, v) && at + 4 <= |front + a|
    ensures WordAt(front + a, at) != v
  {
    var s := front + a;
    BytesOfWord(s, at);
    if WordAt(s, at) == v {
      assert forall i :: 0 <= i < 4 ==> s[at + i] == s[at..at + 4][i] == U32(v)[i];
    }
  }

  lemma ZeroBytes()
    ensures forall i :: 0 <= i < 4 ==> U32(0)[i] == 0
  {
    hide U32;
    ZeroWordBytes(4);
  }

  lemma OneBytes()
    ensures U32(1) == [0, 0, 0, 1]
  {
    var bs: seq<byte> := [0, 0, 0, 1];
    WeightOfFour(bs);
    U32Unique(bs, 1);
  }

  /** 0 and 1 differ in their last byte only. */
  lemma ZeroAndOne(front: seq<byte>, at: nat)
    requires |front| < at + 4
    ensures Agrees(front, at, 0) <==> Agrees(front, at, 1)
  {
    ZeroBytes();
    OneBytes();
    hide U32;
    assert forall i :: 0 <= i < 3 ==> U32(0)[i] == U32(1)[i];
  }

  lemma DecidedIsIndependent(front: seq<byte>, xid: uint32, a: seq<byte>, b: seq<byte>)
    requires Decided(front, xid) && 32 <= |front + a| && |a| == |b|
    ensures Parse(front + a, xid) == Parse(front + b, xid)
  {
    hide WordAt, U32, Agrees;
    if !Agrees(front, 0, xid) {
      OtherWord(front, a, 0, xid);
      OtherWord(front, b, 0, xid);
    } else {
      SameWords(front, a, b);
      if WordAt(front, 8) == MSG_DENIED {
        if |front| < 16 {
          ZeroAndOne(front, 12);
          OtherWord(front, a, 12, RPC_MISMATCH);
          OtherWord(front, b, 12, RPC_MISMATCH);
          OtherWord(front, a, 12, AUTH_ERROR);
          OtherWord(front, b, 12, AUTH_ERROR);
        }
      } else if |front| < 24 {
        OtherWord(front, a, 20, SUCCESS);
        OtherWord(front, b, 20, SUCCESS);
      }
    }
  }

  lemma SameWords(front: seq<byte>, a: seq<byte>, b: seq<byte>)
    requires 12 <= |front| && 32 <= |front + a| && |a| == |b|
    ensures forall at :: 0 <= at && at + 4 <= |front| ==>
              WordAt(front + a, at) == WordAt(front, at) && WordAt(front + b, at) == WordAt(front, at)
  {
    forall at | 0 <= at && at + 4 <= |front|
      ensures WordAt(front + a, at) == WordAt(front, at) && WordAt(front + b, at) == WordAt(front, at)
    {
      WordInFront(front, a, at);
      WordInFront(front, b, at);
    }
  }

  /** Byte k of a completed buffer, if it is not there yet. */
  ghost function CompletedByte(xid: uint32, k: nat, at: nat, v: byte): byte {
    if k < 4 then U32(xid)[k] else if k == at then v else 0
  }

  /** A completion: the rest of the xid, then zeros, but v at one place. */
  ghost function Completion(front: seq<byte>, xid: uint32, n: nat, at: nat, v: byte): (a: seq<byte>)
    requires |front| <= n
    ensures |a| == n - |front|
    ensures forall k :: |front| <= k < n ==> (front + a)[k] == CompletedByte(xid, k, at, v)
  {
    seq<byte>(n - |front|, i requires 0 <= i < n - |front| => CompletedByte(xid, |front| + i, at, v))
  }

  lemma CompletedXid(front: seq<byte>, xid: uint32, n: nat, at: nat, v: byte)
    requires 32 <= n && |front| <= n && Agrees(front, 0, xid)
    ensures WordAt(front + Completion(front, xid, n, at, v), 0) == xid
  {
    var s := front + Completion(front, xid, n, at, v);
    assert s[0..4] == U32(xid);
    assert Holds(s, 0, U32(xid));
    HoldsWord(s, 0, xid);
  }

  lemma CompletedBytes(front: seq<byte>, s: seq<byte>, xid: uint32, n: nat, at: nat, place: nat, v: byte)
    requires |front| <= n == |s| && 4 <= at && at + 4 <= n && |front| < at + 4 && Agrees(front, at, 0)
    requires s[..|front|] == front && forall k :: |front| <= k < n ==> s[k] == CompletedByte(xid, k, place, v)
    requires place == 0 || place == at + 3
    ensures WordAt(s, at) == if place == 0 then 0 else v
  {
    ZeroBytes();
    WordAtIs(s, at);
    hide U32, WordAt;
    forall k | at <= k < at + 4
      ensures s[k] == if k == place then v else 0
    {
      if k < |front| {
        assert s[k] == front[at + (k - at)] == U32(0)[k - at];
      }
    }
  }

  /** A word that may still become 0 becomes 0, or v. */
  lemma CompletedWord(front: seq<byte>, xid: uint32, n: nat, at: nat, v: byte)
    requires 32 <= n && |front| <= n && 4 <= at && at + 4 <= n && |front| < at + 4 && Agrees(front, at, 0)
    ensures WordAt(front + Completion(front, xid, n, at + 3, v), at) == v
    ensures WordAt(front + Completion(front, xid, n, 0, 0), at) == 0
  {
    CompletedBytes(front, front + Completion(front, xid, n, at + 3, v), xid, n, at, at + 3, v);
    CompletedBytes(front, front + Completion(front, xid, n, 0, 0), xid, n, at, 0, 0);
  }

  lemma UndecidedDepends(front: seq<byte>, xid: uint32, n: nat)
    requires 32 <= n && |front| <= n && !Decided(front, xid)
    ensures !Independent(front, xid, n)
  {
    hide WordAt, U32, Completion;
    var denied := 12 <= |front| && WordAt(front, 8) == MSG_DENIED;
    var at, v: byte := if denied then 12 else 20, if denied then 2 else 1;
    var a, b := Completion(front, xid, n, at + 3, v), Completion(front, xid, n, 0, 0);
    CompletedXid(front, xid, n, at + 3, v);
    CompletedXid(front, xid, n, 0, 0);
    CompletedWord(front, xid, n, at, v);
    if 12 <= |front| {
      SameWords(front, a, b);
    } else {
      LastByteZero(front + a, 8);
      LastByteZero(front + b, 8);
    }
    assert Parse(front + a, xid) != Parse(front + b, xid);
  }

  lemma LastByteZero(s: seq<byte>, at: nat)
    requires at + 4 <= |s| && s[at + 3] == 0
    ensures WordAt(s, at) != MSG_DENIED
  {
    WordAtIs(s, at);
  }

  /** The parser's answer is the same whatever follows exactly when the front decides it. */
  lemma ParseDecided(front: seq<byte>, xid: uint32, n: nat)
    requires 32 <= n && |front| <= n
    ensures Independent(front, xid, n) <==> Decided(front, xid)
  {
    if Decided(front, xid) {
      forall a: seq<byte>, b: seq<byte> | |a| == n - |front| && |b| == n - |front|
        ensures Parse(front + a, xid) == Parse(front + b, xid)
      {
        DecidedIsIndependent(front, xid, a, b);
      }
    } else {
      UndecidedDepends(front, xid, n);
    }
  }

  /** A front that starts with a well-formed reply decides; so does any of 24 bytes. */
  lemma RepliesDecide(front: seq<byte>, r: Reply, xid: uint32)
    requires r.Valid() && Holds(front, 0, EncodeReply(r))
    ensures Decided(front, xid)
  {
    if r.Denied? {
      var ws := [r.xid, REPLY, MSG_DENIED];
      HoldsParts(front, 0, Words(ws), EncodeRejected(r.reason));
      HoldsWords(front, 0, ws, 2);
    }
  }

  // ------------------------------------------------------------------ whole calls

  /** The front of the response buffer that a call determines; nothing if there is no recv at all. */
  ghost function Known(s: S.State, frame: seq<byte>, w: Wire): seq<byte>
    requires S.Sound(s)
  {
    if s.socketFd == -1 || w.opt != 0 then []
    else
      var t, zeros := S.Sent(s, frame, w.sends).state, Zeros(BUFFER_SIZE);
      ReceiveSplitsRecord(zeros, t.open[t.socketFd].Unread(), 0, w.receives);
      Filled(t.open[t.socketFd].Unread(), S.RecvRun(t, zeros, w.receives).received)
  }

  /** The call gets as far as the parser. */
  ghost predicate ReachesParser(s: S.State, frame: seq<byte>, xid: uint32, w: Wire) {
    var answer := Exchange(s, frame, xid, w, Zeros(BUFFER_SIZE)).answer;
    answer != NeverReturns && answer != Overflows
  }

  lemma ReceiveFills(stream: seq<byte>, events: seq<RecvEvent>, buf: seq<byte>, buf': seq<byte>)
    requires 4 <= |buf| == |buf'|
    ensures var r, r' := RecvLoop(RecvStart(buf, stream, 0, events)), RecvLoop(RecvStart(buf', stream, 0, events));
            && r'.status == r.status && r'.received == r.received <= |stream|
            && |Filled(stream, r.received)| <= |buf|
            && r'.buf == Filled(stream, r.received) + buf'[|Filled(stream, r.received)|..]
  {
    var s, s' := RecvStart(buf, stream, 0, events), RecvStart(buf', stream, 0, events);
    assert Splice(buf, 0, stream[..0]) == buf && Splice(buf', 0, stream[..0]) == buf';
    SameTurns(buf, buf', stream, s, s');
    LoopKeepsTaken(buf', stream, s');
    TakenBuffer(buf', stream, RecvLoop(s'));
  }

  /**
    Whether the parser is reached does not depend on the old contents, and the parser sees the known front
    and the rest of them.
   */
  lemma ExchangeBuffer(s: S.State, frame: seq<byte>, xid: uint32, w: Wire, garbage: seq<byte>)
    requires S.Sound(s) && |garbage| == BUFFER_SIZE
    ensures |Known(s, frame, w)| <= BUFFER_SIZE
    ensures var x, x0 := Exchange(s, frame, xid, w, garbage), Exchange(s, frame, xid, w, Zeros(BUFFER_SIZE));
            && (ReachesParser(s, frame, xid, w) ==>
                  && x.buf == Known(s, frame, w) + garbage[|Known(s, frame, w)|..]
                  && x.answer == AnswerOf(Parse(x.buf, xid)))
            && (!ReachesParser(s, frame, xid, w) ==> x.answer == x0.answer)
  {
    hide Parse, RecvLoop, RecvStart, SendLoop, SendStart, Filled, Zeros, S.Add64;
    var t := S.Sent(s, frame, w.sends).state;
    if s.socketFd != -1 {
      ReceiveFills(t.open[t.socketFd].Unread(), w.receives, Zeros(BUFFER_SIZE), garbage);
    }
  }

  /**
    The answer of a call does not depend on what the response buffer contained before exactly when the call
    does not get as far as the parser, or the bytes received decide.
   */
  lemma AnswerIndependent(s: S.State, frame: seq<byte>, xid: uint32, w: Wire)
    requires S.Sound(s)
    ensures (forall g: seq<byte>, g': seq<byte> :: |g| == BUFFER_SIZE && |g'| == BUFFER_SIZE ==>
               Exchange(s, frame, xid, w, g).answer == Exchange(s, frame, xid, w, g').answer)
            <==> (ReachesParser(s, frame, xid, w) ==> Decided(Known(s, frame, w), xid))
  {
    hide Exchange, Known, Decided, Parse, Zeros, S.Sound;
    if !ReachesParser(s, frame, xid, w) {
      forall g: seq<byte> | |g| == BUFFER_SIZE
        ensures Exchange(s, frame, xid, w, g).answer == Exchange(s, frame, xid, w, Zeros(BUFFER_SIZE)).answer
      {
        ExchangeBuffer(s, frame, xid, w, g);
      }
    } else if Decided(Known(s, frame, w), xid) {
      forall g: seq<byte>, g': seq<byte> | |g| == BUFFER_SIZE && |g'| == BUFFER_SIZE
        ensures Exchange(s, frame, xid, w, g).answer == Exchange(s, frame, xid, w, g').answer
      {
        var front := Known(s, frame, w);
        ExchangeBuffer(s, frame, xid, w, g);
        ExchangeBuffer(s, frame, xid, w, g');
        DecidedIsIndependent(front, xid, g[|front|..], g'[|front|..]);
      }
    } else {
      var g, g' := TwoAnswers(s, frame, xid, w);
    }
  }

  /** Two contents that are answered differently. */
  lemma TwoAnswers(s: S.State, frame: seq<byte>, xid: uint32, w: Wire) returns (g: seq<byte>, g': seq<byte>)
    requires S.Sound(s) && ReachesParser(s, frame, xid, w) && !Decided(Known(s, frame, w), xid)
    ensures |g| == BUFFER_SIZE && |g'| == BUFFER_SIZE
    ensures Exchange(s, frame, xid, w, g).answer != Exchange(s, frame, xid, w, g').answer
  {
    hide Exchange, Known, ReachesParser, Decided, Parse, Zeros, S.Sound;
    var front := Known(s, frame, w);
    ExchangeBuffer(s, frame, xid, w, Zeros(BUFFER_SIZE));
    UndecidedDepends(front, xid, BUFFER_SIZE);
    var a: seq<byte>, b: seq<byte> :| |a| == BUFFER_SIZE - |front| && |b| == BUFFER_SIZE - |front|
      && Parse(front + a, xid) != Parse(front + b, xid);
    g, g' := front + a, front + b;
    assert front + g[|front|..] == g && front + g'[|front|..] == g';
    ExchangeBuffer(s, frame, xid, w, g);
    ExchangeBuffer(s, frame, xid, w, g');
  }

  /** A call that fails on its connection, whatever its xid: every answer comes from the old contents. */
  lemma FailedReceiveUndecided(s: S.State, frame: seq<byte>, xid: uint32, w: Wire)
    requires S.Sound(s) && frame != [] && Fails(w)
    ensures ReachesParser(s, frame, xid, w) && Known(s, frame, w) == [] && !Decided(Known(s, frame, w), xid)
  {
    FailedExchange(s, frame, xid, w, Zeros(BUFFER_SIZE));
  }

  /** The front that a complete record leaves: behind less than four bytes, the end of the header. */
  ghost function FrontOf(body: seq<byte>): (front: seq<byte>)
    requires |body| <= BUFFER_SIZE
  {
    if |body| < 4 then body + U32(|body|)[|body|..] else body
  }

  /** A call that receives a complete record. */
  lemma KnownOfRecord(s: S.State, frame: seq<byte>, xid: uint32, w: Wire, body: seq<byte>, rest: seq<byte>)
    requires frame != [] && |body| <= BUFFER_SIZE
    requires Ready(s, Record(body) + rest) && Suffices(w, |frame|, |body|)
    ensures ReachesParser(s, frame, xid, w) && Known(s, frame, w) == FrontOf(body)
  {
    hide U32, WordAt, Record, RecordLength, Filled, Parse, Zeros, SendLoop, RecvLoop;
    var stream, zeros := Record(body) + rest, Zeros(BUFFER_SIZE);
    FrameArrives(s, frame, w, stream);
    var t := S.Sent(s, frame, w.sends).state;
    RecordLengthOfRecord(body, rest);
    ReceiveSplitsRecord(zeros, stream, 0, w.receives);
    ReceiveTerminates(zeros, stream, 0, w.receives);
    FilledRecord(body, rest);
  }

  lemma FilledRecord(body: seq<byte>, rest: seq<byte>)
    requires |body| <= BUFFER_SIZE
    ensures Filled(Record(body) + rest, 4 + |body|) == FrontOf(body)
  {
    RecordLengthOfRecord(body, rest);
  }

  /**
    A peer that sends a record of four bytes, the xid: it is taken for a successful reply exactly when the
    old contents have no denial at 8 and a zero word at 20.
   */
  lemma XidAloneUndecided(s: S.State, frame: seq<byte>, xid: uint32, w: Wire, garbage: seq<byte>, rest: seq<byte>)
    requires frame != [] && |garbage| == BUFFER_SIZE
    requires Ready(s, Record(U32(xid)) + rest) && Suffices(w, |frame|, 4)
    ensures Exchange(s, frame, xid, w, garbage).answer == At(24)
            <==> WordAt(garbage, 8) != 1 && WordAt(garbage, 20) == 0
  {
    assert S.Sound(s);
    hide U32, WordAt, Record, Exchange, Known, ReachesParser, Ready, Suffices;
    KnownOfRecord(s, frame, xid, w, U32(xid), rest);
    ExchangeBuffer(s, frame, xid, w, garbage);
    XidThenGarbage(xid, garbage);
  }

  lemma XidThenGarbage(xid: uint32, garbage: seq<byte>)
    requires |garbage| == BUFFER_SIZE
    ensures Parse(U32(xid) + garbage[4..], xid) == Payload(24)
            <==> WordAt(garbage, 8) != 1 && WordAt(garbage, 20) == 0
  {
    hide U32, WordAt;
    var buf := U32(xid) + garbage[4..];
    assert buf[0..4] == U32(xid) && buf[8..12] == garbage[8..12] && buf[20..24] == garbage[20..24];
    XidInFront(buf, xid);
    SameWord(buf, 8, garbage, 8);
    SameWord(buf, 20, garbage, 20);
  }

  lemma XidInFront(s: seq<byte>, xid: uint32)
    requires 4 <= |s| && s[0..4] == U32(xid)
    ensures WordAt(s, 0) == xid
  {
    assert Holds(s, 0, U32(xid));
    HoldsWord(s, 0, xid);
  }
}
