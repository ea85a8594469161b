/**
  The record-marked byte stream: what the send and receive loops do under every way in which the operating
  system may cut the bytes into pieces.  A schedule is the list of answers that successive socket calls
  give; a loop that outlives its schedule is `Hung`, that is, the call has not returned.  `Overrun` is a
  recv that stores bytes behind the caller's buffer; what the program does from there on is undefined.
 */
module RecordStream {
  import opened Bytes
  import opened Xdr

  datatype Status = Running | Returned(code: int) | Hung | Overrun

  /** `Wrote(k)` accepts at most k bytes. */
  datatype SendEvent = Wrote(count: nat) | SendError(errno: int)

  /** `Delivered(k)` hands over at most k bytes; `TryAgain` is EAGAIN or EWOULDBLOCK. */
  datatype RecvEvent = Delivered(count: nat) | TryAgain | RecvError(errno: int)

  // ------------------------------------------------------------------ records (section 11 of RFC 5531)

  /** A record of one fragment: the length with the last-fragment bit, and the body. */
  ghost function Record(body: seq<byte>): (r: seq<byte>)
    requires |body| < 0x8000_0000
    ensures |r| == 4 + |body|
  {
    U32(0x8000_0000 + |body|) + body
  }

  ghost predicate AllRecordable(bodies: seq<seq<byte>>) {
    forall i :: 0 <= i < |bodies| ==> |bodies[i]| < 0x8000_0000
  }

  ghost predicate AllFit(bodies: seq<seq<byte>>, limit: nat) {
    forall i :: 0 <= i < |bodies| ==> |bodies[i]| <= limit
  }

  ghost function Records(bodies: seq<seq<byte>>): seq<seq<byte>>
    requires AllRecordable(bodies)
  {
    seq(|bodies|, i requires 0 <= i < |bodies| => Record(bodies[i]))
  }

  /** The length a header announces once its last-fragment bit is cleared. */
  function RecordLength(s: seq<byte>): (n: nat)
    requires 4 <= |s|
    ensures n < 0x8000_0000
  {
    WordAt(s, 0) % 0x8000_0000
  }

  ghost predicate HoldsRecord(s: seq<byte>) {
    4 <= |s| && 4 + RecordLength(s) <= |s|
  }

  /** The record at the front of the stream is complete and fits a buffer of that size. */
  ghost predicate HoldsFitting(s: seq<byte>, limit: nat) {
    HoldsRecord(s) && RecordLength(s) <= limit
  }

  /** The record at the front of the stream is announced longer than the buffer, and more of it is there than fits. */
  ghost predicate RunsOver(s: seq<byte>, limit: nat) {
    4 <= |s| && RecordLength(s) > limit && |s| > 4 + limit
  }

  lemma RecordLengthOfRecord(body: seq<byte>, rest: seq<byte>)
    requires |body| < 0x8000_0000
    ensures RecordLength(Record(body) + rest) == |body|
    ensures (Record(body) + rest)[4..4 + |body|] == body
    ensures (Record(body) + rest)[4 + |body|..] == rest
  {
    assert (Record(body) + rest)[0..4] == U32(0x8000_0000 + |body|);
  }

  // ------------------------------------------------------------------ sending

  /** The variables of the send loop, with the bytes the connection has accepted so far. */
  datatype Sending = Sending(pending: nat, outbound: seq<byte>, error: int,
                             events: seq<SendEvent>, status: Status)

  function SendStart(msg: seq<byte>, outbound: seq<byte>, error: int, events: seq<SendEvent>): Sending {
    Sending(|msg|, outbound, error, events, Running)
  }

  function SendLoop(msg: seq<byte>, s: Sending): (r: Sending)
    requires s.pending <= |msg|
    decreases |s.events|
  {
    if s.pending == 0 then
      s.(status := Returned(0))
    else if s.events == [] then
      s.(status := Hung)
    else
      match s.events[0]
      case Wrote(k) =>
        var n := Min(k, s.pending);
        var at := |msg| - s.pending;
        SendLoop(msg, s.(pending := s.pending - n, outbound := s.outbound + msg[at..at + n], events := s.events[1..]))
      case SendError(e) =>
        s.(error := e, events := s.events[1..], status := Returned(-1))
  }

  /** The number of calls in a schedule that accept at least one byte. */
  function SendProgress(events: seq<SendEvent>): nat {
    if events == [] then 0
    else (if events[0].Wrote? && events[0].count > 0 then 1 else 0) + SendProgress(events[1..])
  }

  ghost predicate NoSendError(events: seq<SendEvent>) {
    forall e :: e in events ==> e.Wrote?
  }

  /**
    On every schedule the loop writes a prefix of what was pending, and it returns 0 exactly when that
    prefix is everything.
   */
  lemma {:induction false} SendWritesPrefix(msg: seq<byte>, s: Sending)
    requires s.pending <= |msg|
    ensures var r := SendLoop(msg, s);
            && r.pending <= s.pending
            && r.outbound == s.outbound + msg[|msg| - s.pending..|msg| - r.pending]
            && (r.status == Returned(0) || r.status == Returned(-1) || r.status == Hung)
            && (r.status == Returned(0) <==> r.pending == 0)
            && (NoSendError(s.events) ==> r.status != Returned(-1) && NoSendError(r.events))
    decreases |s.events|
  {
    if s.pending != 0 && s.events != [] && s.events[0].Wrote? {
      var n := Min(s.events[0].count, s.pending);
      var at := |msg| - s.pending;
      var s' := s.(pending := s.pending - n, outbound := s.outbound + msg[at..at + n], events := s.events[1..]);
      SendWritesPrefix(msg, s');
      var r := SendLoop(msg, s');
      assert msg[at..at + n] + msg[at + n..|msg| - r.pending] == msg[at..|msg| - r.pending];
    } else if s.pending != 0 && s.events != [] {
      assert s.events[0] in s.events;
    }
  }

  /**
    Termination: whatever zero-byte results are mixed in, a schedule without errors that makes progress as
    often as there are pending bytes sends everything.  Each byte sent uses up at most one of those
    occasions.
   */
  lemma {:induction false} SendTerminates(msg: seq<byte>, s: Sending)
    requires s.pending <= |msg|
    ensures var r := SendLoop(msg, s);
            SendProgress(s.events) <= SendProgress(r.events) + s.pending - r.pending
            || r.status == Returned(-1)
    ensures NoSendError(s.events) && s.pending <= SendProgress(s.events)
            ==> SendLoop(msg, s).status == Returned(0)
    decreases |s.events|
  {
    if s.pending != 0 && s.events != [] && s.events[0].Wrote? {
      var n := Min(s.events[0].count, s.pending);
      var at := |msg| - s.pending;
      SendTerminates(msg,
                     s.(pending := s.pending - n, outbound := s.outbound + msg[at..at + n], events := s.events[1..]));
    } else if s.pending != 0 && s.events != [] {
      assert s.events[0] in s.events;
    }
  }

  // ------------------------------------------------------------------ receiving

  /** The variables of the receive loop, with the bytes the connection still holds. */
  datatype Receiving = Receiving(headerReceived: bool, pending: nat, size: nat, buf: seq<byte>,
                                 unread: seq<byte>, received: nat, error: int, events: seq<RecvEvent>, status: Status)
  {
    predicate WellFormed() {
      && 4 <= |buf|
      && pending <= size
      && size - pending <= |buf|
      && (!headerReceived ==> size == 4 && 0 < pending)
    }
  }

  function RecvStart(buf: seq<byte>, unread: seq<byte>, error: int, events: seq<RecvEvent>): Receiving {
    Receiving(false, 4, 4, buf, unread, 0, error, events, Running)
  }

  /** How many bytes a call asked for `pending` obtains. */
  function Obtained(count: nat, pending: nat, unread: seq<byte>): (n: nat)
    ensures n <= count && n <= pending && n <= |unread|
  {
    Min(count, Min(pending, |unread|))
  }

  /** The buffer has room for the n bytes of the next call. */
  predicate HasRoom(s: Receiving, n: nat) {
    s.size - s.pending + n <= |s.buf|
  }

  /** The bytes of one call are stored; the last header byte re-arms the loop for the body. */
  function Store(s: Receiving, n: nat): (r: Receiving)
    requires s.WellFormed() && n <= s.pending && n <= |s.unread| && HasRoom(s, n)
    ensures r.WellFormed() && r.status == s.status && r.events == s.events
  {
    var buf := Splice(s.buf, s.size - s.pending, s.unread[..n]);
    var t := s.(pending := s.pending - n, buf := buf, unread := s.unread[n..],
                received := s.received + n, error := n);
    if !s.headerReceived && t.pending == 0 then
      var stripped := buf[0 := buf[0] % 128];
      var len := WordAt(stripped, 0);
      t.(headerReceived := true, pending := len, size := len, buf := stripped)
    else
      t
  }

  function RecvLoop(s: Receiving): (r: Receiving)
    requires s.WellFormed() && s.status == Running
    ensures r.WellFormed() && |r.buf| == |s.buf|
    ensures r.status == Returned(0) ==> r.size <= |r.buf|
    decreases |s.events|
  {
    if s.pending == 0 then
      s.(status := Returned(0))
    else if s.events == [] then
      s.(status := Hung)
    else
      var s' := s.(events := s.events[1..]);
      match s.events[0]
      case TryAgain => RecvLoop(s'.(error := -1))
      case RecvError(e) => s'.(error := e, status := Returned(-1))
      case Delivered(k) =>
        var n := Obtained(k, s.pending, s.unread);
        if HasRoom(s, n) then RecvLoop(Store(s', n)) else s'.(status := Overrun)
  }

  lemma StoreCounts(s: Receiving, n: nat)
    requires s.WellFormed() && n <= s.pending && n <= |s.unread| && HasRoom(s, n)
    ensures Store(s, n).received == s.received + n && Store(s, n).error == n && Store(s, n).unread == s.unread[n..]
  {
  }

  /** One turn of the loop on a call that delivers bytes. */
  lemma LoopDelivers(s: Receiving, k: nat)
    requires s.WellFormed() && s.status == Running && s.pending != 0
    requires s.events != [] && s.events[0] == Delivered(k)
    ensures var s', n := s.(events := s.events[1..]), Obtained(k, s.pending, s.unread);
            && HasRoom(s', n) == HasRoom(s, n)
            && (!HasRoom(s, n) ==> RecvLoop(s) == s'.(status := Overrun))
            && (HasRoom(s, n) ==>
                  var t := Store(s', n);
                  && t.error == n && t.received == s.received + n && t.unread == s.unread[n..]
                  && RecvLoop(s) == RecvLoop(t))
  {
  }

  /** One turn of the loop in any other case. */
  lemma LoopEndsOrRetries(s: Receiving)
    requires s.WellFormed() && s.status == Running
    ensures s.pending == 0 ==> RecvLoop(s) == s.(status := Returned(0))
    ensures s.pending != 0 && s.events == [] ==> RecvLoop(s) == s.(status := Hung)
    ensures s.pending != 0 && s.events != [] && s.events[0].TryAgain? ==>
              RecvLoop(s) == RecvLoop(s.(events := s.events[1..], error := -1))
    ensures s.pending != 0 && s.events != [] && s.events[0].RecvError? ==>
              RecvLoop(s) == s.(events := s.events[1..], error := s.events[0].errno, status := Returned(-1))
  {
  }

  /** The caller's buffer once the header has been read and stripped. */
  ghost function AfterHeader(buf: seq<byte>, stream: seq<byte>): (r: seq<byte>)
    requires 4 <= |buf| && 4 <= |stream|
    ensures |r| == |buf|
  {
    Splice(buf, 0, U32(RecordLength(stream)))
  }

  /** The caller's buffer once the body has been read over the header. */
  ghost function AfterRecord(buf: seq<byte>, stream: seq<byte>): (r: seq<byte>)
    requires 4 <= |buf| && HoldsRecord(stream) && RecordLength(stream) <= |buf|
    ensures |r| == |buf|
    ensures r[..RecordLength(stream)] == stream[4..4 + RecordLength(stream)]
  {
    Splice(AfterHeader(buf, stream), 0, stream[4..4 + RecordLength(stream)])
  }

  /**
    The state of the loop is a function of how many bytes of the stream it has taken: this is what makes the
    result independent of the schedule.
   */
  ghost predicate Taken(buf: seq<byte>, stream: seq<byte>, s: Receiving) {
    && 4 <= |buf|
    && s.received <= |stream|
    && s.unread == stream[s.received..]
    && |s.buf| == |buf|
    && (!s.headerReceived ==>
          && s.size == 4
          && 0 < s.pending <= 4
          && s.received == 4 - s.pending
          && s.buf == Splice(buf, 0, stream[..s.received]))
    && (s.headerReceived ==>
          && 4 <= |stream|
          && s.size == RecordLength(stream)
          && s.pending <= s.size
          && s.received == 4 + s.size - s.pending
          && s.received - 4 <= |buf|
          && s.buf == Splice(AfterHeader(buf, stream), 0, stream[4..s.received]))
  }

  /** Appending the next bytes of the stream to the part of the buffer already filled. */
  lemma SpliceExtends(base: seq<byte>, src: seq<byte>, k: nat, n: nat)
    requires k + n <= |base| && k + n <= |src|
    ensures Splice(Splice(base, 0, src[..k]), k, src[k..k + n]) == Splice(base, 0, src[..k + n])
  {
  }

  lemma StoreBody(buf: seq<byte>, stream: seq<byte>, s: Receiving, n: nat)
    requires s.WellFormed() && s.status == Running && s.headerReceived
    requires n <= s.pending && n <= |s.unread| && HasRoom(s, n)
    requires Taken(buf, stream, s)
    ensures Taken(buf, stream, Store(s, n))
  {
    var c, body := s.received, stream[4..];
    assert s.unread[..n] == body[c - 4..c - 4 + n];
    assert stream[4..c] == body[..c - 4];
    assert stream[4..c + n] == body[..c - 4 + n];
    SpliceExtends(AfterHeader(buf, stream), body, c - 4, n);
    assert s.unread[n..] == stream[c + n..];
  }

  lemma StoreHeaderPart(buf: seq<byte>, stream: seq<byte>, s: Receiving, n: nat)
    requires s.WellFormed() && s.status == Running && !s.headerReceived
    requires n < s.pending && n <= |s.unread| && HasRoom(s, n)
    requires Taken(buf, stream, s)
    ensures Taken(buf, stream, Store(s, n))
  {
    hide WordAt, RecordLength, U32, AfterHeader;
    var c := s.received;
    assert s.unread[..n] == stream[c..c + n];
    SpliceExtends(buf, stream, c, n);
    assert s.unread[n..] == stream[c + n..];
    hide Splice;
  }

  lemma StoreHeaderEnd(buf: seq<byte>, stream: seq<byte>, s: Receiving)
    requires s.WellFormed() && s.status == Running && !s.headerReceived
    requires s.pending <= |s.unread|
    requires Taken(buf, stream, s)
    ensures Taken(buf, stream, Store(s, s.pending))
  {
    var c, n := s.received, s.pending;
    assert s.unread[..n] == stream[c..4];
    SpliceExtends(buf, stream, c, n);
    HeaderStripped(Splice(buf, 0, stream[..4]), stream, buf);
    assert s.unread[n..] == stream[4..];
    assert stream[4..4] == [];
  }

  lemma StoreKeepsTaken(buf: seq<byte>, stream: seq<byte>, s: Receiving, n: nat)
    requires s.WellFormed() && s.status == Running
    requires n <= s.pending && n <= |s.unread| && HasRoom(s, n)
    requires Taken(buf, stream, s)
    ensures Taken(buf, stream, Store(s, n))
    ensures Store(s, n).received == s.received + n
  {
    if s.headerReceived {
      StoreBody(buf, stream, s, n);
    } else if n < s.pending {
      StoreHeaderPart(buf, stream, s, n);
    } else {
      StoreHeaderEnd(buf, stream, s);
    }
  }

  lemma HeaderStripped(filled: seq<byte>, stream: seq<byte>, buf: seq<byte>)
    requires 4 <= |stream| && 4 <= |buf|
    requires filled == Splice(buf, 0, stream[..4])
    ensures filled[0 := filled[0] % 128] == AfterHeader(buf, stream)
    ensures WordAt(filled[0 := filled[0] % 128], 0) == RecordLength(stream)
    ensures AfterHeader(buf, stream) == Splice(AfterHeader(buf, stream), 0, [])
  {
    LastFragmentBit(WordAt(stream, 0));
    BytesOfWord(stream, 0);
    var stripped := filled[0 := filled[0] % 128];
    assert stripped[0..4] == stream[0..4][0 := stream[0] % 128] == U32(RecordLength(stream));
    assert stripped == stripped[0..4] + buf[4..];
  }

  lemma {:induction false} LoopKeepsTaken(buf: seq<byte>, stream: seq<byte>, s: Receiving)
    requires s.WellFormed() && s.status == Running
    requires Taken(buf, stream, s)
    ensures Taken(buf, stream, RecvLoop(s))
    decreases |s.events|
  {
    hide Store;
    if s.pending != 0 && s.events != [] {
      var s' := s.(events := s.events[1..]);
      match s.events[0]
      case TryAgain =>
        LoopKeepsTaken(buf, stream, s'.(error := -1));
      case RecvError(e) =>
      case Delivered(k) =>
        var n := Obtained(k, s.pending, s.unread);
        if HasRoom(s, n) {
          StoreKeepsTaken(buf, stream, s', n);
          LoopKeepsTaken(buf, stream, Store(s', n));
        }
    }
  }

  lemma {:induction false} LoopEnds(s: Receiving)
    requires s.WellFormed() && s.status == Running
    ensures var r := RecvLoop(s);
            && (r.status == Returned(0) || r.status == Returned(-1) || r.status == Hung || r.status == Overrun)
            && (r.status == Returned(0) ==> r.pending == 0 && r.headerReceived)
            && (r.status == Returned(-1) || r.status == Hung || r.status == Overrun ==> r.pending > 0)
            && (r.status == Overrun ==>
                  r.headerReceived && r.size > |r.buf| && r.size - r.pending + |r.unread| > |r.buf|)
    decreases |s.events|
  {
    if s.pending != 0 && s.events != [] {
      var s' := s.(events := s.events[1..]);
      match s.events[0]
      case TryAgain => LoopEnds(s'.(error := -1));
      case RecvError(e) =>
      case Delivered(k) =>
        var n := Obtained(k, s.pending, s.unread);
        if HasRoom(s, n) {
          LoopEnds(Store(s', n));
        }
    }
  }

  /**
    The refinement: a receive that returns 0 has split off the first record, whatever the read sizes; and a
    receive that ends in any other way has still taken exactly the bytes it has counted.
   */
  lemma ReceiveSplitsRecord(buf: seq<byte>, stream: seq<byte>, error: int, events: seq<RecvEvent>)
    requires 4 <= |buf|
    ensures var r := RecvLoop(RecvStart(buf, stream, error, events));
            && r.received <= |stream|
            && r.unread == stream[r.received..]
            && |r.buf| == |buf|
            && (r.status == Returned(0) || r.status == Returned(-1) || r.status == Hung || r.status == Overrun)
            && (r.status == Overrun ==> RunsOver(stream, |buf|))
            && (r.status == Returned(0) ==>
                  && HoldsRecord(stream)
                  && RecordLength(stream) <= |buf|
                  && r.size == RecordLength(stream)
                  && r.received == 4 + r.size
                  && r.buf == AfterRecord(buf, stream))
            && (r.status == Returned(-1) || r.status == Hung || r.status == Overrun ==>
                  4 <= |stream| ==> r.received < 4 + RecordLength(stream))
  {
    var s := RecvStart(buf, stream, error, events);
    assert Splice(buf, 0, stream[..0]) == buf;
    LoopKeepsTaken(buf, stream, s);
    LoopEnds(s);
  }

  /** Two receives of the same stream that both return 0 agree on everything but the schedule. */
  lemma ScheduleDoesNotMatter(buf: seq<byte>, stream: seq<byte>, events: seq<RecvEvent>, events': seq<RecvEvent>)
    requires 4 <= |buf|
    ensures var r := RecvLoop(RecvStart(buf, stream, 0, events));
            var r' := RecvLoop(RecvStart(buf, stream, 0, events'));
            r.status == Returned(0) && r'.status == Returned(0) ==>
              r.buf == r'.buf && r.size == r'.size && r.received == r'.received && r.unread == r'.unread
  {
    ReceiveSplitsRecord(buf, stream, 0, events);
    ReceiveSplitsRecord(buf, stream, 0, events');
  }

  /** The number of calls in a schedule that hand over at least one byte when one is there. */
  function RecvProgress(events: seq<RecvEvent>): nat {
    if events == [] then 0
    else (if events[0].Delivered? && events[0].count > 0 then 1 else 0) + RecvProgress(events[1..])
  }

  ghost predicate NoRecvError(events: seq<RecvEvent>) {
    forall e :: e in events ==> !e.RecvError?
  }

  /**
    While the record is incomplete, or more of it is there than fits, every byte-bearing call takes at least
    one byte, so a loop that does not overrun uses up no more of those calls than it takes bytes.
   */
  lemma {:induction false} LoopUsesProgress(buf: seq<byte>, stream: seq<byte>, s: Receiving)
    requires s.WellFormed() && s.status == Running
    requires Taken(buf, stream, s)
    requires HoldsFitting(stream, |buf|) || RunsOver(stream, |buf|)
    requires NoRecvError(s.events)
    ensures RecvLoop(s).status == Overrun
            || RecvProgress(s.events) <= RecvProgress(RecvLoop(s).events) + RecvLoop(s).received - s.received
    decreases |s.events|
  {
    hide Store, RecordLength;
    if s.pending != 0 && s.events != [] {
      assert s.events[0] in s.events;
      assert forall e :: e in s.events[1..] ==> e in s.events;
      var s' := s.(events := s.events[1..]);
      match s.events[0]
      case TryAgain =>
        LoopUsesProgress(buf, stream, s'.(error := -1));
      case Delivered(k) =>
        var n := Obtained(k, s.pending, s.unread);
        assert s.received < |stream|;
        assert k > 0 ==> n > 0;
        if HasRoom(s, n) {
          StoreKeepsTaken(buf, stream, s', n);
          LoopUsesProgress(buf, stream, Store(s', n));
        }
    }
  }

  lemma {:induction false} HungUsesAllEvents(s: Receiving)
    requires s.WellFormed() && s.status == Running
    ensures RecvLoop(s).status == Hung ==> RecvLoop(s).events == []
    decreases |s.events|
  {
    if s.pending != 0 && s.events != [] {
      var s' := s.(events := s.events[1..]);
      match s.events[0]
      case TryAgain => HungUsesAllEvents(s'.(error := -1));
      case RecvError(e) =>
      case Delivered(k) =>
        var n := Obtained(k, s.pending, s.unread);
        if HasRoom(s, n) {
          HungUsesAllEvents(Store(s', n));
        }
    }
  }

  /**
    How a receive ends on a schedule without errors, whatever number of EAGAIN and zero-byte results it has:
    with progress as often as the record has bytes it returns 0 exactly when the record is complete and
    fits; with progress more often than the buffer has bytes it overruns exactly when more of a longer
    record is there than fits; otherwise, as when the peer has closed the connection inside a record, it
    never returns.
   */
  lemma ReceiveTerminates(buf: seq<byte>, stream: seq<byte>, error: int, events: seq<RecvEvent>)
    requires 4 <= |buf|
    requires NoRecvError(events)
    ensures var r := RecvLoop(RecvStart(buf, stream, error, events));
            && (r.status == Returned(0) || r.status == Hung || r.status == Overrun)
            && (r.status == Returned(0) ==> HoldsFitting(stream, |buf|))
            && (r.status == Overrun ==> RunsOver(stream, |buf|))
            && (HoldsFitting(stream, |buf|) ==>
                  && (4 + RecordLength(stream) <= RecvProgress(events) ==> r.status == Returned(0))
                  && NoRecvError(r.events)
                  && RecvProgress(events) <= RecvProgress(r.events) + r.received)
            && (RunsOver(stream, |buf|) && 4 + |buf| < RecvProgress(events) ==> r.status == Overrun)
            && (!HoldsFitting(stream, |buf|) && !RunsOver(stream, |buf|) ==> r.status == Hung)
  {
    var s := RecvStart(buf, stream, error, events);
    assert Splice(buf, 0, stream[..0]) == buf;
    ReceiveSplitsRecord(buf, stream, error, events);
    NoErrorNoFailure(s);
    if HoldsFitting(stream, |buf|) || RunsOver(stream, |buf|) {
      LoopUsesProgress(buf, stream, s);
      HungUsesAllEvents(s);
      LoopKeepsTaken(buf, stream, s);
    }
  }

  /**
    The overrun, exactly: `receive` trusts the announced length, so on every schedule without errors and
    with enough progress bytes are stored behind the buffer if and only if a longer record is announced and
    more of it is there than fits.
   */
  lemma OverrunExact(buf: seq<byte>, stream: seq<byte>, error: int, events: seq<RecvEvent>)
    requires 4 <= |buf| && NoRecvError(events) && 4 + |buf| < RecvProgress(events)
    ensures RecvLoop(RecvStart(buf, stream, error, events)).status == Overrun
            <==> 4 <= |stream| && RecordLength(stream) > |buf| && |stream| > 4 + |buf|
  {
    ReceiveTerminates(buf, stream, error, events);
  }

  lemma {:induction false} NoErrorNoFailure(s: Receiving)
    requires s.WellFormed() && s.status == Running
    requires NoRecvError(s.events)
    ensures RecvLoop(s).status != Returned(-1)
    ensures NoRecvError(RecvLoop(s).events)
    decreases |s.events|
  {
    if s.pending != 0 && s.events != [] {
      assert s.events[0] in s.events;
      assert forall e :: e in s.events[1..] ==> e in s.events;
      var s' := s.(events := s.events[1..]);
      match s.events[0]
      case TryAgain => NoErrorNoFailure(s'.(error := -1));
      case Delivered(k) =>
        var n := Obtained(k, s.pending, s.unread);
        if HasRoom(s, n) {
          NoErrorNoFailure(Store(s', n));
        }
    }
  }

  // ------------------------------------------------------------------ many messages

  datatype Outbox = Outbox(outbound: seq<byte>, completed: nat, events: seq<SendEvent>)

  /** Messages sent back to back until one send does not return 0. */
  function SendAll(msgs: seq<seq<byte>>, outbound: seq<byte>, events: seq<SendEvent>): Outbox
    decreases |msgs|
  {
    if msgs == [] then Outbox(outbound, 0, events)
    else
      var r := SendLoop(msgs[0], SendStart(msgs[0], outbound, 0, events));
      if r.status == Returned(0) then
        var rest := SendAll(msgs[1..], r.outbound, r.events);
        rest.(completed := rest.completed + 1)
      else Outbox(r.outbound, 0, r.events)
  }

  datatype Inbox = Inbox(bodies: seq<seq<byte>>, unread: seq<byte>, events: seq<RecvEvent>)

  /** At most k records received one after the other into one buffer. */
  function ReceiveAll(k: nat, unread: seq<byte>, buf: seq<byte>, events: seq<RecvEvent>): Inbox
    requires 4 <= |buf|
  {
    if k == 0 then Inbox([], unread, events)
    else
      var r := RecvLoop(RecvStart(buf, unread, 0, events));
      if r.status == Returned(0) then
        var rest := ReceiveAll(k - 1, r.unread, r.buf, r.events);
        rest.(bodies := [r.buf[..r.size]] + rest.bodies)
      else Inbox([], r.unread, r.events)
  }

  lemma {:induction false} SendAllWritesPrefix(msgs: seq<seq<byte>>, outbound: seq<byte>, events: seq<SendEvent>)
    ensures var r := SendAll(msgs, outbound, events);
            && r.completed <= |msgs|
            && |outbound| <= |r.outbound| <= |outbound| + |Flatten(msgs)|
            && r.outbound == outbound + Flatten(msgs)[..|r.outbound| - |outbound|]
            && (r.completed == |msgs| ==> r.outbound == outbound + Flatten(msgs))
    decreases |msgs|
  {
    hide SendLoop;
    if msgs != [] {
      var s := SendStart(msgs[0], outbound, 0, events);
      SendWritesPrefix(msgs[0], s);
      var r := SendLoop(msgs[0], s);
      var rest := Flatten(msgs[1..]);
      if r.status == Returned(0) {
        SendAllWritesPrefix(msgs[1..], r.outbound, r.events);
        var q := SendAll(msgs[1..], r.outbound, r.events);
        var k := |q.outbound| - |r.outbound|;
        assert (msgs[0] + rest)[..|msgs[0]| + k] == msgs[0] + rest[..k];
      } else {
        var k := |msgs[0]| - r.pending;
        assert (msgs[0] + rest)[..k] == msgs[0][0..k];
      }
    }
  }

  lemma RecordsHeadTail(msgs: seq<seq<byte>>)
    requires msgs != [] && AllRecordable(msgs)
    ensures AllRecordable(msgs[1..])
    ensures Records(msgs) == [Record(msgs[0])] + Records(msgs[1..])
    ensures Flatten(Records(msgs)) == Record(msgs[0]) + Flatten(Records(msgs[1..]))
  {
    var rs := Records(msgs);
    assert rs == [Record(msgs[0])] + Records(msgs[1..]);
    assert rs[1..] == Records(msgs[1..]);
  }

  /** A stream that is cut off somewhere still starts with the record it shows the header of. */
  lemma CutStream(stream: seq<byte>, body: seq<byte>, rest: seq<byte>)
    requires |body| < 0x8000_0000
    requires stream <= Record(body) + rest
    requires 4 <= |stream|
    ensures RecordLength(stream) == |body|
    ensures 4 + |body| <= |stream| ==>
              && stream[4..4 + |body|] == body
              && stream[4 + |body|..] <= rest
  {
    RecordLengthOfRecord(body, rest);
    var whole := Record(body) + rest;
    assert stream[0..4] == whole[0..4];
    if 4 + |body| <= |stream| {
      assert stream[4..4 + |body|] == whole[4..4 + |body|];
      assert stream[4 + |body|..] == whole[4 + |body|..|stream|];
      assert whole[4 + |body|..|stream|] == rest[..|stream| - 4 - |body|];
    }
  }

  /** One successful receive on a cut stream of records gives the first body and leaves the rest. */
  lemma ReceiveOneOfMany(stream: seq<byte>, msgs: seq<seq<byte>>, buf: seq<byte>, events: seq<RecvEvent>)
    requires 4 <= |buf|
    requires AllRecordable(msgs)
    requires stream <= Flatten(Records(msgs))
    ensures var r := RecvLoop(RecvStart(buf, stream, 0, events));
            r.status == Returned(0) ==>
              && msgs != []
              && r.size <= |r.buf| == |buf|
              && r.buf[..r.size] == msgs[0]
              && AllRecordable(msgs[1..])
              && r.unread <= Flatten(Records(msgs[1..]))
              && |stream| - |r.unread| == 4 + |msgs[0]|
  {
    ReceiveSplitsRecord(buf, stream, 0, events);
    if msgs == [] {
      assert Records(msgs) == [];
    } else {
      RecordsHeadTail(msgs);
      if 4 <= |stream| {
        CutStream(stream, msgs[0], Flatten(Records(msgs[1..])));
      }
    }
  }

  lemma PrefixCons<T>(tail: seq<T>, whole: seq<T>)
    requires whole != [] && tail <= whole[1..]
    ensures [whole[0]] + tail <= whole
  {
    assert whole == [whole[0]] + whole[1..];
  }

  /** Receiving from any prefix of a sequence of records yields those records, in order. */
  lemma {:induction false} ReceiveAllFromPrefix(k: nat, stream: seq<byte>, msgs: seq<seq<byte>>,
                                                buf: seq<byte>, events: seq<RecvEvent>)
    requires 4 <= |buf|
    requires AllRecordable(msgs)
    requires stream <= Flatten(Records(msgs))
    ensures ReceiveAll(k, stream, buf, events).bodies <= msgs
    decreases k
  {
    hide RecvLoop, AllRecordable, Flatten, Records;
    if k != 0 {
      var r := RecvLoop(RecvStart(buf, stream, 0, events));
      ReceiveOneOfMany(stream, msgs, buf, events);
      if r.status == Returned(0) {
        var rest := ReceiveAll(k - 1, r.unread, r.buf, r.events);
        ReceiveAllFromPrefix(k - 1, r.unread, msgs[1..], r.buf, r.events);
        PrefixCons(rest.bodies, msgs);
      }
    }
  }

  /** A receive on a complete stream of records with enough progress takes exactly the first. */
  lemma FirstOfComplete(stream: seq<byte>, msgs: seq<seq<byte>>, buf: seq<byte>, events: seq<RecvEvent>)
    requires 4 <= |buf| && msgs != []
    requires AllRecordable(msgs) && AllFit(msgs, |buf|)
    requires stream == Flatten(Records(msgs))
    requires NoRecvError(events) && |stream| <= RecvProgress(events)
    ensures var r := RecvLoop(RecvStart(buf, stream, 0, events));
            && r.status == Returned(0)
            && AllRecordable(msgs[1..])
            && r.unread == Flatten(Records(msgs[1..]))
            && NoRecvError(r.events) && |r.unread| <= RecvProgress(r.events)
  {
    RecordsHeadTail(msgs);
    RecordLengthOfRecord(msgs[0], Flatten(Records(msgs[1..])));
    ReceiveTerminates(buf, stream, 0, events);
    ReceiveSplitsRecord(buf, stream, 0, events);
  }

  /** With enough progress every record of a complete stream is received and nothing is left. */
  lemma {:induction false} ReceiveAllCompletes(stream: seq<byte>, msgs: seq<seq<byte>>,
                                               buf: seq<byte>, events: seq<RecvEvent>)
    requires 4 <= |buf|
    requires AllRecordable(msgs) && AllFit(msgs, |buf|)
    requires stream == Flatten(Records(msgs))
    requires NoRecvError(events) && |stream| <= RecvProgress(events)
    ensures |ReceiveAll(|msgs|, stream, buf, events).bodies| == |msgs|
    ensures ReceiveAll(|msgs|, stream, buf, events).unread == []
    decreases |msgs|
  {
    if msgs == [] {
      assert Records(msgs) == [];
    } else {
      FirstOfComplete(stream, msgs, buf, events);
      var r := RecvLoop(RecvStart(buf, stream, 0, events));
      assert AllFit(msgs[1..], |r.buf|);
      ReceiveAllCompletes(r.unread, msgs[1..], r.buf, r.events);
    }
  }

  // ------------------------------------------------------------------ errors

  /** The code of the first error of a schedule. */
  function FirstSendError(events: seq<SendEvent>): Option<int> {
    if events == [] then None
    else if events[0].SendError? then Some(events[0].errno)
    else FirstSendError(events[1..])
  }

  function FirstRecvError(events: seq<RecvEvent>): Option<int> {
    if events == [] then None
    else if events[0].RecvError? then Some(events[0].errno)
    else FirstRecvError(events[1..])
  }

  /** A send that fails leaves the code of its schedule's first error, any other leaves the code that was there. */
  lemma {:induction false} SendReportsError(msg: seq<byte>, s: Sending)
    requires s.pending <= |msg|
    ensures var r := SendLoop(msg, s);
            if r.status == Returned(-1) then FirstSendError(s.events) == Some(r.error) else r.error == s.error
    decreases |s.events|
  {
    if s.pending != 0 && s.events != [] && s.events[0].Wrote? {
      var n, at := Min(s.events[0].count, s.pending), |msg| - s.pending;
      SendReportsError(msg, s.(pending := s.pending - n, outbound := s.outbound + msg[at..at + n],
                               events := s.events[1..]));
    }
  }

  /** A receive that fails leaves the code of its schedule's first error. */
  lemma {:induction false} ReceiveReportsError(s: Receiving)
    requires s.WellFormed() && s.status == Running
    ensures RecvLoop(s).status == Returned(-1) ==> FirstRecvError(s.events) == Some(RecvLoop(s).error)
    decreases |s.events|
  {
    hide Store;
    if s.pending != 0 && s.events != [] {
      var s' := s.(events := s.events[1..]);
      match s.events[0]
      case TryAgain => ReceiveReportsError(s'.(error := -1));
      case RecvError(e) =>
      case Delivered(k) =>
        var n := Obtained(k, s.pending, s.unread);
        if HasRoom(s, n) {
          ReceiveReportsError(Store(s', n));
        }
    }
  }

  // ------------------------------------------------------------------ all of the messages

  /** With enough progress every message is sent. */
  lemma {:induction false} SendAllCompletes(msgs: seq<seq<byte>>, outbound: seq<byte>, events: seq<SendEvent>)
    requires NoSendError(events) && |Flatten(msgs)| <= SendProgress(events)
    ensures SendAll(msgs, outbound, events).completed == |msgs|
    decreases |msgs|
  {
    hide SendLoop;
    if msgs != [] {
      var s := SendStart(msgs[0], outbound, 0, events);
      SendWritesPrefix(msgs[0], s);
      SendTerminates(msgs[0], s);
      var r := SendLoop(msgs[0], s);
      SendAllCompletes(msgs[1..], r.outbound, r.events);
    }
  }

  /**
    In-order delivery.  Whatever way the sending side cuts the bytes and even if it stops half-way, and
    whatever way the receiving side cuts them, the bodies received are the first of the messages sent, in
    order and unaltered; with enough progress on both sides all that fit the receiver's buffer are received,
    and the stream is empty behind the last one.
   */
  lemma InOrderDelivery(msgs: seq<seq<byte>>, k: nat, buf: seq<byte>,
                        sends: seq<SendEvent>, receives: seq<RecvEvent>)
    requires 4 <= |buf|
    requires AllRecordable(msgs)
    ensures var size := |Flatten(Records(msgs))|;
            var sent := SendAll(Records(msgs), [], sends);
            var got := ReceiveAll(k, sent.outbound, buf, receives);
            && got.bodies <= msgs
            && (NoSendError(sends) && size <= SendProgress(sends)
                && NoRecvError(receives) && size <= RecvProgress(receives)
                && AllFit(msgs, |buf|) && k == |msgs|
                ==> got.bodies == msgs && got.unread == [])
  {
    var sent := SendAll(Records(msgs), [], sends);
    SendAllWritesPrefix(Records(msgs), [], sends);
    ReceiveAllFromPrefix(k, sent.outbound, msgs, buf, receives);
    var size := |Flatten(Records(msgs))|;
    if NoSendError(sends) && size <= SendProgress(sends) && NoRecvError(receives) && size <= RecvProgress(receives)
       && AllFit(msgs, |buf|) && k == |msgs| {
      SendAllCompletes(Records(msgs), [], sends);
      ReceiveAllCompletes(sent.outbound, msgs, buf, receives);
    }
  }

  // ------------------------------------------------------------------ records of several fragments

  /** A record as section 11 of RFC 5531 lets a peer send it: fragments, of which the last is marked. */
  ghost function Fragments(fs: seq<seq<byte>>): seq<byte>
    requires AllRecordable(fs)
  {
    if fs == [] then []
    else if |fs| == 1 then Record(fs[0])
    else U32(|fs[0]|) + fs[0] + Fragments(fs[1..])
  }

  /** A fragment without the last-fragment bit in front of a stream. */
  lemma UnmarkedInFront(f: seq<byte>, rest: seq<byte>)
    requires |f| < 0x8000_0000
    ensures var s := U32(|f|) + f + rest;
            HoldsRecord(s) && RecordLength(s) == |f| && s[4..4 + |f|] == f && s[4 + |f|..] == rest
  {
    hide U32;
    var n := U32(|f|);
    var s := n + f + rest;
    assert s[0..4] == n;
    HoldsWord(s, 0, |f|);
  }

  lemma FirstFragment(fs: seq<seq<byte>>, rest: seq<byte>)
    requires fs != [] && AllRecordable(fs)
    ensures AllRecordable(fs[1..])
    ensures var s := Fragments(fs) + rest;
            && HoldsRecord(s) && RecordLength(s) == |fs[0]|
            && s[4..4 + |fs[0]|] == fs[0]
            && s[4 + |fs[0]|..] == Fragments(fs[1..]) + rest
  {
    hide U32, RecordLength, WordAt;
    var f, tail := fs[0], Fragments(fs[1..]);
    if |fs| == 1 {
      RecordLengthOfRecord(f, rest);
      assert tail + rest == rest;
    } else {
      Assoc(U32(|f|) + f, tail, rest);
      UnmarkedInFront(f, tail + rest);
    }
  }

  lemma {:induction false} FragmentsLength(fs: seq<seq<byte>>)
    requires AllRecordable(fs)
    ensures |Fragments(fs)| == 4 * |fs| + |Flatten(fs)|
    decreases |fs|
  {
    if |fs| == 1 {
      assert fs[1..] == [];
    } else if fs != [] {
      FragmentsLength(fs[1..]);
    }
  }

  /**
    Fragments are not put together: a completed receive delivers the first one.  It is the whole record
    exactly when the other fragments are empty, and the stream is left behind the record exactly when there
    is no other fragment.
   */
  lemma FragmentsExact(fs: seq<seq<byte>>, rest: seq<byte>, buf: seq<byte>, error: int, events: seq<RecvEvent>)
    requires fs != [] && AllRecordable(fs) && 4 <= |buf|
    ensures var r := RecvLoop(RecvStart(buf, Fragments(fs) + rest, error, events));
            r.status == Returned(0) ==>
              && r.buf[..r.size] == fs[0]
              && (r.buf[..r.size] == Flatten(fs) <==> Flatten(fs[1..]) == [])
              && (r.unread == rest <==> |fs| == 1)
  {
    var first, others := fs[0], Flatten(fs[1..]);
    assert Flatten(fs) == first + others && |first + others| == |first| + |others|;
    assert first + others == first <==> others == [];
    FirstFragment(fs, rest);
    FragmentsLength(fs[1..]);
    if |fs| == 1 {
      assert Fragments(fs[1..]) + rest == rest;
    }
    hide U32, WordAt, RecordLength, RecvLoop, Flatten, Fragments;
    ReceiveSplitsRecord(buf, Fragments(fs) + rest, error, events);
  }
}
