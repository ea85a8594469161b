/**
  Frames sent and received on one connection by callers that do not look at the results of `send` and
  `receive`: the next frame goes behind whatever a failed send has written, and the next receive starts
  wherever a failed one has stopped.
 */
module Framing {
  import opened Bytes
  import opened RecordStream

  /** A body to be sent as a record, and the schedule of its send. */
  datatype Post = Post(body: seq<byte>, events: seq<SendEvent>)

  /** What the peer has, the bodies of the sends that returned 0, and the bytes that the others have written. */
  datatype Posted = Posted(outbound: seq<byte>, completed: seq<seq<byte>>, lost: nat)

  ghost predicate Postable(posts: seq<Post>) {
    forall i :: 0 <= i < |posts| ==> |posts[i].body| < 0x8000_0000
  }

  /** Every frame is sent, whatever became of the ones before; a send that does not return is the last. */
  ghost function SendEach(posts: seq<Post>, outbound: seq<byte>): (p: Posted)
    requires Postable(posts)
    ensures AllRecordable(p.completed)
    decreases |posts|
  {
    if posts == [] then Posted(outbound, [], 0)
    else
      var body, frame := posts[0].body, Record(posts[0].body);
      var r := SendLoop(frame, SendStart(frame, outbound, 0, posts[0].events));
      var written := if r.pending <= |frame| then |frame| - r.pending else 0;
      if r.status == Hung then Posted(r.outbound, [], written)
      else
        var rest := SendEach(posts[1..], r.outbound);
        if r.status == Returned(0) then rest.(completed := [body] + rest.completed)
        else rest.(lost := rest.lost + written)
  }

  lemma RecordsCons(body: seq<byte>, bodies: seq<seq<byte>>)
    requires |body| < 0x8000_0000 && AllRecordable(bodies)
    ensures AllRecordable([body] + bodies)
    ensures Flatten(Records([body] + bodies)) == Record(body) + Flatten(Records(bodies))
  {
    var all := [body] + bodies;
    assert all[1..] == bodies;
    RecordsHeadTail(all);
  }

  /**
    All bytes written belong to a completed frame or are lost; without lost bytes the frames stand there one
    by one.
   */
  lemma {:induction false} PostsWritten(posts: seq<Post>, outbound: seq<byte>)
    requires Postable(posts)
    ensures var p := SendEach(posts, outbound);
            && |p.outbound| == |outbound| + |Flatten(Records(p.completed))| + p.lost
            && (p.lost == 0 ==> p.outbound == outbound + Flatten(Records(p.completed)))
    decreases |posts|
  {
    hide Record, SendLoop;
    if posts == [] {
      assert Records([]) == [];
      assert outbound + [] == outbound;
    } else {
      var frame := Record(posts[0].body);
      var s := SendStart(frame, outbound, 0, posts[0].events);
      SendWritesPrefix(frame, s);
      var r := SendLoop(frame, s);
      if r.status == Hung {
        assert Records([]) == [];
        assert r.pending == |frame| ==> frame[0..0] == [];
      } else {
        PostsWritten(posts[1..], r.outbound);
        var rest := SendEach(posts[1..], r.outbound);
        if r.status == Returned(0) {
          RecordsCons(posts[0].body, rest.completed);
          assert frame[0..|frame|] == frame;
          Assoc(outbound, frame, Flatten(Records(rest.completed)));
        } else if r.pending == |frame| {
          assert frame[0..0] == [];
        }
      }
    }
  }

  // ------------------------------------------------------------------ when the framing survives

  /** The bytes a schedule accepts before its first error. */
  function Accepts(events: seq<SendEvent>): nat {
    if events == [] || events[0].SendError? then 0 else events[0].count + Accepts(events[1..])
  }

  lemma {:induction false} SendWritesAccepted(msg: seq<byte>, s: Sending)
    requires s.pending <= |msg|
    ensures var r := SendLoop(msg, s);
            && s.pending - r.pending == Min(s.pending, Accepts(s.events))
            && (r.status == Hung <==> Accepts(s.events) < s.pending && NoSendError(s.events))
    decreases |s.events|
  {
    if s.pending != 0 && s.events != [] {
      assert s.events[0] in s.events;
      assert forall e :: e in s.events <==> e == s.events[0] || e in s.events[1..];
      if s.events[0].Wrote? {
        var n, at := Min(s.events[0].count, s.pending), |msg| - s.pending;
        SendWritesAccepted(msg, s.(pending := s.pending - n, outbound := s.outbound + msg[at..at + n],
                                   events := s.events[1..]));
      }
    }
  }

  /** Every send, up to the first that does not return, is let through as a whole or fails before its first byte. */
  ghost predicate AllOrNothing(posts: seq<Post>)
    decreases |posts|
  {
    posts == [] ||
    var size, accepted := 4 + |posts[0].body|, Accepts(posts[0].events);
    && (accepted == 0 || size <= accepted)
    && ((accepted < size && NoSendError(posts[0].events)) || AllOrNothing(posts[1..]))
  }

  lemma {:induction false} LostBySchedule(posts: seq<Post>, outbound: seq<byte>)
    requires Postable(posts)
    ensures SendEach(posts, outbound).lost == 0 <==> AllOrNothing(posts)
    decreases |posts|
  {
    hide SendLoop, NoSendError, Accepts;
    if posts != [] {
      var frame := Record(posts[0].body);
      var s := SendStart(frame, outbound, 0, posts[0].events);
      SendWritesPrefix(frame, s);
      SendWritesAccepted(frame, s);
      LostBySchedule(posts[1..], SendLoop(frame, s).outbound);
    }
  }

  /**
    The peer has exactly the completed frames, one behind the other, exactly when every schedule lets its
    frame through as a whole or fails before the first byte.
   */
  lemma FramingSurvives(posts: seq<Post>, outbound: seq<byte>)
    requires Postable(posts)
    ensures var p := SendEach(posts, outbound);
            p.outbound == outbound + Flatten(Records(p.completed)) <==> AllOrNothing(posts)
  {
    PostsWritten(posts, outbound);
    LostBySchedule(posts, outbound);
  }

  /** So a peer that keeps reading receives the bodies of the completed sends, and nothing else. */
  lemma CompletedReceived(posts: seq<Post>, buf: seq<byte>, receives: seq<RecvEvent>)
    requires Postable(posts) && 4 <= |buf|
    ensures var p := SendEach(posts, []);
            AllOrNothing(posts) && AllFit(p.completed, |buf|) && NoRecvError(receives)
            && |p.outbound| <= RecvProgress(receives) ==>
              && ReceiveAll(|p.completed|, p.outbound, buf, receives).bodies == p.completed
              && ReceiveAll(|p.completed|, p.outbound, buf, receives).unread == []
  {
    hide SendEach, ReceiveAll, Flatten, AllOrNothing;
    var p := SendEach(posts, []);
    PostsWritten(posts, []);
    LostBySchedule(posts, []);
    if AllOrNothing(posts) && AllFit(p.completed, |buf|) && NoRecvError(receives)
       && |p.outbound| <= RecvProgress(receives) {
      assert p.outbound == Flatten(Records(p.completed));
      ReceiveAllFromPrefix(|p.completed|, p.outbound, p.completed, buf, receives);
      ReceiveAllCompletes(p.outbound, p.completed, buf, receives);
    }
  }

  /**
    After a send that fails behind the header, the peer completes the broken record with the front of the
    next frame: header, xid and all.  If that is too short, it does not receive anything.
   */
  lemma BrokenFrameSwallowsNext(body: seq<byte>, k: nat, next: seq<byte>, buf: seq<byte>, error: int,
                                events: seq<RecvEvent>)
    requires |body| < 0x8000_0000 && |next| < 0x8000_0000 && 4 <= |buf|
    requires 4 <= k < |Record(body)|
    ensures var r := RecvLoop(RecvStart(buf, Record(body)[..k] + Record(next), error, events));
            r.status == Returned(0) ==>
              && |Record(body)| - k <= |Record(next)|
              && r.buf[..r.size] == body[..k - 4] + Record(next)[..|Record(body)| - k]
              && r.unread == Record(next)[|Record(body)| - k..]
  {
    hide U32, RecordLength, WordAt, RecvLoop;
    var stream, missing := Record(body)[..k] + Record(next), |Record(body)| - k;
    RecordLengthOfRecord(body, []);
    assert Record(body) + [] == Record(body);
    SameLength(Record(body), stream);
    ReceiveSplitsRecord(buf, stream, error, events);
    assert Record(body)[4..k] == body[..k - 4];
    if missing > |Record(next)| {
      return;
    }
    assert stream[4..4 + |body|] == body[..k - 4] + Record(next)[..missing];
    assert stream[4 + |body|..] == Record(next)[missing..];
  }

  lemma SameLength(s: seq<byte>, t: seq<byte>)
    requires 4 <= |s| && 4 <= |t| && s[..4] == t[..4]
    ensures RecordLength(s) == RecordLength(t)
  {
    assert s[0..4] == t[0..4];
  }

  /**
    After a send that fails inside the header, the peer takes the bytes of both headers for one: with frames
    as they are built here, the record it then waits for is of eight million bytes, of 32768, or of a
    multiple of 256 and 128 more.
   */
  lemma BrokenHeader(body: seq<byte>, k: nat, next: seq<byte>, rest: seq<byte>)
    requires |body| < 0x1_0000 && |next| < 0x1_0000 && 0 < k < 4
    ensures RecordLength(Record(body)[..k] + Record(next) + rest)
            == match k
               case 1 => 0x80_0000 + |next| / 256
               case 2 => 0x8000
               case _ => 256 * (|body| / 256) + 128
  {
    var a, b, s := Record(body), Record(next), Record(body)[..k] + Record(next) + rest;
    HeaderBytes(body);
    HeaderBytes(next);
    hide U32, WordAt;
    assert forall i :: 0 <= i < k ==> s[i] == a[i];
    assert forall i :: k <= i < 4 ==> s[i] == b[i - k];
    WordAtIs(s, 0);
  }

  lemma HeaderBytes(body: seq<byte>)
    requires |body| < 0x1_0000
    ensures var h := Record(body);
            h[0] == 128 && h[1] == 0 && h[2] == |body| / 256 && h[3] == |body| % 256
  {
    var h: seq<byte> := [128, 0, |body| / 256, |body| % 256];
    WeightOfFour(h);
    U32Unique(h, 0x8000_0000 + |body|);
  }

  // ------------------------------------------------------------------ the receiving side

  /** No call before the first error hands over a byte. */
  predicate YieldsNothing(events: seq<RecvEvent>) {
    events == [] || events[0].RecvError?
    || ((events[0].TryAgain? || events[0].count == 0) && YieldsNothing(events[1..]))
  }

  lemma {:induction false} ReceivedGrows(s: Receiving)
    requires s.WellFormed() && s.status == Running
    ensures s.received <= RecvLoop(s).received
    decreases |s.events|
  {
    hide Store, Splice;
    if s.pending != 0 && s.events != [] {
      var s' := s.(events := s.events[1..]);
      match s.events[0]
      case TryAgain => ReceivedGrows(s'.(error := -1));
      case RecvError(e) =>
      case Delivered(k) =>
        var n := Obtained(k, s.pending, s.unread);
        if HasRoom(s, n) {
          StoreCounts(s', n);
          ReceivedGrows(Store(s', n));
        }
    }
  }

  lemma {:induction false} NothingTaken(s: Receiving)
    requires s.WellFormed() && s.status == Running && !s.headerReceived && s.pending == 4 && s.unread != []
    ensures RecvLoop(s).received == s.received <==> YieldsNothing(s.events)
    decreases |s.events|
  {
    if s.events != [] {
      var s' := s.(events := s.events[1..]);
      match s.events[0]
      case TryAgain => NothingTaken(s'.(error := -1));
      case RecvError(e) =>
      case Delivered(k) =>
        var n := Obtained(k, s.pending, s.unread);
        StoreCounts(s', n);
        if n == 0 {
          NothingTaken(Store(s', 0));
        } else {
          ReceivedGrows(Store(s', n));
        }
    }
  }

  /**
    A receive that does not return 0 leaves the stream at the record it was to receive exactly when no call
    before the first error has handed over a byte, and never at the next record; otherwise the next receive
    takes the word at which it was left for a header.
   */
  lemma FailedReceive(buf: seq<byte>, body: seq<byte>, rest: seq<byte>, events: seq<RecvEvent>)
    requires 4 <= |buf| && |body| < 0x8000_0000
    ensures var stream := Record(body) + rest;
            var r := RecvLoop(RecvStart(buf, stream, 0, events));
            r.status != Returned(0) ==>
              && (r.unread == stream <==> YieldsNothing(events))
              && r.unread != rest
              && (4 <= r.received && r.received <= |body| ==>
                    4 <= |r.unread| && RecordLength(r.unread) == WordAt(body, r.received - 4) % 0x8000_0000)
  {
    hide U32, WordAt, YieldsNothing;
    var stream := Record(body) + rest;
    var s := RecvStart(buf, stream, 0, events);
    var r := RecvLoop(s);
    ReceiveSplitsRecord(buf, stream, 0, events);
    RecordLengthOfRecord(body, rest);
    NothingTaken(s);
    if r.status != Returned(0) && 4 <= r.received && r.received <= |body| {
      assert r.unread[0..4] == stream[r.received..r.received + 4] == body[r.received - 4..r.received];
      SameWord(r.unread, 0, body, r.received - 4);
    }
  }
}
