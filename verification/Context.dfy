/**
  The Context class: its methods on a system that hands out descriptors and answers each socket call from a
  schedule.  Every method is tied to the operation of the same name in Session.
 */
module Context {
  import opened Bytes
  import opened Xdr
  import opened RecordStream
  import S = Session

  /** The descriptors a context has open, and the system calls on them. */
  class Kernel {
    var open: map<int, S.Endpoint>

    constructor ()
      ensures open == map[]
    {
      open := map[];
    }

    method Socket(fd: int) returns (result: int)
      requires fd >= 0 ==> fd !in open
      modifies this
      ensures result == fd
      ensures open == if fd < 0 then old(open) else old(open)[fd := S.Endpoint(-1, -1, [], [], 0)]
    {
      if fd >= 0 {
        open := open[fd := S.Endpoint(-1, -1, [], [], 0)];
      }
      return fd;
    }

    method Connect(fd: int, port: int, refused: int, inbound: seq<byte>) returns (result: int)
      requires fd in open
      modifies this
      ensures result == refused
      ensures open == old(open)[fd := S.Endpoint(port, refused, [], inbound, 0)]
    {
      open := open[fd := S.Endpoint(port, refused, [], inbound, 0)];
      return refused;
    }

    method Close(fd: int)
      modifies this
      ensures open == old(open) - {fd}
    {
      open := open - {fd};
    }

    /** Accepts some of the first `len` bytes at `at`, or fails. */
    method Send(fd: int, buf: array<byte>, at: nat, len: nat, event: SendEvent) returns (written: int, errno: int)
      requires fd in open && at + len <= buf.Length
      modifies this
      ensures event.SendError? ==> written == -1 && errno == event.errno && open == old(open)
      ensures event.Wrote? ==>
                && written == Min(event.count, len)
                && open == old(open)[fd := old(open)[fd].(outbound := old(open)[fd].outbound + buf[at..at + written])]
    {
      match event
      case SendError(e) => return -1, e;
      case Wrote(k) =>
        var n := Min(k, len);
        var e := open[fd];
        open := open[fd := e.(outbound := e.outbound + buf[at..at + n])];
        return n, 0;
    }

    /** Stores some of the unread bytes, at most `len`, at `at`, or fails, or stores bytes behind the buffer. */
    method Recv(fd: int, buf: array<byte>, at: nat, len: nat, event: RecvEvent) returns (received: int, errno: Errno)
      requires fd in open && at <= buf.Length
      modifies this, buf
      ensures event.TryAgain? ==> received == -1 && errno == Again
      ensures event.RecvError? ==> received == -1 && errno == Other(event.errno)
      ensures received == -1 ==> open == old(open) && buf[..] == old(buf[..])
      ensures event.Delivered? ==>
                var e := old(open)[fd];
                var n := Obtained(event.count, len, e.Unread());
                && (at + n > buf.Length ==> received == -1 && errno == Beyond)
                && (at + n <= buf.Length ==>
                      && received == n && errno == Again
                      && open == old(open)[fd := e.(consumed := e.consumed + n)]
                      && buf[..] == Splice(old(buf[..]), at, e.Unread()[..n]))
    {
      match event
      case TryAgain => return -1, Again;
      case RecvError(e) => return -1, Other(e);
      case Delivered(k) =>
        var e := open[fd];
        var unread := e.Unread();
        var n := Obtained(k, len, unread);
        if at + n > buf.Length {
          return -1, Beyond;
        }
        forall i | 0 <= i < n {
          buf[at + i] := unread[i];
        }
        open := open[fd := e.(consumed := e.consumed + n)];
        return n, Again;
    }
  }

  /**
    EAGAIN and EWOULDBLOCK, or another error.  `Beyond` is none of the system's answers: it marks the call
    that has overwritten foreign memory, where the model stops.
   */
  datatype Errno = Again | Other(code: int) | Beyond

  class Context {
    const os: Kernel
    var port: int
    var portMapperPort: int
    var error: int
    var connectError: int
    var socketFd: int
    var totalSent: uint64
    var totalReceived: uint64
    var mountPort: int
    var nfsPort: int

    ghost function State(): S.State
      reads this, os
    {
      S.State(socketFd, port, portMapperPort, mountPort, nfsPort, error, connectError, totalSent, totalReceived,
              os.open)
    }

    /** `connectError` is not initialised: any value. */
    constructor (mapperPort: int, connectError: int, os: Kernel)
      requires os.open == map[]
      ensures this.os == os
      ensures State() == S.Initial(mapperPort, connectError)
      ensures socketFd == port == mountPort == nfsPort == -1 && portMapperPort == mapperPort
      ensures totalSent == totalReceived == 0 && error == 0
    {
      this.os := os;
      portMapperPort, port, error, socketFd := mapperPort, -1, 0, -1;
      totalSent, totalReceived, mountPort, nfsPort := 0, 0, -1, -1;
      this.connectError := connectError;
    }

    method Connect(d: S.Dial) returns (code: int)
      requires S.LegalDial(os.open, d)
      modifies this, os
      ensures S.Result(State(), Returned(code)) == S.Connected(old(State()), d)
      ensures old(socketFd) != -1 ==> code == -1 && State() == old(State())
      ensures old(socketFd) == -1 && d.gai != 0 ==> code == error == d.gai && socketFd == -1
      ensures old(socketFd) == -1 && d.gai == 0 && d.fd < 0 ==> code == -1 && error == 0 && socketFd == d.fd
      ensures old(socketFd) == -1 && d.gai == 0 && d.fd >= 0 ==>
                && socketFd == d.fd && connectError == d.refused && error == d.opt
                && code == (if d.opt == 0 then 0 else -1)
    {
      if socketFd != -1 {
        return -1;
      }
      error := d.gai;
      if error != 0 {
        return error;
      }
      socketFd := os.Socket(d.fd);
      if socketFd < 0 {
        return -1;
      }
      error := os.Connect(socketFd, port, d.refused, d.inbound);
      connectError := error;
      error := if d.opt != 0 then -1 else 0;
      if error != 0 {
        error := d.opt;
        return -1;
      }
      return 0;
    }

    method Disconnect()
      modifies this, os
      ensures State() == S.Disconnected(old(State()))
      ensures old(socketFd) > 0 ==>
                socketFd == -1 && totalSent == totalReceived == 0 && os.open == old(os.open) - {old(socketFd)}
      ensures old(socketFd) <= 0 ==> State() == old(State())
    {
      if socketFd > 0 {
        os.Close(socketFd);
        socketFd := -1;
        totalSent := 0;
        totalReceived := 0;
      }
    }

    method ConnectTo(newPort: int, d: S.Dial) returns (code: int)
      requires S.LegalDial(S.Disconnected(State()).open, d)
      modifies this, os
      ensures S.Result(State(), Returned(code)) == S.ConnectedTo(old(State()), newPort, d)
      ensures port == newPort
    {
      Disconnect();
      port := newPort;
      code := Connect(d);
    }

    method ConnectPortMapperPort(d: S.Dial) returns (code: int)
      requires S.LegalDial(S.Disconnected(State()).open, d)
      modifies this, os
      ensures S.Result(State(), Returned(code)) == S.PortMapperConnected(old(State()), d)
      ensures code == 0 && port == portMapperPort
      ensures old(port) == portMapperPort ==> State() == old(State())
    {
      if port != portMapperPort {
        port := portMapperPort;
        var ignored := ConnectTo(portMapperPort, d);
      }
      return 0;
    }

    method ConnectMountPort(d: S.Dial) returns (code: int)
      requires S.LegalDial(S.Disconnected(State()).open, d)
      modifies this, os
      ensures S.Result(State(), Returned(code)) == S.Step(old(State()), S.ConnectMount(d))
      ensures code == 0 && port == mountPort == old(mountPort)
    {
      var ignored := ConnectTo(mountPort, d);
      return 0;
    }

    method ConnectNfsPort(d: S.Dial) returns (code: int)
      requires S.LegalDial(S.Disconnected(State()).open, d)
      modifies this, os
      ensures S.Result(State(), Returned(code)) == S.Step(old(State()), S.ConnectNfs(d))
      ensures code == 0 && port == nfsPort == old(nfsPort)
    {
      var ignored := ConnectTo(nfsPort, d);
      return 0;
    }

    method SetMountPort(p: uint32)
      modifies this
      ensures State() == S.Step(old(State()), S.SetMountPort(p)).state
      ensures mountPort == ToInt32(p) && nfsPort == old(nfsPort)
    {
      mountPort := ToInt32(p);
    }

    method SetNfsPort(p: uint32)
      modifies this
      ensures State() == S.Step(old(State()), S.SetNfsPort(p)).state
      ensures nfsPort == ToInt32(p) && mountPort == old(mountPort)
    {
      nfsPort := ToInt32(p);
    }

    method Send(wireBytes: array<byte>, size: nat, events: seq<SendEvent>) returns (status: Status)
      requires size <= wireBytes.Length && size < 0x8000_0000
      requires socketFd != -1 ==> socketFd in os.open
      modifies this, os
      ensures S.Result(State(), status) == S.Sent(old(State()), wireBytes[..size], events)
      ensures size == 0 ==> status == Returned(0) && State() == old(State())
      ensures size != 0 && socketFd == -1 ==> status == Returned(-1) && State() == old(State())
      ensures status == Returned(-1) && socketFd != -1 ==> FirstSendError(events) == Some(error)
    {
      if size == 0 {
        assert wireBytes[..size] == [];
        return Returned(0);
      }
      var pending: nat := size;
      if socketFd == -1 {
        return Returned(-1);
      }
      var events' := events;
      ghost var msg, s0 := wireBytes[..size], State();
      ghost var e0 := os.open[socketFd];
      SendReportsError(msg, SendStart(msg, e0.outbound, error, events));
      while pending != 0
        invariant pending <= size
        invariant socketFd in os.open
        invariant State() == s0.(open := s0.open[socketFd := e0.(outbound := os.open[socketFd].outbound)])
        invariant SendLoop(msg, SendStart(msg, e0.outbound, s0.error, events))
               == SendLoop(msg, Sending(pending, os.open[socketFd].outbound, error, events', Running))
        decreases |events'|
      {
        if events' == [] {
          return Hung;
        }
        var event := events'[0];
        events' := events'[1..];
        var written, errno := os.Send(socketFd, wireBytes, size - pending, pending, event);
        if written >= 0 {
          SubSlice(wireBytes[..], 0, size, size - pending, size - pending + written);
          pending := pending - written;
        } else {
          error := errno;
          return Returned(-1);
        }
      }
      totalSent := (totalSent + (size - pending)) % 0x1_0000_0000_0000_0000;
      return Returned(pending);
    }

    /**
      The part of the receive loop that follows a successful recv of `count` bytes: counting them and, when
      they complete the header, stripping it and re-arming the loop for the body.
     */
    method Account(wireBytes: array<byte>, count: nat, rpcSizeHeaderReceived: bool, pending: nat, size: nat,
                   ghost cur: Receiving)
      returns (rpcSizeHeaderReceived': bool, pending': nat, size': nat)
      requires cur.WellFormed() && count <= cur.pending && count <= |cur.unread| && HasRoom(cur, count)
      requires cur.headerReceived == rpcSizeHeaderReceived && cur.pending == pending && cur.size == size
      requires wireBytes[..] == Splice(cur.buf, size - pending, cur.unread[..count])
      modifies this`totalReceived, wireBytes
      ensures var t := Store(cur, count);
              && t.headerReceived == rpcSizeHeaderReceived' && t.pending == pending' && t.size == size'
              && t.buf == wireBytes[..]
      ensures totalReceived == S.Add64(old(totalReceived), count)
    {
      totalReceived := (totalReceived + count) % 0x1_0000_0000_0000_0000;
      rpcSizeHeaderReceived', pending', size' := rpcSizeHeaderReceived, pending - count, size;
      if !rpcSizeHeaderReceived && pending' == 0 {
        rpcSizeHeaderReceived' := true;
        StripLastFragment(wireBytes);
        var recvOffset := 0;
        pending', recvOffset := DecodeU32(wireBytes, recvOffset);
        size' := pending';
      }
    }

    /** `size` is an in-out parameter: what goes in is `size`, what comes out is `size'`. */
    method Receive(timeout: int, wireBytes: array<byte>, size: int, opt: int, events: seq<RecvEvent>)
      returns (status: Status, size': int)
      requires 4 <= wireBytes.Length
      requires socketFd != -1 ==>
                 && socketFd in os.open
                 && os.open[socketFd].consumed <= |os.open[socketFd].inbound|
      modifies this, os, wireBytes
      ensures S.Result(State(), status) == S.Received(old(State()), old(wireBytes[..]), opt, events)
      ensures old(socketFd) == -1 || opt != 0 ==>
                size' == size && wireBytes[..] == old(wireBytes[..]) && status == Returned(-1)
      ensures old(socketFd) == -1 ==> State() == old(State())
      ensures old(socketFd) != -1 && opt != 0 ==> error == opt
      ensures old(socketFd) != -1 && opt == 0 && status == Returned(-1) ==> FirstRecvError(events) == Some(error)
      ensures old(socketFd) != -1 && opt == 0 ==>
                var r := S.RecvRun(old(State()), old(wireBytes[..]), events);
                size' == r.size && wireBytes[..] == r.buf
    {
      size' := size;
      if socketFd == -1 {
        return Returned(-1), size';
      }
      error := if opt != 0 then -1 else 0;
      if error != 0 {
        error := opt;
        return Returned(-1), size';
      }
      ghost var s := State();
      ReceiveReportsError(RecvStart(wireBytes[..], os.open[socketFd].Unread(), 0, events));
      assert S.RecvRun(s, wireBytes[..], events) == S.RecvRun(old(State()), wireBytes[..], events);
      hide S.RecvRun, S.AfterReceive;
      status, size' := ReceiveLoop(wireBytes, events);
    }

    /**
      The fields, the system and the buffer are where the specification's loop state says, for a loop that
      started with the given descriptors and count of received bytes.
     */
    ghost predicate Tracks(cur: Receiving, wireBytes: array<byte>, open: map<int, S.Endpoint>, total: uint64)
      reads this, os, wireBytes
    {
      && socketFd in open && open[socketFd].consumed <= |open[socketFd].inbound|
      && var e := open[socketFd];
         && cur.buf == wireBytes[..]
         && cur.error == error
         && cur.received <= |e.Unread()| && cur.unread == e.Unread()[cur.received..]
         && totalReceived == S.Add64(total, cur.received)
         && os.open == open[socketFd := e.(consumed := e.consumed + cur.received)]
    }

    /** One recv and what the loop does with its result; it goes on while `status` is Running. */
    method Turn(wireBytes: array<byte>, event: RecvEvent, rpcSizeHeaderReceived: bool, pending: nat, size: nat,
                ghost cur: Receiving, ghost open: map<int, S.Endpoint>, ghost total: uint64)
      returns (status: Status, rpcSizeHeaderReceived': bool, pending': nat, size': nat)
      requires Tracks(cur, wireBytes, open, total)
      requires cur.WellFormed() && pending != 0
      requires cur.headerReceived == rpcSizeHeaderReceived && cur.pending == pending && cur.size == size
      modifies this`error, this`totalReceived, os, wireBytes
      ensures status != Running
          ==> rpcSizeHeaderReceived' == rpcSizeHeaderReceived && pending' == pending && size' == size
      ensures event.TryAgain? ==>
                && status == Running && Tracks(cur.(error := -1), wireBytes, open, total)
                && rpcSizeHeaderReceived' == rpcSizeHeaderReceived && pending' == pending && size' == size
      ensures event.RecvError? ==> status == Returned(-1) && Tracks(cur.(error := event.errno), wireBytes, open, total)
      ensures event.Delivered? && !HasRoom(cur, Obtained(event.count, pending, cur.unread)) ==>
                status == Overrun && Tracks(cur, wireBytes, open, total)
      ensures event.Delivered? && HasRoom(cur, Obtained(event.count, pending, cur.unread)) ==>
                var t := Store(cur, Obtained(event.count, pending, cur.unread));
                && status == Running
                && t.headerReceived == rpcSizeHeaderReceived' && t.pending == pending' && t.size == size'
                && Tracks(t, wireBytes, open, total)
    {
      status, rpcSizeHeaderReceived', pending', size' := Running, rpcSizeHeaderReceived, pending, size;
      hide Store, Splice, Obtained, Min, S.Add64, WordAt, S.Endpoint.Unread, HasRoom;
      var count, errno := Fill(wireBytes, event, pending, size, cur, open, total);
      if errno == Beyond {
        status := Overrun;
        return;
      }
      error := count;
      if error < 0 {
        if errno == Again {
          return;
        }
        error := errno.code;
        status := Returned(-1);
        return;
      }
      rpcSizeHeaderReceived', pending', size' :=
        Take(wireBytes, count, rpcSizeHeaderReceived, pending, size, cur, open, total);
    }

    /** The rest of a turn that has received `count` bytes. */
    method Take(wireBytes: array<byte>, count: nat, rpcSizeHeaderReceived: bool, pending: nat, size: nat,
                ghost cur: Receiving, ghost open: map<int, S.Endpoint>, ghost total: uint64)
      returns (rpcSizeHeaderReceived': bool, pending': nat, size': nat)
      requires cur.WellFormed() && count <= cur.pending && count <= |cur.unread| && HasRoom(cur, count)
      requires cur.headerReceived == rpcSizeHeaderReceived && cur.pending == pending && cur.size == size
      requires wireBytes[..] == Splice(cur.buf, size - pending, cur.unread[..count])
      requires error == count && totalReceived == S.Add64(total, cur.received)
      requires socketFd in open && open[socketFd].consumed <= |open[socketFd].inbound|
      requires var e := open[socketFd];
               && os.open == open[socketFd := e.(consumed := e.consumed + (cur.received + count))]
               && cur.received + count <= |e.Unread()| && cur.unread[count..] == e.Unread()[cur.received + count..]
      modifies this`totalReceived, wireBytes
      ensures var t := Store(cur, count);
              && t.headerReceived == rpcSizeHeaderReceived' && t.pending == pending' && t.size == size'
              && Tracks(t, wireBytes, open, total)
    {
      hide Store, Splice, S.Add64, WordAt, S.Endpoint.Unread;
      AddsUp(total, cur.received, count);
      StoreCounts(cur, count);
      rpcSizeHeaderReceived', pending', size' := Account(wireBytes, count, rpcSizeHeaderReceived, pending, size, cur);
    }

    /** The recv of one turn. */
    method Fill(wireBytes: array<byte>, event: RecvEvent, pending: nat, size: nat,
                ghost cur: Receiving, ghost open: map<int, S.Endpoint>, ghost total: uint64)
      returns (count: int, errno: Errno)
      requires Tracks(cur, wireBytes, open, total)
      requires cur.WellFormed() && cur.pending == pending && cur.size == size
      modifies os, wireBytes
      ensures count == -1 ==> os.open == old(os.open) && wireBytes[..] == cur.buf
      ensures !event.Delivered? ==> count == -1
      ensures event.Delivered? && !HasRoom(cur, Obtained(event.count, pending, cur.unread))
          ==> count == -1 && errno == Beyond
      ensures event.TryAgain? ==> errno == Again
      ensures event.RecvError? ==> errno == Other(event.errno)
      ensures event.Delivered? && HasRoom(cur, Obtained(event.count, pending, cur.unread)) ==>
                var e := open[socketFd];
                && errno == Again
                && count == Obtained(event.count, pending, cur.unread)
                && wireBytes[..] == Splice(cur.buf, size - pending, cur.unread[..count])
                && os.open == open[socketFd := e.(consumed := e.consumed + (cur.received + count))]
                && cur.received + count <= |e.Unread()| && cur.unread[count..] == e.Unread()[cur.received + count..]
    {
      ghost var e := open[socketFd].(consumed := open[socketFd].consumed + cur.received);
      ghost var n := if event.Delivered? then Obtained(event.count, pending, cur.unread) else 0;
      S.TakesMore(open, socketFd, open[socketFd], cur.received, n);
      assert os.open == open[socketFd := e] && e.Unread() == cur.unread;
      hide Splice, Obtained, Min, S.Add64, S.Endpoint.Unread, Tracks;
      ghost var before := os.open;
      assert before[socketFd] == e;
      count, errno := os.Recv(socketFd, wireBytes, size - pending, pending, event);
      if event.Delivered? && HasRoom(cur, n) {
        assert count == n;
        assert os.open == before[socketFd := e.(consumed := e.consumed + n)];
      }
    }

    /** The loop of Receive. */
    method ReceiveLoop(wireBytes: array<byte>, events: seq<RecvEvent>) returns (status: Status, size: nat)
      requires 4 <= wireBytes.Length
      requires socketFd in os.open && os.open[socketFd].consumed <= |os.open[socketFd].inbound|
      requires error == 0
      modifies this`error, this`totalReceived, os, wireBytes
      ensures var r := S.RecvRun(old(State()), old(wireBytes[..]), events);
              status == r.status && size == r.size && wireBytes[..] == r.buf
                  && State() == S.AfterReceive(old(State()), r)
    {
      ghost var s, open, total := State(), os.open, totalReceived;
      ghost var r := S.RecvRun(s, wireBytes[..], events);
      status, size := RunLoop(wireBytes, events);
      TracksIs(r, wireBytes, s, open, total);
    }

    /** What tracking the end of the loop says about the whole session. */
    lemma TracksIs(r: Receiving, wireBytes: array<byte>, s: S.State, open: map<int, S.Endpoint>, total: uint64)
      requires s == State().(error := s.error, open := open, totalReceived := total)
      requires Tracks(r, wireBytes, open, total)
      ensures State() == S.AfterReceive(s, r) && wireBytes[..] == r.buf
    {
      hide S.Add64;
    }

    /** The turns of the loop. */
    method RunLoop(wireBytes: array<byte>, events: seq<RecvEvent>) returns (status: Status, size: nat)
      requires 4 <= wireBytes.Length
      requires socketFd in os.open && os.open[socketFd].consumed <= |os.open[socketFd].inbound|
      requires error == 0
      modifies this`error, this`totalReceived, os, wireBytes
      ensures var r := RecvLoop(RecvStart(old(wireBytes[..]), old(os.open[socketFd].Unread()), 0, events));
              status == r.status && size == r.size && Tracks(r, wireBytes, old(os.open), old(totalReceived))
    {
      var pending: nat := 4;
      size := pending;
      var rpcSizeHeaderReceived := false;
      var events' := events;
      ghost var open, total, unread := os.open, totalReceived, os.open[socketFd].Unread();
      ghost var cur := RecvStart(wireBytes[..], unread, 0, events);
      ghost var end := RecvLoop(cur);
      AddsUp(total, 0, 0);
      S.UnreadAdvances(open[socketFd], 0);
      assert Tracks(cur, wireBytes, open, total);
      hide RecvLoop, Store, Splice, RecvStart, Obtained, Tracks;
      while pending != 0
        invariant cur.WellFormed() && cur.status == Running && cur.events == events'
        invariant cur.headerReceived == rpcSizeHeaderReceived && cur.pending == pending && cur.size == size
        invariant Tracks(cur, wireBytes, open, total)
        invariant RecvLoop(cur) == end
        decreases |events'|
      {
        LoopEndsOrRetries(cur);
        if events' == [] {
          TracksIgnores(wireBytes, cur, end, open, total);
          return Hung, size;
        }
        var event := events'[0];
        events' := events'[1..];
        ghost var next := cur.(events := events');
        TracksIgnores(wireBytes, cur, next, open, total);
        var turn;
        turn, rpcSizeHeaderReceived, pending, size :=
          Turn(wireBytes, event, rpcSizeHeaderReceived, pending, size, next, open, total);
        if event.Delivered? {
          LoopDelivers(cur, event.count);
        }
        if turn == Overrun {
          TracksIgnores(wireBytes, next, end, open, total);
          return Overrun, size;
        }
        if turn != Running {
          TracksIgnores(wireBytes, next.(error := event.errno), end, open, total);
          return Returned(-1), size;
        }
        if event.Delivered? {
          cur := Store(next, Obtained(event.count, cur.pending, cur.unread));
        } else {
          cur := next.(error := -1);
        }
      }
      LoopEndsOrRetries(cur);
      TracksIgnores(wireBytes, cur, end, open, total);
      return Returned(pending), size;
    }

    /** Tracking does not depend on the schedule and the status. */
    lemma TracksIgnores(wireBytes: array<byte>, a: Receiving, b: Receiving, open: map<int, S.Endpoint>, total: uint64)
      requires Tracks(a, wireBytes, open, total)
      requires b == a.(events := b.events, status := b.status)
      ensures Tracks(b, wireBytes, open, total)
    {
    }
  }

  lemma AddsUp(total: uint64, a: nat, b: nat)
    ensures S.Add64(S.Add64(total, a), b) == S.Add64(total, a + b)
    ensures S.Add64(total, 0) == total
  {
  }
}
