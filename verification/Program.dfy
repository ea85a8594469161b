/**
  Runs of whole calls: any number of MNT calls on one context, and the program of main.cpp from its first
  query to the unmount.
 */
module Program {
  import opened Bytes
  import opened Messages
  import opened RecordStream
  import opened Monotonic
  import opened Rpc
  import opened Calls
  import opened Replies
  import opened RemoteCall
  import opened Mount
  import opened PortMapper
  import S = Session
  import L = Lookup

  // ------------------------------------------------------------------ any number of MNT calls

  /**
    A MNT or UMNT call with all that is outside of the program: the dial and the schedules, what the
    response buffer contains, the server's exports, its reply, and what it sends afterwards.
   */
  datatype Job = Job(remote: seq<byte>, d: S.Dial, w: Wire, garbage: seq<byte>, exports: map<seq<byte>, Export>,
                     reply: Reply, rest: seq<byte>)
  {
    predicate WellFormed() {
      |remote| < 1024 && |garbage| == BUFFER_SIZE && forall p :: p in exports ==> exports[p].Valid()
    }

    /** What the server exports under the path, nothing if it does not. */
    function Handle(): seq<byte> {
      HandleOf(exports, remote)
    }

    /** The call finds a server that answers what it decoded, over a connection with enough progress. */
    ghost predicate Served(procedure: uint32, seed: uint64, host: seq<byte>)
      requires |host| < 1024
    {
      && WellFormed()
      && d.gai == 0 && d.fd > 0 && d.refused == 0
      && ServeMount(MountFrame(seed, procedure, host, remote), exports) == Some(reply)
      && reply.Valid() && |EncodeReply(reply)| <= BUFFER_SIZE
      && d.inbound == Record(EncodeReply(reply)) + rest
      && Suffices(w, |MountFrame(seed, procedure, host, remote)|, |EncodeReply(reply)|)
    }
  }

  /**
    The calls one after the other, each with the two draws that follow those of the one before; the first
    that fails ends the run.
   */
  ghost function MountRun(s: S.State, seed: uint64, host: seq<byte>, jobs: seq<Job>, fhandle: seq<byte>): Mounted
    requires |host| < 1024 && forall i :: 0 <= i < |jobs| ==> jobs[i].WellFormed()
    decreases |jobs|
  {
    if jobs == [] then Mounted(s, fhandle, Done)
    else
      assert jobs[0].WellFormed();
      var m := MountEffect(s, seed, host, jobs[0].remote, jobs[0].d, jobs[0].w, jobs[0].garbage, fhandle);
      if m.outcome != Done then m else MountRun(m.state, Draw(seed, 2), host, jobs[1..], m.fhandle)
  }

  function Handles(jobs: seq<Job>): seq<byte> {
    if jobs == [] then [] else jobs[0].Handle() + Handles(jobs[1..])
  }

  ghost predicate AllServed(jobs: seq<Job>, seed: uint64, host: seq<byte>)
    requires |host| < 1024
  {
    forall i :: 0 <= i < |jobs| ==> jobs[i].Served(MOUNTPROC3_MNT, Draw(seed, 2 * i), host)
  }

  /** One call appends the exported handle; it leaves exactly that handle only on a context that had none. */
  lemma OneMount(s: S.State, seed: uint64, host: seq<byte>, job: Job, fhandle: seq<byte>)
    requires |host| < 1024 && S.Inv(s) && job.Served(MOUNTPROC3_MNT, seed, host)
    ensures var m := MountEffect(s, seed, host, job.remote, job.d, job.w, job.garbage, fhandle);
            && m.outcome == Done && S.Inv(m.state)
            && m.fhandle == fhandle + job.Handle()
            && (m.fhandle == job.Handle() <==> fhandle == [])
  {
    hide MountEffect, ServeMount, MountFrame, EncodeReply, Suffices, Record;
    S.DisconnectKeepsInv(s);
    MountEndToEnd(s, seed, host, job.remote, job.d, job.w, job.garbage, fhandle, job.exports, job.reply, job.rest);
    assert fhandle + [] == fhandle;
    assert |fhandle + job.Handle()| == |fhandle| + |job.Handle()|;
  }

  lemma ServedTail(jobs: seq<Job>, seed: uint64, host: seq<byte>)
    requires |host| < 1024 && jobs != [] && AllServed(jobs, seed, host)
    ensures jobs[0].Served(MOUNTPROC3_MNT, seed, host) && AllServed(jobs[1..], Draw(seed, 2), host)
  {
    FirstDraw(seed);
    hide Job.Served, Draw;
    assert jobs[0].Served(MOUNTPROC3_MNT, Draw(seed, 2 * 0), host);
    forall i | 0 <= i < |jobs[1..]|
      ensures jobs[1..][i].Served(MOUNTPROC3_MNT, Draw(Draw(seed, 2), 2 * i), host)
    {
      DrawsCompose(seed, 2, 2 * i);
      assert 2 + 2 * i == 2 * (i + 1);
      assert jobs[i + 1].Served(MOUNTPROC3_MNT, Draw(seed, 2 * (i + 1)), host);
    }
  }

  /**
    Nothing clears the handle between calls: after any number of successful MNT calls on one context,
    whatever their connections, the handle is what it was before followed by all the handles received.
   */
  lemma {:induction false} HandlesAccumulate(s: S.State, seed: uint64, host: seq<byte>, jobs: seq<Job>,
                                             fhandle: seq<byte>)
    requires |host| < 1024 && S.Inv(s) && AllServed(jobs, seed, host)
    ensures forall i :: 0 <= i < |jobs| ==> jobs[i].WellFormed()
    ensures var m := MountRun(s, seed, host, jobs, fhandle);
            m.outcome == Done && S.Inv(m.state) && m.fhandle == fhandle + Handles(jobs)
    decreases |jobs|
  {
    hide MountEffect, Job.Handle, Draw;
    assert forall i :: 0 <= i < |jobs| ==> jobs[i].Served(MOUNTPROC3_MNT, Draw(seed, 2 * i), host);
    if jobs == [] {
      assert fhandle + [] == fhandle;
    } else {
      ServedTail(jobs, seed, host);
      var job := jobs[0];
      OneMount(s, seed, host, job, fhandle);
      var m := MountEffect(s, seed, host, job.remote, job.d, job.w, job.garbage, fhandle);
      HandlesAccumulate(m.state, Draw(seed, 2), host, jobs[1..], m.fhandle);
      Assoc(fhandle, job.Handle(), Handles(jobs[1..]));
    }
  }

  /** Such a call over the slowest connection. */
  ghost function SlowJob(procedure: uint32, seed: uint64, host: seq<byte>, remote: seq<byte>, garbage: seq<byte>,
                         exports: map<seq<byte>, Export>, fd: int): (job: Job)
    requires |host| < 1024 && |remote| < 1024
    requires forall p :: p in exports ==> exports[p].Valid()
    requires 24 + |MountResults(exports, remote)| <= BUFFER_SIZE
  {
    var results := if procedure == MOUNTPROC3_MNT then MountResults(exports, remote) else [];
    var reply := Accepted(Draw32(seed, 0), OpaqueAuth(0, []), Success(results));
    SuccessReplySize(Draw32(seed, 0), results);
    Job(remote, S.Dial(0, fd, 0, 0, Record(EncodeReply(reply))),
        Slow(|MountFrame(seed, procedure, host, remote)|, |EncodeReply(reply)|), garbage, exports, reply, [])
  }

  /** Every export whose results fit the response buffer can be mounted and unmounted. */
  lemma SlowJobServed(procedure: uint32, seed: uint64, host: seq<byte>, remote: seq<byte>, garbage: seq<byte>,
                      exports: map<seq<byte>, Export>, fd: int)
    requires |host| < 1024 && |remote| < 1024 && |garbage| == BUFFER_SIZE && fd > 0
    requires procedure == MOUNTPROC3_MNT || procedure == MOUNTPROC3_UMNT
    requires forall p :: p in exports ==> exports[p].Valid()
    requires 24 + |MountResults(exports, remote)| <= BUFFER_SIZE
    ensures SlowJob(procedure, seed, host, remote, garbage, exports, fd).Served(procedure, seed, host)
  {
    hide EncodeReply, Record, MountFrame, MountResults, ServeMount, Listed, Suffices, Slow, Draw32;
    var job := SlowJob(procedure, seed, host, remote, garbage, exports, fd);
    MountServed(seed, procedure, host, remote, exports, {});
    SuccessReplySize(Draw32(seed, 0), if procedure == MOUNTPROC3_MNT then MountResults(exports, remote) else []);
    SlowSuffices(|MountFrame(seed, procedure, host, remote)|, |EncodeReply(job.reply)|);
    assert job.d.inbound == Record(EncodeReply(job.reply)) + [];
  }

  // ------------------------------------------------------------------ the program

  /** A call goes to the mount port, and leaves it what it was. */
  lemma MountKeepsPorts(s: S.State, seed: uint64, host: seq<byte>, job: Job, fhandle: seq<byte>)
    requires |host| < 1024 && job.WellFormed()
    ensures var t := MountEffect(s, seed, host, job.remote, job.d, job.w, job.garbage, fhandle).state;
            t.port == s.mountPort == t.mountPort && t.nfsPort == s.nfsPort
    ensures var t := UmountEffect(s, seed, host, job.remote, job.d, job.w, job.garbage).state;
            t.port == s.mountPort == t.mountPort && t.nfsPort == s.nfsPort
  {
    hide Exchange, MountFrame, MountDecode, Draw32;
    var t, xid := S.Step(s, S.ConnectMount(job.d)).state, Draw32(seed, 0);
    ExchangeKeepsPorts(t, MountFrame(seed, MOUNTPROC3_MNT, host, job.remote), xid, job.w, job.garbage);
    ExchangeKeepsPorts(t, MountFrame(seed, MOUNTPROC3_UMNT, host, job.remote), xid, job.w, job.garbage);
  }

  lemma PortSet(port: uint32)
    ensures ToUint32(ToInt32(port)) == port
  {
  }

  /** The session after both ports have been set to what the queries returned. */
  function PortsSet(s: S.State, mountPort: int, nfsPort: int): S.State {
    S.Step(S.Step(s, S.SetMountPort(ToUint32(mountPort))).state, S.SetNfsPort(ToUint32(nfsPort))).state
  }

  /** Both ports are then what the queries returned. */
  lemma PortsSetExact(s: S.State, mountPort: uint32, nfsPort: uint32)
    ensures var t := PortsSet(s, ToInt32(mountPort), ToInt32(nfsPort));
            && t.mountPort == ToInt32(mountPort) && t.nfsPort == ToInt32(nfsPort)
            && t.port == s.port && t.socketFd == s.socketFd && t.open == s.open
  {
    PortSet(mountPort);
    PortSet(nfsPort);
  }

  /**
    MNT and then lookup in the directory mounted, on a session whose ports have been set: MNT goes to the
    mount port and lookup to the NFS port, with the handle that MNT obtained, and the child decoded is the one
    the NFS server has there.
   */
  lemma MountThenLookup(s: S.State, mountPort: uint32, nfsPort: uint32, seed: uint64, host: seq<byte>, mount: Job,
                        name: seq<byte>, d: S.Dial, w: Wire, garbage: seq<byte>, tree: L.Tree, attributes: seq<byte>,
                        reply: Reply, rest: seq<byte>)
    requires |host| < 1024 && |name| < 1024 && |garbage| == BUFFER_SIZE && S.Inv(s) && L.ValidTree(tree)
    requires mount.Served(MOUNTPROC3_MNT, seed, host) && |mount.Handle()| % 4 == 0 && |mount.Handle()| <= 64
    requires d.gai == 0 && d.fd > 0 && d.refused == 0
    requires L.ServeLookup(L.LookupFrame(Draw(seed, 2), host, mount.Handle(), name), tree, attributes) == Some(reply)
    requires reply.Valid() && |EncodeReply(reply)| <= BUFFER_SIZE
    requires d.inbound == Record(EncodeReply(reply)) + rest
    requires Suffices(w, |L.LookupFrame(Draw(seed, 2), host, mount.Handle(), name)|, |EncodeReply(reply)|)
    ensures var t := PortsSet(s, ToInt32(mountPort), ToInt32(nfsPort));
            var m := MountEffect(t, seed, host, mount.remote, mount.d, mount.w, mount.garbage, []);
            && m.outcome == Done && m.fhandle == mount.Handle() && LeadsTo(m.state, ToInt32(mountPort))
            && var r := L.LookupEffect(m.state, Draw(seed, 2), host, mount.Handle(), name, d, w, garbage);
               && r.outcome == Done && r.child == L.ChildOf(tree, m.fhandle, name)
               && LeadsTo(r.state, ToInt32(nfsPort))
               && Outbound(r.state) == L.LookupFrame(Draw(seed, 2), host, m.fhandle, name)
  {
    hide MountEffect, ServeMount, MountFrame, EncodeReply, Suffices, Record, Draw, L.LookupEffect, L.LookupFrame,
      L.ServeLookup, L.ValidTree, L.ChildOf, PortsSet, ToInt32;
    var t := PortsSet(s, ToInt32(mountPort), ToInt32(nfsPort));
    PortsSetExact(s, mountPort, nfsPort);
    PortsSetKeepsInv(s, ToInt32(mountPort), ToInt32(nfsPort));
    S.DisconnectKeepsInv(t);
    MountEndToEnd(t, seed, host, mount.remote, mount.d, mount.w, mount.garbage, [], mount.exports, mount.reply,
                  mount.rest);
    MountKeepsPorts(t, seed, host, mount, []);
    var m := MountEffect(t, seed, host, mount.remote, mount.d, mount.w, mount.garbage, []);
    assert m.fhandle == mount.Handle();
    S.DisconnectKeepsInv(m.state);
    L.LookupEndToEnd(m.state, Draw(seed, 2), host, m.fhandle, name, d, w, garbage, tree, attributes, reply, rest);
  }

  lemma PortsSetKeepsInv(s: S.State, mountPort: int, nfsPort: int)
    requires S.Inv(s)
    ensures S.Inv(PortsSet(s, mountPort, nfsPort))
  {
  }

  /**
    MNT and UMNT of one path on a session whose ports have been set: both go to the port set, the handle is
    the exported one, and the server's list is afterwards what it was, without this mount.
   */
  lemma MountAndUmount(s: S.State, port: uint32, nfsPort: int, seed: uint64, host: seq<byte>, mount: Job, umount: Job,
                       list: MountList)
    requires |host| < 1024 && S.Inv(s)
    requires mount.Served(MOUNTPROC3_MNT, seed, host)
    requires umount.Served(MOUNTPROC3_UMNT, Draw(seed, 2), host) && umount.remote == mount.remote
    ensures var t := PortsSet(s, ToInt32(port), nfsPort);
            var m := MountEffect(t, seed, host, mount.remote, mount.d, mount.w, mount.garbage, []);
            var u := UmountEffect(m.state, Draw(seed, 2), host, umount.remote, umount.d, umount.w, umount.garbage);
            && m.outcome == Done && m.fhandle == mount.Handle() && LeadsTo(m.state, ToInt32(port))
            && u.outcome == Done && LeadsTo(u.state, ToInt32(port))
            && var mounted := Listed(Outbound(m.state), list, mount.exports);
               && mounted == Some(if IsExported(mount.exports, mount.remote) then list + {(host, mount.remote)}
                                  else list)
               && Listed(Outbound(u.state), mounted.value, umount.exports) == Some(list - {(host, mount.remote)})
  {
    hide MountEffect, UmountEffect, ServeMount, Listed, MountFrame, EncodeReply, Suffices, Record, Draw;
    var t, remote := PortsSet(s, ToInt32(port), nfsPort), mount.remote;
    PortSet(port);
    S.DisconnectKeepsInv(t);
    MountEndToEnd(t, seed, host, remote, mount.d, mount.w, mount.garbage, [], mount.exports, mount.reply, mount.rest);
    MountKeepsPorts(t, seed, host, mount, []);
    var m := MountEffect(t, seed, host, remote, mount.d, mount.w, mount.garbage, []);
    S.DisconnectKeepsInv(m.state);
    UmountEndToEnd(m.state, Draw(seed, 2), host, remote, umount.d, umount.w, umount.garbage, umount.exports,
                   umount.reply, umount.rest);
    MountKeepsPorts(m.state, Draw(seed, 2), host, umount, []);
    MountServed(seed, MOUNTPROC3_MNT, host, remote, mount.exports, list);
    var mounted := if IsExported(mount.exports, remote) then list + {(host, remote)} else list;
    MountServed(Draw(seed, 2), MOUNTPROC3_UMNT, host, remote, umount.exports, mounted);
    assert mounted - {(host, remote)} == list - {(host, remote)};
  }

  /** There is a connection, and its peer is at the port. */
  ghost predicate LeadsTo(s: S.State, port: int) {
    S.IsConnected(s) && s.open[s.socketFd].port == port
  }

  ghost function Outbound(s: S.State): seq<byte> {
    if s.socketFd in s.open then s.open[s.socketFd].outbound else []
  }

  /** The two queries of main.cpp: port mapper version 2, asked for version 3 of MOUNT and of NFS. */
  const MOUNT_QUERY := Query(RPC_VERSION2, 2, MOUNT, 3)
  const NFS_QUERY := Query(RPC_VERSION2, 2, NFS, 3)

  /**
    The program without its lookup: both ports are asked for over one connection, MNT goes to the registered
    mount port and obtains the exported handle, and UMNT leaves nothing of it in the server's list.
   */
  lemma ProgramRuns(portMapperPort: int, connectError: int, seed: uint64, host: seq<byte>, d: S.Dial,
                    w1: Wire, w2: Wire, garbage1: seq<byte>, garbage2: seq<byte>,
                    table: Registry, reply1: Reply, reply2: Reply, rest: seq<byte>,
                    mount: Job, umount: Job, list: MountList)
    requires portMapperPort != -1 && d.gai == 0 && d.fd > 0 && d.refused == 0
    requires |host| < 1024 && |garbage1| == BUFFER_SIZE == |garbage2|
    requires ServePort(GetPortFrame(seed, host, MOUNT_QUERY), table) == Some(reply1)
    requires ServePort(GetPortFrame(Draw(seed, 2), host, NFS_QUERY), table) == Some(reply2)
    requires reply1.Valid() && |EncodeReply(reply1)| <= BUFFER_SIZE
    requires reply2.Valid() && |EncodeReply(reply2)| <= BUFFER_SIZE
    requires d.inbound == Record(EncodeReply(reply1)) + (Record(EncodeReply(reply2)) + rest)
    requires Suffices(w1, |GetPortFrame(seed, host, MOUNT_QUERY)|, |EncodeReply(reply1)|)
    requires Suffices(w2, |GetPortFrame(Draw(seed, 2), host, NFS_QUERY)|, |EncodeReply(reply2)|)
    requires mount.Served(MOUNTPROC3_MNT, Draw(seed, 4), host)
    requires umount.Served(MOUNTPROC3_UMNT, Draw(seed, 6), host) && umount.remote == mount.remote
    ensures var r1 := GetPortEffect(S.Initial(portMapperPort, connectError), seed, host, MOUNT_QUERY, d, w1, garbage1);
            var r2 := GetPortEffect(r1.state, Draw(seed, 2), host, NFS_QUERY, d, w2, garbage2);
            var t := PortsSet(r2.state, r1.port, r2.port);
            var m := MountEffect(t, Draw(seed, 4), host, mount.remote, mount.d, mount.w, mount.garbage, []);
            var u := UmountEffect(m.state, Draw(seed, 6), host, umount.remote, umount.d, umount.w, umount.garbage);
            var port := ToInt32(PortMapper.Lookup(table, MOUNT, 3, IPPROTO_TCP));
            && r1.outcome == Done && r2.outcome == Done
            && m.outcome == Done && m.fhandle == mount.Handle() && LeadsTo(m.state, port)
            && u.outcome == Done && LeadsTo(u.state, port)
            && var mounted := Listed(Outbound(m.state), list, mount.exports);
               mounted.Some? && Listed(Outbound(u.state), mounted.value, umount.exports)
                   == Some(list - {(host, mount.remote)})
  {
    hide GetPortEffect, MountEffect, UmountEffect, ServePort, GetPortFrame, EncodeReply, Suffices, Record, Draw,
      Job.Served,
      PortsSet, Listed, LeadsTo, Outbound, ToInt32, PortMapper.Lookup;
    DrawsCompose(seed, 4, 2);
    BothPortsOverOneConnection(portMapperPort, connectError, seed, host, MOUNT_QUERY, NFS_QUERY, d, d, w1, w2,
                               garbage1, garbage2, table, reply1, reply2, rest);
    var r1 := GetPortEffect(S.Initial(portMapperPort, connectError), seed, host, MOUNT_QUERY, d, w1, garbage1);
    var r2 := GetPortEffect(r1.state, Draw(seed, 2), host, NFS_QUERY, d, w2, garbage2);
    MountAndUmount(r2.state, PortMapper.Lookup(table, MOUNT, 3, IPPROTO_TCP), r2.port, Draw(seed, 4), host, mount,
                   umount, list);
  }
}
