/**
  The request builders of Mount.cpp, PortMapperContext.cpp and Inode::lookup: frames filled in place, with
  the record header patched at the end.
 */
module Calls {
  import opened Bytes
  import opened Xdr
  import opened Messages
  import opened RecordStream
  import opened Monotonic
  import opened Rpc

  const MOUNTPROC3_MNT: uint32 := 1
  const MOUNTPROC3_UMNT: uint32 := 3
  const PMAPPROC_GETPORT: uint32 := 3
  const NFSPROC3_LOOKUP: uint32 := 3
  const IPPROTO_TCP: uint32 := 6

  // ------------------------------------------------------------------ specifications

  /** MNT and UMNT take a directory path (Appendix I of RFC 1813). */
  ghost function MountCall(xid: uint32, procedure: uint32, stamp: uint32, host: seq<byte>,
                           path: seq<byte>): (c: CallMessage)
    requires |host| < 1024 && |path| < 1024
    ensures c.Valid()
  {
    AuthSysCall(xid, RPC_VERSION2, MOUNT, PROGRAM_VERSION3, procedure, stamp, host, XdrOpaque(path))
  }

  /** GETPORT takes a mapping (section 3 of RFC 1833); the port is a dummy. */
  ghost function GetPortCall(xid: uint32, rpcVersion: uint32, programVersion: uint32, stamp: uint32, host: seq<byte>,
                             program: uint32, version: uint32): (c: CallMessage)
    requires |host| < 1024
    ensures c.Valid()
  {
    AuthSysCall(xid, rpcVersion, PORTMAP, programVersion, PMAPPROC_GETPORT, stamp, host,
                Words([program, version, IPPROTO_TCP, 0]))
  }

  /** What lookup writes: nothing is aligned between the handle and the name. */
  ghost function LookupArgs(dir: seq<byte>, name: seq<byte>): (bs: seq<byte>)
    requires |dir| < 1024 && |name| < 1024
    ensures |bs| == RoundUp4(8 + |dir| + |name|)
  {
    U32(|dir|) + dir + U32(|name|) + name + Zeros(Pad(8 + |dir| + |name|))
  }

  ghost function LookupCall(xid: uint32, stamp: uint32, host: seq<byte>, dir: seq<byte>,
                            name: seq<byte>): (c: CallMessage)
    requires |host| < 1024 && |dir| < 1024 && |name| < 1024
    ensures c.Valid()
  {
    AuthSysCall(xid, RPC_VERSION2, NFS, PROGRAM_VERSION3, NFSPROC3_LOOKUP, stamp, host, LookupArgs(dir, name))
  }

  /** The length of the encoding of any call built here. */
  lemma AuthSysCallLength(c: CallMessage, stamp: uint32, host: seq<byte>)
    requires |host| < 1024 && c.Valid()
    requires c.cred == OpaqueAuth(AUTH_SYS, EncodeAuthSys(Credential(stamp, host)))
    requires c.verf == OpaqueAuth(AUTH_NONE, [])
    ensures |EncodeCall(c)| == 64 + RoundUp4(|host|) + |c.args|
  {
  }

  /**
    Frame sizes, with R the rounding up to four: 72+R(host)+R(path) for MNT and UMNT, 84+R(host) for
    GETPORT.  LOOKUP aligns once, behind the name, and every frame is a multiple of four.
   */
  lemma FrameSizes(xid: uint32, procedure: uint32, stamp: uint32, host: seq<byte>, path: seq<byte>,
                   rpcVersion: uint32, programVersion: uint32, program: uint32, version: uint32,
                   dir: seq<byte>, name: seq<byte>)
    requires |host| < 1024 && |path| < 1024 && |dir| < 1024 && |name| < 1024
    ensures |Record(EncodeCall(MountCall(xid, procedure, stamp, host, path)))|
            == 72 + RoundUp4(|host|) + RoundUp4(|path|)
    ensures |Record(EncodeCall(GetPortCall(xid, rpcVersion, programVersion, stamp, host, program, version)))|
            == 84 + RoundUp4(|host|)
    ensures |Record(EncodeCall(LookupCall(xid, stamp, host, dir, name)))|
            == 68 + RoundUp4(|host|) + RoundUp4(8 + |dir| + |name|)
    ensures |Record(EncodeCall(LookupCall(xid, stamp, host, dir, name)))| % 4 == 0
  {
    hide EncodeCall, Record, XdrOpaque, Words, LookupArgs, EncodeAuthSys, U32, RoundUp4, Pad;
    AuthSysCallLength(MountCall(xid, procedure, stamp, host, path), stamp, host);
    AuthSysCallLength(GetPortCall(xid, rpcVersion, programVersion, stamp, host, program, version), stamp, host);
    AuthSysCallLength(LookupCall(xid, stamp, host, dir, name), stamp, host);
  }

  /**
    The credential buffer and the request buffer suffice exactly when the frame has at most 1024 bytes: a
    frame that fits has a credential that fits.
   */
  lemma BuffersSuffice(xid: uint32, procedure: uint32, stamp: uint32, host: seq<byte>, path: seq<byte>,
                       rpcVersion: uint32, programVersion: uint32, program: uint32, version: uint32,
                       dir: seq<byte>, name: seq<byte>)
    requires |host| < 1024 && |path| < 1024 && |dir| < 1024 && |name| < 1024
    ensures |AuthBytes(stamp, host)| <= BUFFER_SIZE
            && |Record(EncodeCall(MountCall(xid, procedure, stamp, host, path)))| <= BUFFER_SIZE
            <==> 72 + RoundUp4(|host|) + RoundUp4(|path|) <= BUFFER_SIZE
    ensures |AuthBytes(stamp, host)| <= BUFFER_SIZE
            && |Record(EncodeCall(GetPortCall(xid, rpcVersion, programVersion, stamp, host, program, version)))|
               <= BUFFER_SIZE
            <==> |host| <= 940
    ensures |AuthBytes(stamp, host)| <= BUFFER_SIZE
            && |Record(EncodeCall(LookupCall(xid, stamp, host, dir, name)))| <= BUFFER_SIZE
            <==> 68 + RoundUp4(|host|) + RoundUp4(8 + |dir| + |name|) <= BUFFER_SIZE
  {
    hide EncodeCall, Record, MountCall, GetPortCall, LookupCall, AuthBytes;
    FrameSizes(xid, procedure, stamp, host, path, rpcVersion, programVersion, program, version, dir, name);
  }

  // ------------------------------------------------------------------ builders

  ghost function HeaderWords(xid: uint32, rpcvers: uint32, prog: uint32, vers: uint32,
                             procedure: uint32): (ws: seq<uint32>)
    ensures |ws| == 7
  {
    [0, xid, CALL, rpcvers, prog, vers] + [procedure]
  }

  /** What is in the buffer before the arguments: an empty header word, the call header, the two auth items. */
  ghost function Preamble(xid: uint32, rpcvers: uint32, prog: uint32, vers: uint32, procedure: uint32,
                          stamp: uint32, host: seq<byte>): (bs: seq<byte>)
    requires |host| < 1024
    ensures |bs| == 68 + RoundUp4(|host|)
  {
    Words(HeaderWords(xid, rpcvers, prog, vers, procedure)) + AuthBytes(stamp, host)
  }

  lemma FrameLayout(xid: uint32, rpcvers: uint32, prog: uint32, vers: uint32, procedure: uint32,
                    stamp: uint32, host: seq<byte>, args: seq<byte>)
    requires |host| < 1024
    ensures Preamble(xid, rpcvers, prog, vers, procedure, stamp, host) + args
         == U32(0) + EncodeCall(AuthSysCall(xid, rpcvers, prog, vers, procedure, stamp, host, args))
  {
    var ws := [xid, CALL, rpcvers, prog, vers, procedure];
    assert HeaderWords(xid, rpcvers, prog, vers, procedure)[1..] == ws;
    var z, w, a, b := U32(0), Words(ws), EncodeAuth(OpaqueAuth(AUTH_SYS, EncodeAuthSys(Credential(stamp, host)))),
                      EncodeAuth(OpaqueAuth(AUTH_NONE, []));
    assert (z + w) + (a + b) + args == z + (w + (a + (b + args)));
  }

  method BuildPreamble(counter: Counter, host: seq<byte>, rpcvers: uint32, prog: uint32, vers: uint32,
                       procedure: uint32, wireRequest: array<byte>)
    returns (requestSize: nat, xid: uint32)
    requires |host| < 1024 && 40 + RoundUp4(|host|) <= BUFFER_SIZE
    requires 68 + RoundUp4(|host|) <= wireRequest.Length
    modifies counter, wireRequest
    ensures counter.sequential == Draw(old(counter.sequential), 2)
    ensures xid == Draw32(old(counter.sequential), 0)
    ensures requestSize == 68 + RoundUp4(|host|)
    ensures wireRequest[..requestSize]
         == Preamble(xid, rpcvers, prog, vers, procedure, Draw32(old(counter.sequential), 1), host)
    ensures forall i :: requestSize <= i < wireRequest.Length ==> wireRequest[i] == old(wireRequest[i])
  {
    ghost var seed := counter.sequential;
    var draw := counter.GetMonotonic();
    xid := ToUint32(draw);
    SecondDraw(seed);
    requestSize := MakeRPC(xid, CALL, rpcvers, prog, vers, wireRequest);
    requestSize := AppendProcedure(wireRequest, [0, xid, CALL, rpcvers, prog, vers], procedure);
    assert wireRequest[..28] == Words(HeaderWords(xid, rpcvers, prog, vers, procedure));
    var n := AppendCredential(counter, host, wireRequest, requestSize);
    requestSize := requestSize + n;
  }

  method AppendProcedure(wireRequest: array<byte>, ghost ws: seq<uint32>, procedure: uint32) returns (requestSize: nat)
    requires |ws| == 6 && 28 <= wireRequest.Length
    requires wireRequest[..24] == Words(ws)
    modifies wireRequest
    ensures requestSize == 28
    ensures wireRequest[..28] == Words(ws + [procedure])
    ensures forall i :: 28 <= i < wireRequest.Length ==> wireRequest[i] == old(wireRequest[i])
  {
    var n := EncodeU32(wireRequest, 24, procedure);
    WordsSnoc(ws, procedure);
    requestSize := 24 + n;
  }

  /** The credential is built in a buffer of its own and copied behind the call header. */
  method AppendCredential(counter: Counter, host: seq<byte>, wireRequest: array<byte>, requestSize: nat)
    returns (credSize: nat)
    requires |host| < 1024 && 40 + RoundUp4(|host|) <= BUFFER_SIZE
    requires requestSize + 40 + RoundUp4(|host|) <= wireRequest.Length
    modifies counter, wireRequest
    ensures counter.sequential == Draw(old(counter.sequential), 1)
    ensures credSize == 40 + RoundUp4(|host|)
    ensures wireRequest[..requestSize + credSize]
         == old(wireRequest[..requestSize]) + AuthBytes(Draw32(old(counter.sequential), 0), host)
    ensures forall i :: requestSize + credSize <= i < wireRequest.Length ==> wireRequest[i] == old(wireRequest[i])
  {
    var wireCredRequest := new byte[BUFFER_SIZE];
    credSize := AddAuthSys(counter, host, wireCredRequest);
    Memcpy(wireRequest, requestSize, wireCredRequest[..credSize]);
  }

  /** Patches the record header: the length without the header, marked as the last fragment. */
  method FinishRecord(wireRequest: array<byte>, requestSize: nat, ghost body: seq<byte>)
    requires 4 <= requestSize <= wireRequest.Length && requestSize < 0x8000_0000
    requires wireRequest[..requestSize] == U32(0) + body
    modifies wireRequest
    ensures |body| == requestSize - 4
    ensures wireRequest[..requestSize] == Record(body)
    ensures forall i :: requestSize <= i < wireRequest.Length ==> wireRequest[i] == old(wireRequest[i])
  {
    assert wireRequest[4..requestSize] == wireRequest[..requestSize][4..] == body;
    var n := EncodeU32(wireRequest, 0, requestSize - 4);
    assert wireRequest[4..requestSize] == body;
    assert wireRequest[..4] == U32(|body|);
    LastFragmentBit(|body|);
    EncodeLastFragment(wireRequest);
    assert wireRequest[..4] == U32(|body|)[0 := U32(|body|)[0] + 128];
    assert wireRequest[..requestSize] == wireRequest[..4] + wireRequest[4..requestSize];
  }

  /** MNT and UMNT. */
  method BuildMountCall(counter: Counter, host: seq<byte>, remote: seq<byte>, procedure: uint32,
                        wireRequest: array<byte>)
    returns (requestSize: nat, xid: uint32)
    requires |host| < 1024 && |remote| < 1024
    requires wireRequest.Length == BUFFER_SIZE
    requires 72 + RoundUp4(|host|) + RoundUp4(|remote|) <= BUFFER_SIZE
    modifies counter, wireRequest
    ensures counter.sequential == Draw(old(counter.sequential), 2)
    ensures xid == Draw32(old(counter.sequential), 0)
    ensures requestSize == 72 + RoundUp4(|host|) + RoundUp4(|remote|)
    ensures wireRequest[..requestSize]
         == Record(EncodeCall(MountCall(xid, procedure, Draw32(old(counter.sequential), 1), host, remote)))
    ensures forall i :: requestSize <= i < wireRequest.Length ==> wireRequest[i] == old(wireRequest[i])
  {
    hide EncodeCall, Words, U32, XdrOpaque, Preamble, AuthBytes;
    ghost var stamp := Draw32(counter.sequential, 1);
    requestSize, xid := BuildPreamble(counter, host, RPC_VERSION2, MOUNT, PROGRAM_VERSION3, procedure, wireRequest);
    var n := AppendString(wireRequest, requestSize, remote, wireRequest[..requestSize]);
    requestSize := requestSize + n;
    FrameLayout(xid, RPC_VERSION2, MOUNT, PROGRAM_VERSION3, procedure, stamp, host, XdrOpaque(remote));
    FinishRecord(wireRequest, requestSize, EncodeCall(MountCall(xid, procedure, stamp, host, remote)));
  }

  method BuildGetPortCall(counter: Counter, host: seq<byte>, rpcVersion: uint32, programVersion: uint32,
                          program: uint32, version: uint32, wireRequest: array<byte>)
    returns (requestSize: nat, xid: uint32)
    requires |host| < 1024
    requires wireRequest.Length == BUFFER_SIZE
    requires 84 + RoundUp4(|host|) <= BUFFER_SIZE
    modifies counter, wireRequest
    ensures counter.sequential == Draw(old(counter.sequential), 2)
    ensures xid == Draw32(old(counter.sequential), 0)
    ensures requestSize == 84 + RoundUp4(|host|)
    ensures wireRequest[..requestSize]
         == Record(EncodeCall(GetPortCall(xid, rpcVersion, programVersion, Draw32(old(counter.sequential), 1),
                                          host, program, version)))
    ensures forall i :: requestSize <= i < wireRequest.Length ==> wireRequest[i] == old(wireRequest[i])
  {
    hide EncodeCall, Words, U32, XdrOpaque, Preamble, AuthBytes;
    ghost var stamp := Draw32(counter.sequential, 1);
    requestSize, xid :=
      BuildPreamble(counter, host, rpcVersion, PORTMAP, programVersion, PMAPPROC_GETPORT, wireRequest);
    ghost var base, ws := wireRequest[..requestSize], [];
    assert base + Words(ws) == base;
    var n := AppendWord(wireRequest, requestSize, program, base, ws);
    ws, requestSize := ws + [program], requestSize + 4;
    n := AppendWord(wireRequest, requestSize, version, base, ws);
    ws, requestSize := ws + [version], requestSize + 4;
    n := AppendWord(wireRequest, requestSize, IPPROTO_TCP, base, ws);
    ws, requestSize := ws + [IPPROTO_TCP], requestSize + 4;
    n := AppendWord(wireRequest, requestSize, 0, base, ws);
    ws, requestSize := ws + [0], requestSize + 4;
    assert ws == [program, version, IPPROTO_TCP, 0];
    FrameLayout(xid, rpcVersion, PORTMAP, programVersion, PMAPPROC_GETPORT, stamp, host, Words(ws));
    FinishRecord(wireRequest, requestSize,
                 EncodeCall(GetPortCall(xid, rpcVersion, programVersion, stamp, host, program, version)));
  }

  method AppendLookupArgs(wireRequest: array<byte>, size: nat, parent: seq<byte>, child: seq<byte>)
    returns (requestSize: nat)
    requires |parent| < 1024 && |child| < 1024
    requires size % 4 == 0 && size + RoundUp4(8 + |parent| + |child|) <= wireRequest.Length
    modifies wireRequest
    ensures requestSize == size + RoundUp4(8 + |parent| + |child|)
    ensures wireRequest[..requestSize] == old(wireRequest[..size]) + LookupArgs(parent, child)
    ensures forall i :: requestSize <= i < wireRequest.Length ==> wireRequest[i] == old(wireRequest[i])
  {
    hide U32, Zeros, ToInt32, ToUint32;
    requestSize := size;
    ghost var base := wireRequest[..size];
    var n := EncodeNBytes(wireRequest, requestSize, parent);
    requestSize := requestSize + n;
    ghost var front := base + U32(|parent|) + parent;
    assert Pad(requestSize + |child|) == Pad(8 + |parent| + |child|);
    n := AppendAligned(wireRequest, requestSize, child, front);
    requestSize := requestSize + n;
    LookupArgsLayout(base, parent, child);
  }

  lemma LookupArgsLayout(base: seq<byte>, parent: seq<byte>, child: seq<byte>)
    requires |parent| < 1024 && |child| < 1024
    ensures base + U32(|parent|) + parent + U32(|child|) + child + Zeros(Pad(8 + |parent| + |child|))
         == base + LookupArgs(parent, child)
  {
    var z := Zeros(Pad(8 + |parent| + |child|));
    var h := U32(|parent|) + parent;
    Assoc(base, U32(|parent|), parent);
    Assoc(base, h, U32(|child|));
    Assoc(base, h + U32(|child|), child);
    Assoc(base, h + U32(|child|) + child, z);
  }

  method BuildLookupCall(counter: Counter, host: seq<byte>, parent: seq<byte>, child: seq<byte>,
                         wireRequest: array<byte>)
    returns (requestSize: nat, xid: uint32)
    requires |host| < 1024 && |parent| < 1024 && |child| < 1024
    requires wireRequest.Length == BUFFER_SIZE
    requires 68 + RoundUp4(|host|) + RoundUp4(8 + |parent| + |child|) <= BUFFER_SIZE
    modifies counter, wireRequest
    ensures counter.sequential == Draw(old(counter.sequential), 2)
    ensures xid == Draw32(old(counter.sequential), 0)
    ensures requestSize == 68 + RoundUp4(|host|) + RoundUp4(8 + |parent| + |child|)
    ensures wireRequest[..requestSize]
         == Record(EncodeCall(LookupCall(xid, Draw32(old(counter.sequential), 1), host, parent, child)))
    ensures forall i :: requestSize <= i < wireRequest.Length ==> wireRequest[i] == old(wireRequest[i])
  {
    hide EncodeCall, Words, U32, XdrOpaque, Preamble, AuthBytes;
    ghost var stamp := Draw32(counter.sequential, 1);
    requestSize, xid := BuildPreamble(counter, host, RPC_VERSION2, NFS, PROGRAM_VERSION3, NFSPROC3_LOOKUP, wireRequest);
    requestSize := AppendLookupArgs(wireRequest, requestSize, parent, child);
    FrameLayout(xid, RPC_VERSION2, NFS, PROGRAM_VERSION3, NFSPROC3_LOOKUP, stamp, host, LookupArgs(parent, child));
    FinishRecord(wireRequest, requestSize, EncodeCall(LookupCall(xid, stamp, host, parent, child)));
  }
}
