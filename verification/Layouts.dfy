/**
  The frames and replies byte by byte, with the numbers of RFC 5531, RFC 1833 and RFC 1813 in place of the
  names that the program and its peers have for them.
 */
module Layouts {
  import opened Bytes
  import opened Xdr
  import opened Messages
  import opened RecordStream
  import opened Monotonic
  import opened Rpc
  import opened Calls
  import opened Replies
  import opened Mount
  import opened PortMapper
  import L = Lookup

  /**
    A call in a record of one fragment.  The header word has the last-fragment bit and the length of the
    rest; message type 0 is a call; the credential is AUTH_SYS (1) with its length, the stamp, the host, user
    0, group 0 and one further group, which is 0; the verifier is AUTH_NONE (0) and empty.
   */
  ghost function CallBytes(xid: uint32, rpcvers: uint32, prog: uint32, vers: uint32, procedure: uint32,
                           stamp: uint32, host: seq<byte>, args: seq<byte>): seq<byte>
    requires |host| < 1024 && |args| < 4096
  {
    Words([0x8000_0000 + 64 + RoundUp4(|host|) + |args|, xid, 0, rpcvers, prog, vers, procedure,
           1, 24 + RoundUp4(|host|), stamp])
    + XdrOpaque(host) + Words([0, 0, 1, 0, 0, 0]) + args
  }

  lemma {:induction false} WordsConcat(a: seq<uint32>, b: seq<uint32>)
    ensures Words(a + b) == Words(a) + Words(b)
    decreases |a|
  {
    if a == [] {
      assert a + b == b;
    } else {
      assert (a + b)[1..] == a[1..] + b;
      WordsConcat(a[1..], b);
      Assoc(U32(a[0]), Words(a[1..]), Words(b));
    }
  }

  lemma OneWord(w: uint32)
    ensures Words([w]) == U32(w)
  {
    WordsSnoc([], w);
    assert [] + [w] == [w];
  }

  /** The credential and the verifier, taken apart. */
  lemma AuthLayout(stamp: uint32, host: seq<byte>)
    requires |host| < 1024
    ensures AuthBytes(stamp, host)
         == Words([1, 24 + RoundUp4(|host|), stamp]) + XdrOpaque(host) + Words([0, 0, 1, 0, 0, 0])
  {
    hide U32, Words;
    var cred := EncodeAuthSys(Credential(stamp, host));
    var n := 24 + RoundUp4(|host|);
    var x := XdrOpaque(host);
    assert |cred| == n && XdrOpaque(cred) == U32(n) + cred;
    assert [0, 0, |[0]|] + [0] == [0, 0, 1, 0];
    assert cred == U32(stamp) + (x + Words([0, 0, 1, 0]));
    OneWord(1);
    OneWord(n);
    OneWord(stamp);
    WordsConcat([1], [n]);
    WordsConcat([1, n], [stamp]);
    assert [1] + [n] == [1, n] && [1, n] + [stamp] == [1, n, stamp];
    OneWord(0);
    WordsConcat([0], [0]);
    assert [0] + [0] == [0, 0];
    WordsConcat([0, 0, 1, 0], [0, 0]);
    assert [0, 0, 1, 0] + [0, 0] == [0, 0, 1, 0, 0, 0];
    assert EncodeAuth(OpaqueAuth(0, [])) == U32(0) + U32(0) by {
      assert XdrOpaque([]) == U32(0);
    }
    var a, b, c, w, z := U32(1), U32(n), U32(stamp), Words([0, 0, 1, 0]), Words([0, 0]);
    assert (a + (b + (c + (x + w)))) + z == (a + b + c) + x + (w + z);
  }

  lemma CallLayout(xid: uint32, rpcvers: uint32, prog: uint32, vers: uint32, procedure: uint32,
                   stamp: uint32, host: seq<byte>, args: seq<byte>)
    requires |host| < 1024 && |args| < 4096
    ensures var c := AuthSysCall(xid, rpcvers, prog, vers, procedure, stamp, host, args);
            |EncodeCall(c)| < 0x8000_0000
            && Record(EncodeCall(c)) == CallBytes(xid, rpcvers, prog, vers, procedure, stamp, host, args)
  {
    hide U32, Words, XdrOpaque, EncodeAuthSys, RoundUp4;
    var c := AuthSysCall(xid, rpcvers, prog, vers, procedure, stamp, host, args);
    AuthSysCallLength(c, stamp, host);
    AuthLayout(stamp, host);
    var len := 0x8000_0000 + 64 + RoundUp4(|host|) + |args|;
    var head, cred := [xid, 0, rpcvers, prog, vers, procedure], [1, 24 + RoundUp4(|host|), stamp];
    OneWord(len);
    WordsConcat([len], head);
    WordsConcat([len] + head, cred);
    assert [len] + head + cred == [len, xid, 0, rpcvers, prog, vers, procedure, 1, 24 + RoundUp4(|host|), stamp];
    var a, b := EncodeAuth(c.cred), EncodeAuth(c.verf);
    var h, w, k, x, y := U32(len), Words(head), Words(cred), XdrOpaque(host), Words([0, 0, 1, 0, 0, 0]);
    assert a + b == k + x + y;
    assert h + (w + (a + (b + args))) == h + w + (a + b) + args;
    assert h + w + (k + x + y) + args == (h + w + k) + x + y + args;
  }

  /** The words at the front of a call. */
  lemma CallWords(xid: uint32, rpcvers: uint32, prog: uint32, vers: uint32, procedure: uint32,
                  stamp: uint32, host: seq<byte>, args: seq<byte>)
    requires |host| < 1024 && |args| < 4096
    ensures var s := CallBytes(xid, rpcvers, prog, vers, procedure, stamp, host, args);
            && 40 <= |s|
            && WordAt(s, 4) == xid && WordAt(s, 8) == 0 && WordAt(s, 12) == rpcvers && WordAt(s, 16) == prog
            && WordAt(s, 20) == vers && WordAt(s, 24) == procedure && WordAt(s, 28) == 1 && WordAt(s, 36) == stamp
  {
    hide U32, Words, XdrOpaque, WordAt, RoundUp4;
    var s := CallBytes(xid, rpcvers, prog, vers, procedure, stamp, host, args);
    var ws := [0x8000_0000 + 64 + RoundUp4(|host|) + |args|, xid, 0, rpcvers, prog, vers, procedure,
               1, 24 + RoundUp4(|host|), stamp];
    var x, y := XdrOpaque(host), Words([0, 0, 1, 0, 0, 0]);
    assert s[0..|Words(ws)|] == Words(ws);
    HoldsWords(s, 0, ws, 1);
    HoldsWords(s, 0, ws, 2);
    HoldsWords(s, 0, ws, 3);
    HoldsWords(s, 0, ws, 4);
    HoldsWords(s, 0, ws, 5);
    HoldsWords(s, 0, ws, 6);
    HoldsWords(s, 0, ws, 7);
    HoldsWords(s, 0, ws, 9);
  }

  /**
    The two mount frames: RPC version 2, program 100005, version 3, procedure 1 (MNT) and 3 (UMNT); xid and
    stamp are two successive values of the counter, cut to 32 bits.
   */
  lemma MountFrameBytes(seed: uint64, host: seq<byte>, remote: seq<byte>)
    requires |host| < 1024 && |remote| < 1024
    ensures MountFrame(seed, MOUNTPROC3_MNT, host, remote)
         == CallBytes(seed % 0x1_0000_0000, 2, 100005, 3, 1, (seed + 1) % 0x1_0000_0000, host, XdrOpaque(remote))
    ensures MountFrame(seed, MOUNTPROC3_UMNT, host, remote)
         == CallBytes(seed % 0x1_0000_0000, 2, 100005, 3, 3, (seed + 1) % 0x1_0000_0000, host, XdrOpaque(remote))
  {
    hide EncodeCall, Record, CallBytes, XdrOpaque, Draw32;
    Draw32Ignores64BitWrap(seed, 0);
    Draw32Ignores64BitWrap(seed, 1);
    CallLayout(Draw32(seed, 0), 2, 100005, 3, 1, Draw32(seed, 1), host, XdrOpaque(remote));
    CallLayout(Draw32(seed, 0), 2, 100005, 3, 3, Draw32(seed, 1), host, XdrOpaque(remote));
  }

  /** The query frame: program 100000, procedure 3, and program, version, TCP (6) and 0 as arguments, in this order. */
  lemma GetPortFrameBytes(seed: uint64, host: seq<byte>, q: Query)
    requires |host| < 1024
    ensures GetPortFrame(seed, host, q)
         == CallBytes(seed % 0x1_0000_0000, q.rpcVersion, 100000, q.programVersion, 3, (seed + 1) % 0x1_0000_0000, host,
                      Words([q.program, q.version, 6, 0]))
  {
    hide EncodeCall, Record, CallBytes, Words, Draw32;
    Draw32Ignores64BitWrap(seed, 0);
    Draw32Ignores64BitWrap(seed, 1);
    CallLayout(Draw32(seed, 0), q.rpcVersion, 100000, q.programVersion, 3, Draw32(seed, 1), host,
               Words([q.program, q.version, 6, 0]));
  }

  /**
    The lookup frame: RPC version 2, program 100003, version 3, procedure 3, and one padding behind handle and
    name.
   */
  lemma LookupFrameBytes(seed: uint64, host: seq<byte>, dir: seq<byte>, name: seq<byte>)
    requires |host| < 1024 && |dir| < 1024 && |name| < 1024
    ensures L.LookupFrame(seed, host, dir, name)
         == CallBytes(seed % 0x1_0000_0000, 2, 100003, 3, 3, (seed + 1) % 0x1_0000_0000, host,
                      U32(|dir|) + dir + U32(|name|) + name + Zeros(Pad(8 + |dir| + |name|)))
  {
    hide EncodeCall, Record, CallBytes, U32, Zeros, Draw32;
    Draw32Ignores64BitWrap(seed, 0);
    Draw32Ignores64BitWrap(seed, 1);
    CallLayout(Draw32(seed, 0), 2, 100003, 3, 3, Draw32(seed, 1), host, LookupArgs(dir, name));
  }

  /** The request buffers have 1024 bytes. */
  lemma FramesFit(seed: uint64, host: seq<byte>, remote: seq<byte>, q: Query, dir: seq<byte>, name: seq<byte>)
    requires |host| < 1024 && |remote| < 1024 && |dir| < 1024 && |name| < 1024
    ensures MountFits(host, remote) <==> |MountFrame(seed, MOUNTPROC3_MNT, host, remote)| <= 1024
    ensures QueryFits(host) <==> |GetPortFrame(seed, host, q)| <= 1024
    ensures L.LookupFits(host, dir, name) <==> |L.LookupFrame(seed, host, dir, name)| <= 1024
  {
    hide MountFrame, GetPortFrame, L.LookupFrame, RoundUp4;
  }

  /**
    The words of a reply: message type 1; 0 for accepted and 1 for denied; behind the verifier 0 for success,
    2 for a version mismatch, or the failure; behind the denial 0 for a mismatch and 1 for an
    authentication error.
   */
  lemma ReplyWords(s: seq<byte>, r: Reply)
    requires r.Valid() && Holds(s, 0, EncodeReply(r))
    ensures 16 <= |s| && WordAt(s, 0) == r.xid && WordAt(s, 4) == 1
    ensures WordAt(s, 8) == if r.Accepted? then 0 else 1
    ensures r.Denied? ==> WordAt(s, 12) == if r.reason.RpcMismatch? then 0 else 1
    ensures r.Accepted? && r.verf.body == [] ==>
              24 <= |s| && WordAt(s, 12) == r.verf.flavor && WordAt(s, 16) == 0
              && WordAt(s, 20) == match r.body
                                  case Success(_) => 0
                                  case ProgMismatch(_, _) => 2
                                  case Failure(code) => code
  {
    if r.Denied? {
      DeniedWords(s, r);
    } else {
      AcceptedWords(s, r);
    }
  }

  lemma DeniedWords(s: seq<byte>, r: Reply)
    requires r.Denied? && Holds(s, 0, EncodeReply(r))
    ensures 16 <= |s| && WordAt(s, 0) == r.xid && WordAt(s, 4) == 1 && WordAt(s, 8) == 1
    ensures WordAt(s, 12) == if r.reason.RpcMismatch? then 0 else 1
  {
    hide U32, WordAt;
    var ws := [r.xid, 1, 1];
    HoldsParts(s, 0, Words(ws), EncodeRejected(r.reason));
    ThreeWords(s, r.xid, 1, 1);
    match r.reason
    case RpcMismatch(low, high) => HoldsWords(s, 12, [0, low, high], 0);
    case AuthError(why) => HoldsWords(s, 12, [1, why], 0);
  }

  lemma ThreeWords(s: seq<byte>, a: uint32, b: uint32, c: uint32)
    requires Holds(s, 0, Words([a, b, c]))
    ensures 12 <= |s| && WordAt(s, 0) == a && WordAt(s, 4) == b && WordAt(s, 8) == c
  {
    hide U32, WordAt, Words;
    HoldsWords(s, 0, [a, b, c], 0);
    HoldsWords(s, 0, [a, b, c], 1);
    HoldsWords(s, 0, [a, b, c], 2);
  }

  lemma AcceptedWords(s: seq<byte>, r: Reply)
    requires r.Valid() && r.Accepted? && Holds(s, 0, EncodeReply(r))
    ensures 16 <= |s| && WordAt(s, 0) == r.xid && WordAt(s, 4) == 1 && WordAt(s, 8) == 0
    ensures r.verf.body == [] ==>
              24 <= |s| && WordAt(s, 12) == r.verf.flavor && WordAt(s, 16) == 0
              && WordAt(s, 20) == match r.body
                                  case Success(_) => 0
                                  case ProgMismatch(_, _) => 2
                                  case Failure(code) => code
  {
    hide U32, WordAt, Words, EncodeAccepted, EncodeAuth;
    var auth, x := EncodeAuth(r.verf), EncodeAccepted(r.body);
    HoldsParts(s, 0, Words([r.xid, 1, 0]), auth + x);
    ThreeWords(s, r.xid, 1, 0);
    HoldsParts(s, 12, auth, x);
    if r.verf.body == [] {
      EmptyVerifierWords(s, 12, r.verf);
      StatusIs(s, 20, r.body);
    }
  }

  lemma EmptyVerifierWords(s: seq<byte>, at: nat, verf: OpaqueAuth)
    requires verf.body == [] && Holds(s, at, EncodeAuth(verf))
    ensures at + 8 <= |s| && WordAt(s, at) == verf.flavor && WordAt(s, at + 4) == 0
  {
    hide U32, WordAt, XdrOpaque;
    HoldsParts(s, at, U32(verf.flavor), XdrOpaque([]));
    HoldsWord(s, at, verf.flavor);
    OpaqueInside(s, at + 4, []);
  }

  lemma StatusIs(s: seq<byte>, at: nat, body: AcceptedBody)
    requires Holds(s, at, EncodeAccepted(body))
    ensures at + 4 <= |s|
    ensures WordAt(s, at) == match body
                             case Success(_) => 0
                             case ProgMismatch(_, _) => 2
                             case Failure(code) => code
  {
    hide U32, WordAt;
    match body
    case Success(results) =>
      HoldsParts(s, at, U32(0), results);
      HoldsWord(s, at, 0);
    case ProgMismatch(low, high) => HoldsWords(s, at, [2, low, high], 0);
    case Failure(code) => HoldsWord(s, at, code);
  }
}
