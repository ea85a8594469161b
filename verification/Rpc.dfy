/**
  Building the front of an RPC call in place (rpc.hpp), and what the bytes built are.
 */
module Rpc {
  import opened Bytes
  import opened Xdr
  import opened Messages
  import opened Monotonic

  const BUFFER_SIZE := 1024

  const RPC_VERSION2: uint32 := 2
  const PORTMAP: uint32 := 100000
  const NFS: uint32 := 100003
  const MOUNT: uint32 := 100005
  const PROGRAM_VERSION3: uint32 := 3

  // ------------------------------------------------------------------ the specification of a call

  /** The credential body `addAuthSys` writes: root, with group 0 as its one supplementary group. */
  ghost function Credential(stamp: uint32, host: seq<byte>): (p: AuthSysParms)
    requires |host| < 0x1_0000_0000
    ensures p.Valid()
  {
    AuthSysParms(stamp, host, 0, 0, [0])
  }

  ghost function AuthSysCall(xid: uint32, rpcvers: uint32, prog: uint32, vers: uint32, procedure: uint32,
                             stamp: uint32, host: seq<byte>, args: seq<byte>): (c: CallMessage)
    requires |host| < 1024
    ensures c.Valid()
  {
    CallMessage(xid, rpcvers, prog, vers, procedure,
                OpaqueAuth(AUTH_SYS, EncodeAuthSys(Credential(stamp, host))),
                OpaqueAuth(AUTH_NONE, []), args)
  }

  /** The bytes `addAuthSys` leaves: credential and verifier. */
  ghost function AuthBytes(stamp: uint32, host: seq<byte>): (bs: seq<byte>)
    requires |host| < 1024
    ensures |bs| == 40 + RoundUp4(|host|)
  {
    EncodeAuth(OpaqueAuth(AUTH_SYS, EncodeAuthSys(Credential(stamp, host)))) + EncodeAuth(OpaqueAuth(AUTH_NONE, []))
  }

  // ------------------------------------------------------------------ building

  /** Encodes one more word behind `base` and the words already there. */
  method AppendWord(dst: array<byte>, size: nat, value: uint32, ghost base: seq<byte>, ghost ws: seq<uint32>)
    returns (written: nat)
    requires size + 4 <= dst.Length
    requires dst[..size] == base + Words(ws)
    modifies dst
    ensures written == 4
    ensures dst[..size + 4] == base + Words(ws + [value])
    ensures forall i :: size + 4 <= i < dst.Length ==> dst[i] == old(dst[i])
  {
    written := EncodeU32(dst, size, value);
    WordsSnoc(ws, value);
    Assoc(base, Words(ws), U32(value));
  }

  method MakeRPC(xid: uint32, rpcType: uint32, rpcVersion: uint32, rpcProgram: uint32, programVersion: uint32,
                 wireBytes: array<byte>) returns (size: nat)
    requires 24 <= wireBytes.Length
    modifies wireBytes
    ensures size == 24
    ensures wireBytes[..24] == Words([0, xid, rpcType, rpcVersion, rpcProgram, programVersion])
    ensures forall i :: 24 <= i < wireBytes.Length ==> wireBytes[i] == old(wireBytes[i])
  {
    size := 0;
    ghost var ws := [];
    var n := AppendWord(wireBytes, size, 0, [], ws);
    ws, size := ws + [0], size + 4;
    n := AppendWord(wireBytes, size, xid, [], ws);
    ws, size := ws + [xid], size + n;
    n := AppendWord(wireBytes, size, rpcType, [], ws);
    ws, size := ws + [rpcType], size + n;
    n := AppendWord(wireBytes, size, rpcVersion, [], ws);
    ws, size := ws + [rpcVersion], size + n;
    n := AppendWord(wireBytes, size, rpcProgram, [], ws);
    ws, size := ws + [rpcProgram], size + n;
    n := AppendWord(wireBytes, size, programVersion, [], ws);
    ws, size := ws + [programVersion], size + n;
    assert ws == [0, xid, rpcType, rpcVersion, rpcProgram, programVersion];
  }

  /** A string and the zeros that bring the buffer up to a word boundary, wherever the string starts. */
  method AppendAligned(dst: array<byte>, size: nat, str: seq<byte>, ghost base: seq<byte>) returns (written: nat)
    requires |str| + 4 < 0x8000_0000
    requires size + 4 + |str| + Pad(size + |str|) <= dst.Length
    requires dst[..size] == base
    modifies dst
    ensures written == 4 + |str| + Pad(size + |str|)
    ensures dst[..size + written] == base + U32(|str|) + str + Zeros(Pad(size + |str|))
    ensures forall i :: size + written <= i < dst.Length ==> dst[i] == old(dst[i])
  {
    SmallAsIs(|str|);
    hide U32, Zeros, ToInt32, ToUint32;
    written := EncodeString(dst, size, str);
    var padding := EncodeAlign(dst, size + written, size + written, 4);
    assert padding == Pad(size + |str|);
    written := written + padding;
  }

  /** A string or opaque argument on a word boundary is an XDR item. */
  method AppendString(dst: array<byte>, size: nat, str: seq<byte>, ghost base: seq<byte>) returns (written: nat)
    requires |str| + 4 < 0x8000_0000
    requires size % 4 == 0
    requires size + 4 + RoundUp4(|str|) <= dst.Length
    requires dst[..size] == base
    modifies dst
    ensures written == 4 + RoundUp4(|str|)
    ensures dst[..size + written] == base + XdrOpaque(str)
    ensures forall i :: size + written <= i < dst.Length ==> dst[i] == old(dst[i])
  {
    PadSkipsWords(size, |str|);
    hide U32, Zeros, Pad, RoundUp4;
    written := AppendAligned(dst, size, str, base);
    Assoc(base, U32(|str|), str);
    Assoc(base, U32(|str|) + str, Zeros(Pad(|str|)));
  }

  /** Replacing one item by another of the same length. */
  lemma Patched(s: seq<byte>, s': seq<byte>, a: seq<byte>, b: seq<byte>, b': seq<byte>, c: seq<byte>)
    requires s == a + b + c && |s'| == |s| && |b'| == |b|
    requires s'[..|a| + |b|] == a + b'
    requires s'[|a| + |b|..] == s[|a| + |b|..]
    ensures s' == a + b' + c
  {
    assert s[|a| + |b|..] == c;
    assert s' == s'[..|a| + |b|] + s'[|a| + |b|..];
  }

  /** The credential as it stands before its length is known. */
  lemma UnpatchedCredential(stamp: uint32, host: seq<byte>)
    requires |host| < 1024
    ensures Words([AUTH_SYS, 0, stamp]) + XdrOpaque(host) + Words([0, 0, 1, 0])
         == U32(AUTH_SYS) + U32(0) + EncodeAuthSys(Credential(stamp, host))
  {
    var a, b, c := U32(AUTH_SYS), U32(0), U32(stamp);
    WordsSnoc([], AUTH_SYS);
    WordsSnoc([AUTH_SYS], 0);
    WordsSnoc([AUTH_SYS, 0], stamp);
    assert [AUTH_SYS, 0] + [stamp] == [AUTH_SYS, 0, stamp];
    assert Words([AUTH_SYS, 0, stamp]) == a + b + c;
    var x, w := XdrOpaque(host), Words([0, 0, 1, 0]);
    assert EncodeIds(0, 0, [0]) == w by {
      assert [0, 0, 1] + [0] == [0, 0, 1, 0];
    }
    assert (a + b + c + x) + w == a + b + (c + (x + w));
  }

  /** Credential and verifier; the credential's length is written as zero first and patched at the end. */
  method AddAuthSys(counter: Counter, host: seq<byte>, wireBytes: array<byte>) returns (authSize: nat)
    requires |host| < 1024
    requires 40 + RoundUp4(|host|) <= wireBytes.Length
    modifies counter, wireBytes
    ensures counter.sequential == Draw(old(counter.sequential), 1)
    ensures authSize == 40 + RoundUp4(|host|)
    ensures wireBytes[..authSize] == AuthBytes(Draw32(old(counter.sequential), 0), host)
    ensures forall i :: authSize <= i < wireBytes.Length ==> wireBytes[i] == old(wireBytes[i])
  {
    authSize := 0;
    ghost var ws := [];
    var n := AppendWord(wireBytes, authSize, AUTH_SYS, [], ws);
    ws, authSize := ws + [AUTH_SYS], authSize + n;
    var credPayloadSizeOffset := authSize;
    n := AppendWord(wireBytes, authSize, 0, [], ws);
    ws, authSize := ws + [0], authSize + n;
    var credPayloadBegin := authSize;
    var draw := counter.GetMonotonic();
    var authStamp := ToUint32(draw);
    n := AppendWord(wireBytes, authSize, authStamp, [], ws);
    ws, authSize := ws + [authStamp], authSize + n;
    assert ws == [AUTH_SYS, 0, authStamp];
    n := AppendString(wireBytes, authSize, host, Words(ws));
    authSize := authSize + n;
    n := AddIds(wireBytes, authSize, Words(ws) + XdrOpaque(host));
    authSize := authSize + n;
    UnpatchedCredential(authStamp, host);
    n := FinishAuth(wireBytes, authSize, credPayloadSizeOffset, credPayloadBegin, authStamp, host);
    authSize := authSize + n;
  }

  /** User 0, group 0, and one supplementary group, which is group 0. */
  method AddIds(wireBytes: array<byte>, size: nat, ghost base: seq<byte>) returns (written: nat)
    requires size + 16 <= wireBytes.Length
    requires wireBytes[..size] == base
    modifies wireBytes
    ensures written == 16
    ensures wireBytes[..size + 16] == base + Words([0, 0, 1, 0])
    ensures forall i :: size + 16 <= i < wireBytes.Length ==> wireBytes[i] == old(wireBytes[i])
  {
    ghost var ws := [];
    assert base + Words(ws) == base;
    written := 0;
    var n := AppendWord(wireBytes, size + written, 0, base, ws);
    ws, written := ws + [0], written + n;
    n := AppendWord(wireBytes, size + written, 0, base, ws);
    ws, written := ws + [0], written + n;
    n := AppendWord(wireBytes, size + written, 1, base, ws);
    ws, written := ws + [1], written + n;
    n := AppendWord(wireBytes, size + written, 0, base, ws);
    ws, written := ws + [0], written + n;
    assert ws == [0, 0, 1, 0];
  }

  /** Patches the credential length and adds the verifier. */
  method FinishAuth(wireBytes: array<byte>, size: nat, credPayloadSizeOffset: nat, credPayloadBegin: nat,
                    ghost stamp: uint32, ghost host: seq<byte>) returns (written: nat)
    requires |host| < 1024
    requires credPayloadSizeOffset == 4 && credPayloadBegin == 8
    requires size == 32 + RoundUp4(|host|) && size + 8 <= wireBytes.Length
    requires wireBytes[..size] == U32(AUTH_SYS) + U32(0) + EncodeAuthSys(Credential(stamp, host))
    modifies wireBytes
    ensures written == 8
    ensures wireBytes[..size + 8] == AuthBytes(stamp, host)
    ensures forall i :: size + 8 <= i < wireBytes.Length ==> wireBytes[i] == old(wireBytes[i])
  {
    ghost var cred := EncodeAuthSys(Credential(stamp, host));
    ghost var auth := OpaqueAuth(AUTH_SYS, cred);
    ghost var before := wireBytes[..size];
    assert before[..4] == wireBytes[..4] == U32(AUTH_SYS);
    var n := EncodeU32(wireBytes, credPayloadSizeOffset, size - credPayloadBegin);
    Patched(before, wireBytes[..size], U32(AUTH_SYS), U32(0), U32(|cred|), cred);
    assert XdrOpaque(cred) == U32(|cred|) + cred;
    Assoc(U32(AUTH_SYS), U32(|cred|), cred);
    written := 0;
    n := AppendWord(wireBytes, size, AUTH_NONE, EncodeAuth(auth), []);
    written := written + n;
    n := AppendWord(wireBytes, size + written, 0, EncodeAuth(auth), [AUTH_NONE]);
    written := written + n;
    assert Words([AUTH_NONE] + [0]) == EncodeAuth(OpaqueAuth(AUTH_NONE, [])) by {
      WordsSnoc([AUTH_NONE], 0);
      assert XdrOpaque([]) == U32(0);
    }
  }
}
