/**
  The ONC RPC messages of RFC 5531, the port mapper arguments of RFC 1833 and the NFS structures of RFC
  1813, as pure serializers, with the decoders a peer would use.  The code is compared with these; nothing
  here follows the code.
 */
module Messages {
  import opened Bytes
  import opened Xdr

  // ------------------------------------------------------------------ items and their decoders

  /** Consecutive words. */
  ghost function Words(ws: seq<uint32>): (bs: seq<byte>)
    ensures |bs| == 4 * |ws|
  {
    if ws == [] then [] else U32(ws[0]) + Words(ws[1..])
  }

  /** A variable-length array of words (section 4.13 of RFC 4506). */
  ghost function XdrWords(ws: seq<uint32>): (bs: seq<byte>)
    requires |ws| < 0x1_0000_0000
    ensures |bs| == 4 + 4 * |ws|
  {
    U32(|ws|) + Words(ws)
  }

  lemma {:induction false} WordsSnoc(ws: seq<uint32>, w: uint32)
    ensures Words(ws + [w]) == Words(ws) + U32(w)
  {
    if ws == [] {
      assert Words([w]) == U32(w) + Words([]);
    } else {
      assert (ws + [w])[1..] == ws[1..] + [w];
      WordsSnoc(ws[1..], w);
    }
  }

  function TakeWord(s: seq<byte>): (r: Option<(uint32, seq<byte>)>)
    ensures r.Some? <==> 4 <= |s|
    ensures r.Some? ==> s == U32(r.value.0) + r.value.1
  {
    if |s| < 4 then None
    else
      BytesOfWord(s, 0);
      assert s == s[0..4] + s[4..];
      Some((WordAt(s, 0), s[4..]))
  }

  function TakeWords(n: nat, s: seq<byte>): (r: Option<(seq<uint32>, seq<byte>)>)
    ensures r.Some? ==> |r.value.0| == n && s == Words(r.value.0) + r.value.1
  {
    if n == 0 then Some(([], s))
    else
      var (w, s') :- TakeWord(s);
      var (ws, s'') :- TakeWords(n - 1, s');
      Some(([w] + ws, s''))
  }

  /** Bytes whose padding is not zero are rejected. */
  function TakeOpaque(s: seq<byte>): (r: Option<(seq<byte>, seq<byte>)>)
    ensures r.Some? ==> |r.value.0| < 0x1_0000_0000 && s == XdrOpaque(r.value.0) + r.value.1
  {
    var (n, s') :- TakeWord(s);
    var end := RoundUp4(n);
    if |s'| < end || s'[n..end] != Zeros(Pad(n)) then None
    else
      assert s' == s'[..n] + s'[n..end] + s'[end..];
      assert U32(n) + s' == U32(n) + s'[..n] + s'[n..end] + s'[end..];
      Some((s'[..n], s'[end..]))
  }

  lemma TakeWordInverts(w: uint32, rest: seq<byte>)
    ensures TakeWord(U32(w) + rest) == Some((w, rest))
  {
    var s := U32(w) + rest;
    assert Holds(s, 0, U32(w));
    HoldsWord(s, 0, w);
    assert s[4..] == rest;
  }

  lemma {:induction false} HoldsWords(s: seq<byte>, at: nat, ws: seq<uint32>, i: nat)
    requires Holds(s, at, Words(ws)) && i < |ws|
    ensures WordAt(s, at + 4 * i) == ws[i]
    decreases i
  {
    HoldsParts(s, at, U32(ws[0]), Words(ws[1..]));
    if i == 0 {
      HoldsWord(s, at, ws[0]);
    } else {
      HoldsWords(s, at + 4, ws[1..], i - 1);
    }
  }

  lemma {:induction false} TakeWordsInverts(ws: seq<uint32>, rest: seq<byte>)
    ensures TakeWords(|ws|, Words(ws) + rest) == Some((ws, rest))
  {
    if ws == [] {
      assert Words(ws) + rest == rest;
    } else {
      assert Words(ws) + rest == U32(ws[0]) + (Words(ws[1..]) + rest);
      TakeWordInverts(ws[0], Words(ws[1..]) + rest);
      TakeWordsInverts(ws[1..], rest);
      assert ws == [ws[0]] + ws[1..];
    }
  }

  lemma TakeOpaqueInverts(bs: seq<byte>, rest: seq<byte>)
    requires |bs| < 0x1_0000_0000
    ensures TakeOpaque(XdrOpaque(bs) + rest) == Some((bs, rest))
  {
    var n := |bs|;
    var s' := bs + Zeros(Pad(n)) + rest;
    assert XdrOpaque(bs) + rest == U32(n) + s';
    TakeWordInverts(n, s');
    assert s'[..n] == bs && s'[n..RoundUp4(n)] == Zeros(Pad(n)) && s'[RoundUp4(n)..] == rest;
  }

  // ------------------------------------------------------------------ call messages (section 9 of RFC 5531)

  const AUTH_NONE: uint32 := 0
  const AUTH_SYS: uint32 := 1
  const CALL: uint32 := 0
  const REPLY: uint32 := 1

  datatype OpaqueAuth = OpaqueAuth(flavor: uint32, body: seq<byte>) {
    predicate Valid() {
      |body| < 0x1_0000_0000
    }
  }

  datatype CallMessage = CallMessage(xid: uint32, rpcvers: uint32, prog: uint32, vers: uint32, procedure: uint32,
                                     cred: OpaqueAuth, verf: OpaqueAuth, args: seq<byte>)
  {
    predicate Valid() {
      cred.Valid() && verf.Valid()
    }
  }

  ghost function EncodeAuth(a: OpaqueAuth): (bs: seq<byte>)
    requires a.Valid()
    ensures |bs| == 8 + RoundUp4(|a.body|)
  {
    U32(a.flavor) + XdrOpaque(a.body)
  }

  ghost function EncodeCall(c: CallMessage): (bs: seq<byte>)
    requires c.Valid()
  {
    Words([c.xid, CALL, c.rpcvers, c.prog, c.vers, c.procedure])
    + (EncodeAuth(c.cred) + (EncodeAuth(c.verf) + c.args))
  }

  function TakeAuth(s: seq<byte>): (r: Option<(OpaqueAuth, seq<byte>)>)
    ensures r.Some? ==> r.value.0.Valid() && s == EncodeAuth(r.value.0) + r.value.1
  {
    var (flavor, s') :- TakeWord(s);
    var (body, rest) :- TakeOpaque(s');
    assert U32(flavor) + (XdrOpaque(body) + rest) == EncodeAuth(OpaqueAuth(flavor, body)) + rest;
    Some((OpaqueAuth(flavor, body), rest))
  }

  lemma TakeAuthInverts(a: OpaqueAuth, rest: seq<byte>)
    requires a.Valid()
    ensures TakeAuth(EncodeAuth(a) + rest) == Some((a, rest))
  {
    assert EncodeAuth(a) + rest == U32(a.flavor) + (XdrOpaque(a.body) + rest);
    TakeWordInverts(a.flavor, XdrOpaque(a.body) + rest);
    TakeOpaqueInverts(a.body, rest);
  }

  function TakeAuths(s: seq<byte>): (r: Option<(OpaqueAuth, OpaqueAuth, seq<byte>)>)
    ensures r.Some? ==> r.value.0.Valid() && r.value.1.Valid()
                        && s == EncodeAuth(r.value.0) + (EncodeAuth(r.value.1) + r.value.2)
  {
    var (cred, s') :- TakeAuth(s);
    var (verf, args) :- TakeAuth(s');
    Some((cred, verf, args))
  }

  /** The arguments are whatever follows the verifier. */
  function DecodeCall(s: seq<byte>): (r: Option<CallMessage>)
    ensures r.Some? ==> r.value.Valid() && EncodeCall(r.value) == s
  {
    var (ws, s') :- TakeWords(6, s);
    var (cred, verf, args) :- TakeAuths(s');
    if ws[1] != CALL then None
    else
      assert ws == [ws[0], CALL, ws[2], ws[3], ws[4], ws[5]];
      Some(CallMessage(ws[0], ws[2], ws[3], ws[4], ws[5], cred, verf, args))
  }

  /** The decoder accepts exactly the encodings, so a message determines its bytes and is determined by them. */
  lemma CallRoundTrip(c: CallMessage)
    requires c.Valid()
    ensures DecodeCall(EncodeCall(c)) == Some(c)
  {
    TakeWordsInverts([c.xid, CALL, c.rpcvers, c.prog, c.vers, c.procedure],
                     EncodeAuth(c.cred) + (EncodeAuth(c.verf) + c.args));
    TakeAuthInverts(c.cred, EncodeAuth(c.verf) + c.args);
    TakeAuthInverts(c.verf, c.args);
  }

  // ------------------------------------------------------------------ AUTH_SYS parameters (Appendix A of RFC 5531)

  datatype AuthSysParms = AuthSysParms(stamp: uint32, machine: seq<byte>, uid: uint32, gid: uint32, gids: seq<uint32>) {
    predicate Valid() {
      |machine| < 0x1_0000_0000 && |gids| < 0x1_0000_0000
    }
  }

  ghost function EncodeIds(uid: uint32, gid: uint32, gids: seq<uint32>): (bs: seq<byte>)
    requires |gids| < 0x1_0000_0000
    ensures |bs| == 12 + 4 * |gids|
  {
    Words([uid, gid, |gids|] + gids)
  }

  ghost function EncodeAuthSys(p: AuthSysParms): (bs: seq<byte>)
    requires p.Valid()
    ensures |bs| == 20 + RoundUp4(|p.machine|) + 4 * |p.gids|
  {
    U32(p.stamp) + (XdrOpaque(p.machine) + EncodeIds(p.uid, p.gid, p.gids))
  }

  function DecodeIds(s: seq<byte>): (r: Option<(uint32, uint32, seq<uint32>)>)
    ensures r.Some? ==> |r.value.2| < 0x1_0000_0000 && EncodeIds(r.value.0, r.value.1, r.value.2) == s
  {
    if |s| % 4 != 0 then None
    else
      var (ws, rest) :- TakeWords(|s| / 4, s);
      if |ws| < 3 || ws[2] != |ws| - 3 then None
      else
        assert ws == [ws[0], ws[1], |ws[3..]|] + ws[3..];
        Some((ws[0], ws[1], ws[3..]))
  }

  lemma DecodeIdsInverts(uid: uint32, gid: uint32, gids: seq<uint32>)
    requires |gids| < 0x1_0000_0000
    ensures DecodeIds(EncodeIds(uid, gid, gids)) == Some((uid, gid, gids))
  {
    var ws := [uid, gid, |gids|] + gids;
    TakeWordsInverts(ws, []);
    assert Words(ws) + [] == Words(ws);
    assert ws[3..] == gids;
  }

  function DecodeAuthSys(s: seq<byte>): (r: Option<AuthSysParms>)
    ensures r.Some? ==> r.value.Valid() && EncodeAuthSys(r.value) == s
  {
    var (stamp, s') :- TakeWord(s);
    var (machine, s'') :- TakeOpaque(s');
    var (uid, gid, gids) :- DecodeIds(s'');
    Some(AuthSysParms(stamp, machine, uid, gid, gids))
  }

  lemma AuthSysRoundTrip(p: AuthSysParms)
    requires p.Valid()
    ensures DecodeAuthSys(EncodeAuthSys(p)) == Some(p)
  {
    var ids := EncodeIds(p.uid, p.gid, p.gids);
    TakeWordInverts(p.stamp, XdrOpaque(p.machine) + ids);
    TakeOpaqueInverts(p.machine, ids);
    DecodeIdsInverts(p.uid, p.gid, p.gids);
  }
}
