/**
  Replies: the RPC reply messages of RFC 5531 and the MNT results of RFC 1813 as a server encodes them, the
  client's reply parser and its MNT result decoder, and exactly when they agree.
 */
module Replies {
  import opened Bytes
  import opened Xdr
  import opened Messages
  import opened Monotonic

  const MSG_ACCEPTED: uint32 := 0
  const MSG_DENIED: uint32 := 1
  const RPC_MISMATCH: uint32 := 0
  const AUTH_ERROR: uint32 := 1
  const SUCCESS: uint32 := 0
  const PROG_MISMATCH: uint32 := 2
  const MNT3_OK: uint32 := 0
  const FHSIZE3: uint32 := 64

  // ------------------------------------------------------------------ replies as a server sends them

  /** Failure codes are PROG_UNAVAIL, PROC_UNAVAIL, GARBAGE_ARGS and SYSTEM_ERR. */
  datatype AcceptedBody = Success(results: seq<byte>) | ProgMismatch(low: uint32, high: uint32) | Failure(code: uint32)

  datatype RejectedBody = RpcMismatch(low: uint32, high: uint32) | AuthError(why: uint32)

  datatype Reply =
    | Accepted(xid: uint32, verf: OpaqueAuth, body: AcceptedBody)
    | Denied(xid: uint32, reason: RejectedBody)
  {
    predicate Valid() {
      Accepted? ==> verf.Valid() && (body.Failure? ==> body.code in {1, 3, 4, 5})
    }
  }

  ghost function EncodeAccepted(b: AcceptedBody): seq<byte> {
    match b
    case Success(results) => U32(0) + results
    case ProgMismatch(low, high) => Words([2, low, high])
    case Failure(code) => U32(code)
  }

  ghost function EncodeRejected(b: RejectedBody): seq<byte> {
    match b
    case RpcMismatch(low, high) => Words([0, low, high])
    case AuthError(why) => Words([1, why])
  }

  ghost function EncodeReply(r: Reply): seq<byte>
    requires r.Valid()
  {
    match r
    case Accepted(xid, verf, body) => Words([xid, 1, 0]) + (EncodeAuth(verf) + EncodeAccepted(body))
    case Denied(xid, reason) => Words([xid, 1, 1]) + EncodeRejected(reason)
  }

  /** What the caller of the parser is after: where the results of a successful reply to its own call start. */
  datatype ParseOutcome = Payload(at: nat) | Rejected | Aborted

  function Meaning(r: Reply, xid: uint32): ParseOutcome {
    if r.xid == xid && r.Accepted? && r.body.Success? then Payload(24 + RoundUp4(|r.verf.body|)) else Rejected
  }

  // ------------------------------------------------------------------ the parser

  /** `Aborted` is the failed assertion on an unknown rejection; the message type is not looked at. */
  function Parse(s: seq<byte>, xid: uint32): ParseOutcome
    requires 32 <= |s|
  {
    if WordAt(s, 0) != xid then Rejected
    else if WordAt(s, 8) == MSG_DENIED then
      if WordAt(s, 12) == RPC_MISMATCH || WordAt(s, 12) == AUTH_ERROR then Rejected else Aborted
    else if WordAt(s, 20) == SUCCESS then Payload(24)
    else Rejected
  }

  /** `responseSize` is not used: the parser reads the buffer whatever was received into it. */
  method ParseAndStripRPC(wireResponse: array<byte>, responseSize: int, xid: uint32) returns (outcome: ParseOutcome)
    requires 32 <= wireResponse.Length
    ensures outcome == Parse(wireResponse[..], xid)
  {
    var parsedOffset := 0;
    var recvXid, rpcType, replyType, word, low, high;
    recvXid, parsedOffset := DecodeU32(wireResponse, parsedOffset);
    if recvXid != xid {
      return Rejected;
    }
    rpcType, parsedOffset := DecodeU32(wireResponse, parsedOffset);
    replyType, parsedOffset := DecodeU32(wireResponse, parsedOffset);
    if replyType == MSG_DENIED {
      word, parsedOffset := DecodeU32(wireResponse, parsedOffset);
      if word == RPC_MISMATCH {
        low, parsedOffset := DecodeU32(wireResponse, parsedOffset);
        high, parsedOffset := DecodeU32(wireResponse, parsedOffset);
        return Rejected;
      }
      if word != AUTH_ERROR {
        return Aborted;
      }
      word, parsedOffset := DecodeU32(wireResponse, parsedOffset);
      return Rejected;
    }
    word, parsedOffset := DecodeU32(wireResponse, parsedOffset);
    word, parsedOffset := DecodeU32(wireResponse, parsedOffset);
    word, parsedOffset := DecodeU32(wireResponse, parsedOffset);
    if word == SUCCESS {
      return Payload(parsedOffset);
    }
    if word == PROG_MISMATCH {
      low, parsedOffset := DecodeU32(wireResponse, parsedOffset);
      high, parsedOffset := DecodeU32(wireResponse, parsedOffset);
    }
    return Rejected;
  }

  /** The first word of the verifier's body, padding included, is zero. */
  ghost predicate StartsWithZeroWord(body: seq<byte>) {
    forall i :: 0 <= i < |body| && i < 4 ==> body[i] == 0
  }

  /** The condition under which the parser understands a reply. */
  ghost predicate Understood(r: Reply, xid: uint32) {
    || r.xid != xid
    || r.Denied?
    || r.verf.body == []
    || (!r.body.Success? && !StartsWithZeroWord(r.verf.body))
  }

  /** The parser on the words of its buffer. */
  lemma ParserOnWords(s: seq<byte>, xid: uint32)
    requires 32 <= |s|
    ensures Parse(s, xid) == Payload(24) <==> WordAt(s, 0) == xid && WordAt(s, 8) != 1 && WordAt(s, 20) == 0
    ensures Parse(s, xid) == Aborted <==> WordAt(s, 0) == xid && WordAt(s, 8) == 1 && WordAt(s, 12) > 1
    ensures Parse(s, xid) != Payload(24) && Parse(s, xid) != Aborted ==> Parse(s, xid) == Rejected
  {
  }

  lemma AcceptedParts(s: seq<byte>, r: Reply)
    requires r.Valid() && r.Accepted?
    requires Holds(s, 0, EncodeReply(r))
    ensures WordAt(s, 0) == r.xid
    ensures WordAt(s, 8) == MSG_ACCEPTED
    ensures Holds(s, 16, XdrOpaque(r.verf.body))
    ensures Holds(s, 20 + RoundUp4(|r.verf.body|), EncodeAccepted(r.body))
  {
    var ws, auth, x := [r.xid, REPLY, MSG_ACCEPTED], EncodeAuth(r.verf), EncodeAccepted(r.body);
    HoldsParts(s, 0, Words(ws), auth + x);
    HoldsWords(s, 0, ws, 0);
    HoldsWords(s, 0, ws, 2);
    HoldsParts(s, 12, auth, x);
    HoldsParts(s, 12, U32(r.verf.flavor), XdrOpaque(r.verf.body));
  }

  lemma StatusWord(s: seq<byte>, at: nat, b: AcceptedBody)
    requires b.Failure? ==> b.code in {1, 3, 4, 5}
    requires Holds(s, at, EncodeAccepted(b))
    ensures at + 4 <= |s|
    ensures WordAt(s, at) == SUCCESS <==> b.Success?
    ensures b.Success? ==> Holds(s, at + 4, b.results)
  {
    match b
    case Success(results) =>
      HoldsParts(s, at, U32(SUCCESS), results);
      HoldsWord(s, at, SUCCESS);
    case ProgMismatch(low, high) =>
      HoldsWords(s, at, [PROG_MISMATCH, low, high], 0);
    case Failure(code) =>
      HoldsWord(s, at, code);
  }

  /** Four bytes into a non-empty opaque item stands its first word, padded with zeros. */
  lemma FirstOpaqueWord(s: seq<byte>, at: nat, body: seq<byte>)
    requires 0 < |body| < 0x1_0000_0000
    requires Holds(s, at, XdrOpaque(body))
    ensures WordAt(s, at + 4) == 0 <==> StartsWithZeroWord(body)
  {
    OpaqueInside(s, at, body);
    ZeroWordAt(s, at + 4);
    var k, z := |body|, Zeros(Pad(|body|));
    assert forall i :: 0 <= i < k ==> s[at + 4 + i] == body[i];
    assert forall i :: 0 <= i < |z| ==> s[at + 4 + k + i] == z[i];
  }

  lemma AcceptedParsed(s: seq<byte>, r: Reply)
    requires r.Valid() && r.Accepted?
    requires 32 <= |s| && Holds(s, 0, EncodeReply(r))
    ensures Parse(s, r.xid) == (if WordAt(s, 20) == SUCCESS then Payload(24) else Rejected)
    ensures r.verf.body == [] ==> (WordAt(s, 20) == SUCCESS <==> r.body.Success?)
    ensures r.verf.body != [] ==> (WordAt(s, 20) == SUCCESS <==> StartsWithZeroWord(r.verf.body))
  {
    AcceptedParts(s, r);
    if r.verf.body == [] {
      StatusWord(s, 20, r.body);
    } else {
      FirstOpaqueWord(s, 16, r.verf.body);
    }
  }

  lemma DeniedParsed(s: seq<byte>, r: Reply)
    requires r.Denied?
    requires 32 <= |s| && Holds(s, 0, EncodeReply(r))
    ensures Parse(s, r.xid) == Rejected
  {
    var head := [r.xid, REPLY, MSG_DENIED];
    HoldsParts(s, 0, Words(head), EncodeRejected(r.reason));
    HoldsWords(s, 0, head, 2);
    match r.reason
    case RpcMismatch(low, high) => HoldsWords(s, 12, [RPC_MISMATCH, low, high], 0);
    case AuthError(why) => HoldsWords(s, 12, [AUTH_ERROR, why], 0);
  }

  lemma RepliesParsed(s: seq<byte>, r: Reply, xid: uint32)
    requires r.Valid() && 32 <= |s| && Holds(s, 0, EncodeReply(r))
    ensures Parse(s, xid) == Rejected || Parse(s, xid) == Payload(24)
  {
    ReplyXid(s, r);
    if r.Accepted? {
      AcceptedParsed(s, r);
    } else {
      DeniedParsed(s, r);
    }
  }

  lemma ReplyXid(s: seq<byte>, r: Reply)
    requires r.Valid() && Holds(s, 0, EncodeReply(r))
    ensures 4 <= |s| && WordAt(s, 0) == r.xid
  {
    if r.Accepted? {
      AcceptedParts(s, r);
    } else {
      var head := [r.xid, REPLY, MSG_DENIED];
      HoldsParts(s, 0, Words(head), EncodeRejected(r.reason));
      HoldsWords(s, 0, head, 0);
    }
  }

  /**
    The parser gives every well-formed reply its meaning exactly when it understands it: it does not skip a
    verifier body, so a successful reply with one is always misread, and a failed one is misread when its
    verifier starts with a zero word.
   */
  lemma ParserExact(s: seq<byte>, r: Reply, xid: uint32)
    requires r.Valid()
    requires 32 <= |s| && Holds(s, 0, EncodeReply(r))
    ensures Parse(s, xid) == Meaning(r, xid) <==> Understood(r, xid)
  {
    ReplyXid(s, r);
    if r.Accepted? {
      AcceptedParsed(s, r);
    } else {
      DeniedParsed(s, r);
    }
  }

  // ------------------------------------------------------------------ other messages

  /** The message type is read and logged, and nothing depends on it. */
  lemma ParseIgnoresType(s: seq<byte>, t: uint32, xid: uint32)
    requires 32 <= |s|
    ensures Parse(Splice(s, 4, U32(t)), xid) == Parse(s, xid)
  {
    hide U32;
    var s' := Splice(s, 4, U32(t));
    assert forall i :: 0 <= i < |s| && (i < 4 || 8 <= i) ==> s'[i] == s[i];
    assert s'[0..4] == s[0..4] && s'[8..12] == s[8..12] && s'[12..16] == s[12..16] && s'[20..24] == s[20..24];
  }

  /**
    A call is the other message there is.  It is taken for a successful reply, with its credential for the
    results, exactly when it has the caller's xid, asks for procedure 0, and its RPC version is not 1, which
    would stand where MSG_DENIED does.
   */
  lemma CallTakenForReply(s: seq<byte>, c: CallMessage, xid: uint32)
    requires c.Valid() && 32 <= |s| && Holds(s, 0, EncodeCall(c))
    ensures Parse(s, xid) == Payload(24) <==> c.xid == xid && c.procedure == 0 && c.rpcvers != 1
    ensures Parse(s, xid) != Payload(24) ==> !Parse(s, xid).Payload?
  {
    var ws := [c.xid, CALL, c.rpcvers, c.prog, c.vers, c.procedure];
    HoldsParts(s, 0, Words(ws), EncodeAuth(c.cred) + (EncodeAuth(c.verf) + c.args));
    HoldsWords(s, 0, ws, 0);
    HoldsWords(s, 0, ws, 2);
    HoldsWords(s, 0, ws, 5);
  }

  /** For one, the call of the NULL procedure of NFS. */
  lemma NullCallTakenForReply(xid: uint32)
    ensures var none := OpaqueAuth(AUTH_NONE, []);
            var s := EncodeCall(CallMessage(xid, 2, 100003, 3, 0, none, none, []));
            32 <= |s| && Parse(s, xid) == Payload(24)
  {
    var none := OpaqueAuth(AUTH_NONE, []);
    var c := CallMessage(xid, 2, 100003, 3, 0, none, none, []);
    assert Holds(EncodeCall(c), 0, EncodeCall(c));
    CallTakenForReply(EncodeCall(c), c, xid);
  }

  /** The place a successful reply's meaning names is where its results stand. */
  lemma PayloadIsResults(s: seq<byte>, r: Reply)
    requires r.Valid() && r.Accepted? && r.body.Success?
    requires Holds(s, 0, EncodeReply(r))
    ensures Holds(s, Meaning(r, r.xid).at, r.body.results)
  {
    AcceptedParts(s, r);
    StatusWord(s, 20 + RoundUp4(|r.verf.body|), r.body);
  }

  /** In a run of at most 2^32 draws a reply to any other call of the run is rejected, however late it comes. */
  lemma StaleReplyRejected(seed: uint64, run: seq<bool>, mine: nat, other: nat, s: seq<byte>)
    requires mine < |run| && other < |run| && mine != other
    requires DrawnBefore(run, |run|) <= 0x1_0000_0000
    requires 32 <= |s| && WordAt(s, 0) == Xid(seed, run, other)
    ensures Parse(s, Xid(seed, run, mine)) == Rejected
  {
    if mine < other {
      XidsDistinct(seed, run, mine, other);
    } else {
      XidsDistinct(seed, run, other, mine);
    }
  }

  // ------------------------------------------------------------------ MNT results (Appendix I of RFC 1813)

  ghost function EncodeMountOk(fhandle: seq<byte>, flavors: seq<uint32>): (bs: seq<byte>)
    requires |fhandle| <= 64 && |flavors| < 0x1_0000_0000
    ensures |bs| == 12 + RoundUp4(|fhandle|) + 4 * |flavors|
  {
    U32(0) + (XdrOpaque(fhandle) + XdrWords(flavors))
  }

  /** The n words from `at` on, if all of them lie in the buffer. */
  function ReadWords(s: seq<byte>, at: nat, n: nat): (r: Option<seq<uint32>>)
    ensures n > 0 ==> (r.Some? <==> at + 4 * n <= |s|)
    ensures r.Some? ==> |r.value| == n
    decreases n
  {
    if n == 0 then Some([])
    else if |s| < at + 4 then None
    else
      var rest :- ReadWords(s, at + 4, n - 1);
      Some([WordAt(s, at)] + rest)
  }

  lemma {:induction false} ReadWordsAre(s: seq<byte>, at: nat, n: nat, i: nat)
    requires i < n && ReadWords(s, at, n).Some?
    ensures at + 4 * i + 4 <= |s| && ReadWords(s, at, n).value[i] == WordAt(s, at + 4 * i)
    decreases n
  {
    if i > 0 {
      ReadWordsAre(s, at + 4, n - 1, i - 1);
    }
  }

  datatype MountView = MountView(status: uint32, fhandle: seq<byte>, flavors: seq<uint32>, end: nat)

  /** What the MNT decoding makes of a payload; None when it would read behind the buffer. */
  function MountDecode(s: seq<byte>, at: nat, fhandle: seq<byte>): Option<MountView> {
    if |s| < at + 4 then None
    else if WordAt(s, at) != MNT3_OK then Some(MountView(WordAt(s, at), fhandle, [], at + 4))
    else if |s| < at + 8 then None
    else
      var n := WordAt(s, at + 4);
      if n <= FHSIZE3 then
        if |s| < at + 8 + n then None
        else MountDecodeFlavors(s, at + 8 + n, fhandle + s[at + 8..at + 8 + n])
      else MountDecodeFlavors(s, at + 8, fhandle)
  }

  function MountDecodeFlavors(s: seq<byte>, at: nat, fhandle: seq<byte>): Option<MountView> {
    if |s| < at + 4 then None
    else
      var flavors :- ReadWords(s, at + 4, WordAt(s, at));
      Some(MountView(MNT3_OK, fhandle, flavors, at + 4 + 4 * |flavors|))
  }

  lemma {:induction false} ReadWordsInverts(s: seq<byte>, at: nat, ws: seq<uint32>)
    requires Holds(s, at, Words(ws))
    ensures ReadWords(s, at, |ws|) == Some(ws)
    decreases |ws|
  {
    hide WordAt, U32;
    if ws != [] {
      HoldsParts(s, at, U32(ws[0]), Words(ws[1..]));
      HoldsWord(s, at, ws[0]);
      ReadWordsInverts(s, at + 4, ws[1..]);
      assert ws == [ws[0]] + ws[1..];
    }
  }

  /** Reading a count p bytes too early, in the padding, divides it by 256^p. */
  lemma CountReadEarly(s: seq<byte>, at: nat, p: nat, k: uint32)
    requires 0 < p < 4
    requires Holds(s, at, Zeros(p)) && Holds(s, at + p, U32(k))
    ensures 256 * WordAt(s, at) <= k
  {
    var z, b := s[at..at + p], s[at + p..at + p + 4];
    WeightOfFour(b);
    WordAtIs(s, at);
    assert s[at] == z[0] == 0;
    if p == 1 {
      assert s[at + 1] == b[0] && s[at + 2] == b[1] && s[at + 3] == b[2];
    } else if p == 2 {
      assert s[at + 1] == z[1] == 0 && s[at + 2] == b[0] && s[at + 3] == b[1];
    } else {
      assert s[at + 1] == z[1] == 0 && s[at + 2] == z[2] == 0 && s[at + 3] == b[0];
    }
  }

  /** Whatever status other than 0 a server answers with, the handle is left alone. */
  lemma MountErrorKeepsHandle(s: seq<byte>, at: nat, status: uint32, before: seq<byte>)
    requires status != 0 && Holds(s, at, U32(status))
    ensures var view := MountDecode(s, at, before);
            && view.Some?
            && view.value.status == status
            && view.value.fhandle == before
            && view.value.flavors == []
            && view.value.end == at + 4
  {
    HoldsWord(s, at, status);
  }

  lemma FlavorsRead(s: seq<byte>, at: nat, fhandle: seq<byte>, flavors: seq<uint32>)
    requires |flavors| < 0x1_0000_0000 && Holds(s, at, XdrWords(flavors))
    ensures MountDecodeFlavors(s, at, fhandle) == Some(MountView(0, fhandle, flavors, at + 4 + 4 * |flavors|))
  {
    hide WordAt, U32, ReadWords;
    HoldsParts(s, at, U32(|flavors|), Words(flavors));
    HoldsWord(s, at, |flavors|);
    ReadWordsInverts(s, at + 4, flavors);
  }

  /** A handle announced longer than 64 bytes is left out, and the flavors are read where it starts. */
  lemma MountLongHandle(s: seq<byte>, at: nat, before: seq<byte>, flavors: seq<uint32>)
    requires at + 8 <= |s| && WordAt(s, at) == 0 && WordAt(s, at + 4) > 64
    requires |flavors| < 0x1_0000_0000 && Holds(s, at + 8, XdrWords(flavors))
    ensures MountDecode(s, at, before) == Some(MountView(0, before, flavors, at + 12 + 4 * |flavors|))
  {
    hide WordAt, U32, ReadWords;
    assert MountDecode(s, at, before) == MountDecodeFlavors(s, at + 8, before);
    FlavorsRead(s, at + 8, before, flavors);
  }

  /**
    Decoding an OK reply: the handle always arrives; because the padding behind it is not skipped, the
    flavor list arrives exactly when there is no padding or no flavor, and the offset ends at the end of the
    results exactly when there is no padding.
   */
  lemma MountReplyExact(s: seq<byte>, at: nat, fhandle: seq<byte>, flavors: seq<uint32>, before: seq<byte>)
    requires |fhandle| <= 64 && |flavors| < 0x1_0000_0000
    requires Holds(s, at, EncodeMountOk(fhandle, flavors))
    ensures var view := MountDecode(s, at, before);
            && view.Some?
            && view.value.status == MNT3_OK
            && view.value.fhandle == before + fhandle
            && (view.value.flavors == flavors <==> |fhandle| % 4 == 0 || flavors == [])
            && (view.value.end == at + |EncodeMountOk(fhandle, flavors)| <==> |fhandle| % 4 == 0)
  {
    hide *;
    HandleDecoded(s, at, fhandle, flavors, before);
    FlavorsExact(s, at + 8 + |fhandle|, |fhandle|, flavors, before + fhandle);
  }

  lemma HandleDecoded(s: seq<byte>, at: nat, fhandle: seq<byte>, flavors: seq<uint32>, before: seq<byte>)
    requires |fhandle| <= 64 && |flavors| < 0x1_0000_0000
    requires Holds(s, at, EncodeMountOk(fhandle, flavors))
    ensures MountDecode(s, at, before) == MountDecodeFlavors(s, at + 8 + |fhandle|, before + fhandle)
    ensures Holds(s, at + 8 + |fhandle|, Zeros(Pad(|fhandle|)))
    ensures Holds(s, at + 8 + RoundUp4(|fhandle|), XdrWords(flavors))
  {
    hide WordAt, U32, MountDecodeFlavors;
    HoldsParts(s, at, U32(MNT3_OK), XdrOpaque(fhandle) + XdrWords(flavors));
    HoldsWord(s, at, MNT3_OK);
    HoldsParts(s, at + 4, XdrOpaque(fhandle), XdrWords(flavors));
    OpaqueInside(s, at + 4, fhandle);
    assert s[at + 8..at + 8 + |fhandle|] == fhandle;
  }

  lemma FlavorsExact(s: seq<byte>, at: nat, n: nat, flavors: seq<uint32>, fhandle: seq<byte>)
    requires |flavors| < 0x1_0000_0000
    requires Holds(s, at, Zeros(Pad(n))) && Holds(s, at + Pad(n), XdrWords(flavors))
    ensures var view := MountDecodeFlavors(s, at, fhandle);
            && view.Some?
            && view.value.status == MNT3_OK
            && view.value.fhandle == fhandle
            && (view.value.flavors == flavors <==> n % 4 == 0 || flavors == [])
            && (view.value.end == at + Pad(n) + 4 + 4 * |flavors| <==> n % 4 == 0)
  {
    HoldsParts(s, at + Pad(n), U32(|flavors|), Words(flavors));
    if n % 4 == 0 {
      HoldsWord(s, at, |flavors|);
      ReadWordsInverts(s, at + 4, flavors);
    } else {
      CountReadEarly(s, at, Pad(n), |flavors|);
    }
  }
}
