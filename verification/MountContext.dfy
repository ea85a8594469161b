/**
  The classes MountContext and PortMapperContext: the call methods, tied to the effects that Mount and
  PortMapper specify.
 */
module MountContext {
  import opened Bytes
  import opened Xdr
  import opened Messages
  import opened RecordStream
  import opened Monotonic
  import opened Rpc
  import opened Calls
  import opened Replies
  import opened RemoteCall
  import opened Mount
  import opened PortMapper
  import S = Session
  import C = Context

  /** The descriptor in socketFd is open, and the one that the system hands out is not. */
  ghost predicate CanDial(s: S.State, d: S.Dial) {
    S.Sound(s) && S.LegalDial(S.Disconnected(s).open, d)
  }

  class MountContext {
    const context: C.Context
    var mountHandle: seq<byte>
    var mountVersion: uint32
    var mountExport: seq<byte>

    constructor (context: C.Context)
      ensures this.context == context && mountHandle == [] && mountVersion == 0xFFFF_FFFF && mountExport == []
    {
      this.context := context;
      mountHandle, mountVersion, mountExport := [], 0xFFFF_FFFF, [];
    }

    /** Appends the handle of an OK reply to mountHandle and reads the flavors behind it. */
    method DecodeMountReply(payload: array<byte>, at: nat)
      returns (status: uint32, flavors: seq<uint32>, payloadOffset: nat)
      requires MountDecode(payload[..], at, mountHandle).Some?
      modifies this`mountHandle
      ensures MountDecode(payload[..], at, old(mountHandle))
          == Some(MountView(status, mountHandle, flavors, payloadOffset))
    {
      hide WordAt, U32, ReadWords;
      payloadOffset := at;
      flavors := [];
      status, payloadOffset := DecodeU32(payload, payloadOffset);
      if status != MNT3_OK {
        return;
      }
      var result;
      result, mountHandle, payloadOffset := DecodeNBytes(payload, mountHandle, FHSIZE3, payloadOffset);
      assert payload[..][at + 8..payloadOffset] == payload[at + 8..payloadOffset];
      assert MountDecode(payload[..], at, old(mountHandle))
          == MountDecodeFlavors(payload[..], payloadOffset, mountHandle);
      flavors, payloadOffset := DecodeFlavors(payload, payloadOffset);
    }

    /** The count and the loop over the auth flavors. */
    method DecodeFlavors(payload: array<byte>, at: nat) returns (flavors: seq<uint32>, payloadOffset: nat)
      requires MountDecodeFlavors(payload[..], at, mountHandle).Some?
      ensures MountDecodeFlavors(payload[..], at, mountHandle)
          == Some(MountView(MNT3_OK, mountHandle, flavors, payloadOffset))
    {
      hide WordAt, U32, ReadWords;
      var numberAuths;
      numberAuths, payloadOffset := DecodeU32(payload, at);
      ghost var s := payload[..];
      ghost var all := ReadWords(s, at + 4, numberAuths).value;
      flavors := [];
      for i := 0 to numberAuths
        invariant payloadOffset == at + 4 + 4 * i
        invariant flavors == all[..i]
      {
        var authType;
        ReadWordsAre(s, at + 4, numberAuths, i);
        authType, payloadOffset := DecodeU32(payload, payloadOffset);
        flavors := flavors + [authType];
      }
      assert flavors == all;
    }

    /**
      MNT.  A missing payload and a failed parser assertion stop the program.  A frame that does not fit is
      built behind the request buffer; the model stops there.
     */
    method MakeMountCall(counter: Counter, host: seq<byte>, timeout: int, remote: seq<byte>, version: uint32,
                         authType: uint32, d: S.Dial, w: Wire)
      returns (outcome: Outcome, ghost garbage: seq<byte>)
      requires CanDial(context.State(), d)
      modifies this, context, context.os, counter
      ensures mountExport == remote && mountVersion == version
      ensures |garbage| == BUFFER_SIZE
      ensures authType == AUTH_SYS && MountFits(host, remote) ==>
                && counter.sequential == Draw(old(counter.sequential), 2)
                && Mounted(context.State(), mountHandle, outcome)
                   == MountEffect(old(context.State()), old(counter.sequential), host, remote, d, w, garbage,
                                  old(mountHandle))
      ensures authType == AUTH_SYS && !MountFits(host, remote) ==>
                Mounted(context.State(), mountHandle, outcome)
                == Mounted(S.Step(old(context.State()), S.ConnectMount(d)).state, old(mountHandle), WritesBeyond)
      ensures authType != AUTH_SYS ==>
                && counter.sequential == Draw(old(counter.sequential), 1)
                && Mounted(context.State(), mountHandle, outcome)
                   == Mounted(S.Step(old(context.State()), S.ConnectMount(d)).state, old(mountHandle), NotSent)
    {
      hide Exchange, MountDecode, S.ConnectedTo, S.Connected, S.Disconnected, S.LegalDial, S.Sound;
      hide EncodeCall, MountCall, Record, Draw, ToUint32, Zeros, RoundUp4, U32, Words;
      ghost var s := context.State();
      garbage := Zeros(BUFFER_SIZE);
      S.StepKeepsSound(s, S.ConnectMount(d));
      var code := context.ConnectMountPort(d);
      mountExport, mountVersion := remote, version;
      if authType != AUTH_SYS {
        var xid := counter.GetMonotonic();
        return NotSent, garbage;
      }
      if !MountFits(host, remote) {
        return WritesBeyond, garbage;
      }
      var wireRequest := new byte[BUFFER_SIZE];
      var requestSize, xid := BuildMountCall(counter, host, remote, MOUNTPROC3_MNT, wireRequest);
      var wireResponse, answer;
      wireResponse, answer, garbage := RunExchange(context, wireRequest, requestSize, xid, timeout, w);
      match answer
      case NeverReturns => return Hangs, garbage;
      case Overflows => return WritesBeyond, garbage;
      case Refused => return AssertionFails, garbage;
      case Asserts => return AssertionFails, garbage;
      case At(at) =>
        if MountDecode(wireResponse[..], at, mountHandle).None? {
          return ReadsBeyond, garbage;
        }
        var status, flavors, payloadOffset := DecodeMountReply(wireResponse, at);
        return Done, garbage;
    }

    /** UMNT.  The reply is parsed, and whatever it says is not looked at. */
    method MakeUmountCall(counter: Counter, host: seq<byte>, timeout: int, remote: seq<byte>, version: uint32,
                          authType: uint32, d: S.Dial, w: Wire)
      returns (outcome: Outcome, ghost garbage: seq<byte>)
      requires CanDial(context.State(), d)
      modifies this`mountExport, this`mountVersion, context, context.os, counter
      ensures mountExport == remote && mountVersion == version
      ensures |garbage| == BUFFER_SIZE
      ensures authType == AUTH_SYS && MountFits(host, remote) ==>
                && counter.sequential == Draw(old(counter.sequential), 2)
                && Unmounted(context.State(), outcome)
                   == UmountEffect(old(context.State()), old(counter.sequential), host, remote, d, w, garbage)
      ensures authType == AUTH_SYS && !MountFits(host, remote) ==>
                outcome == WritesBeyond && context.State() == S.Step(old(context.State()), S.ConnectMount(d)).state
      ensures authType != AUTH_SYS ==>
                && counter.sequential == Draw(old(counter.sequential), 1)
                && outcome == NotSent
                && context.State() == S.Step(old(context.State()), S.ConnectMount(d)).state
    {
      hide Exchange, S.ConnectedTo, S.Connected, S.Disconnected, S.LegalDial, S.Sound;
      hide EncodeCall, MountCall, Record, Draw, ToUint32, Zeros, RoundUp4, U32, Words;
      ghost var s := context.State();
      garbage := Zeros(BUFFER_SIZE);
      S.StepKeepsSound(s, S.ConnectMount(d));
      var code := context.ConnectMountPort(d);
      mountExport, mountVersion := remote, version;
      if authType != AUTH_SYS {
        var xid := counter.GetMonotonic();
        return NotSent, garbage;
      }
      if !MountFits(host, remote) {
        return WritesBeyond, garbage;
      }
      var wireRequest := new byte[BUFFER_SIZE];
      var requestSize, xid := BuildMountCall(counter, host, remote, MOUNTPROC3_UMNT, wireRequest);
      var wireResponse, answer;
      wireResponse, answer, garbage := RunExchange(context, wireRequest, requestSize, xid, timeout, w);
      match answer
      case NeverReturns => return Hangs, garbage;
      case Overflows => return WritesBeyond, garbage;
      case Refused => return Done, garbage;
      case Asserts => return AssertionFails, garbage;
      case At(at) => return Done, garbage;
    }
  }

  class PortMapperContext {
    const context: C.Context
    var rpcVersion: uint32
    var programVersion: uint32
    var authType: uint32

    constructor (context: C.Context, rpcVersion: uint32, programVersion: uint32, authType: uint32)
      ensures this.context == context && this.rpcVersion == rpcVersion
      ensures this.programVersion == programVersion && this.authType == authType
    {
      this.context, this.rpcVersion := context, rpcVersion;
      this.programVersion, this.authType := programVersion, authType;
    }

    method GetPort(counter: Counter, host: seq<byte>, timeout: int, program: uint32, version: uint32, d: S.Dial,
                   w: Wire)
      returns (remotePort: int, outcome: Outcome, ghost garbage: seq<byte>)
      requires CanDial(context.State(), d)
      modifies context, context.os, counter
      ensures |garbage| == BUFFER_SIZE
      ensures authType == AUTH_SYS && QueryFits(host) ==>
                && counter.sequential == Draw(old(counter.sequential), 2)
                && Queried(context.State(), remotePort, outcome)
                   == GetPortEffect(old(context.State()), old(counter.sequential), host,
                                    Query(rpcVersion, programVersion, program, version), d, w, garbage)
      ensures authType == AUTH_SYS && !QueryFits(host) ==>
                Queried(context.State(), remotePort, outcome)
                == Queried(S.PortMapperConnected(old(context.State()), d).state, -1, WritesBeyond)
      ensures authType != AUTH_SYS ==>
                && counter.sequential == Draw(old(counter.sequential), 1)
                && Queried(context.State(), remotePort, outcome)
                   == Queried(S.PortMapperConnected(old(context.State()), d).state, -1, NotSent)
    {
      hide Exchange, S.ConnectedTo, S.PortMapperConnected, S.Connected, S.Disconnected, S.LegalDial, S.Sound;
      hide EncodeCall, GetPortCall, Record, Draw, ToUint32, Zeros, RoundUp4, U32, Words;
      ghost var s := context.State();
      garbage := Zeros(BUFFER_SIZE);
      S.StepKeepsSound(s, S.ConnectPortMapper(d));
      var code := context.ConnectPortMapperPort(d);
      if authType != AUTH_SYS {
        var xid := counter.GetMonotonic();
        return -1, NotSent, garbage;
      }
      if !QueryFits(host) {
        return -1, WritesBeyond, garbage;
      }
      var wireRequest := new byte[BUFFER_SIZE];
      var requestSize, xid :=
        BuildGetPortCall(counter, host, rpcVersion, programVersion, program, version, wireRequest);
      var wireResponse, answer;
      wireResponse, answer, garbage := RunExchange(context, wireRequest, requestSize, xid, timeout, w);
      match answer
      case NeverReturns => return -1, Hangs, garbage;
      case Overflows => return -1, WritesBeyond, garbage;
      case Refused => return -1, Done, garbage;
      case Asserts => return -1, AssertionFails, garbage;
      case At(at) =>
        var port, payloadOffset := DecodeU32(wireResponse, at);
        return ToInt32(port), Done, garbage;
    }

    method GetMountPort(counter: Counter, host: seq<byte>, timeout: int, d: S.Dial, w: Wire)
      returns (remotePort: int, outcome: Outcome, ghost garbage: seq<byte>)
      requires CanDial(context.State(), d)
      modifies context, context.os, counter
      ensures |garbage| == BUFFER_SIZE
      ensures authType == AUTH_SYS && QueryFits(host) ==>
                && counter.sequential == Draw(old(counter.sequential), 2)
                && Queried(context.State(), remotePort, outcome)
                   == GetPortEffect(old(context.State()), old(counter.sequential), host,
                                    Query(rpcVersion, programVersion, 100005, 3), d, w, garbage)
      ensures authType == AUTH_SYS && !QueryFits(host) ==>
                Queried(context.State(), remotePort, outcome)
                == Queried(S.PortMapperConnected(old(context.State()), d).state, -1, WritesBeyond)
      ensures authType != AUTH_SYS ==>
                && counter.sequential == Draw(old(counter.sequential), 1)
                && Queried(context.State(), remotePort, outcome)
                   == Queried(S.PortMapperConnected(old(context.State()), d).state, -1, NotSent)
    {
      remotePort, outcome, garbage := GetPort(counter, host, timeout, MOUNT, 3, d, w);
    }

    method GetNfsPort(counter: Counter, host: seq<byte>, timeout: int, d: S.Dial, w: Wire)
      returns (remotePort: int, outcome: Outcome, ghost garbage: seq<byte>)
      requires CanDial(context.State(), d)
      modifies context, context.os, counter
      ensures |garbage| == BUFFER_SIZE
      ensures authType == AUTH_SYS && QueryFits(host) ==>
                && counter.sequential == Draw(old(counter.sequential), 2)
                && Queried(context.State(), remotePort, outcome)
                   == GetPortEffect(old(context.State()), old(counter.sequential), host,
                                    Query(rpcVersion, programVersion, 100003, 3), d, w, garbage)
      ensures authType == AUTH_SYS && !QueryFits(host) ==>
                Queried(context.State(), remotePort, outcome)
                == Queried(S.PortMapperConnected(old(context.State()), d).state, -1, WritesBeyond)
      ensures authType != AUTH_SYS ==>
                && counter.sequential == Draw(old(counter.sequential), 1)
                && Queried(context.State(), remotePort, outcome)
                   == Queried(S.PortMapperConnected(old(context.State()), d).state, -1, NotSent)
    {
      remotePort, outcome, garbage := GetPort(counter, host, timeout, NFS, 3, d, w);
    }
  }
}
