# The wire stack of an NFSv3 client simulator, verified

The repository is a small NFSv3 client: it asks a port mapper for the ports of the mount and NFS
programs, mounts a directory, looks a name up and unmounts again, all over ONC RPC on TCP.  This
project models its wire stack, its session state and two text algorithms, and proves what holds of
them on every input, every way the operating system may cut the bytes, and every run.

`dafny verify dfyconfig.toml` checks the whole project.

## How it is built

| module | what it models |
|---|---|
| `Bytes`, `Xdr` | words, padding, and xdr.cpp: encoders into a buffer, decoders that advance an offset |
| `RecordStream` | the loops of `Context::send` and `Context::receive` as functions of a schedule of socket answers |
| `Messages` | RFC 5531, RFC 1833 and RFC 1813 messages as pure serializers and decoders, written from the standards |
| `Monotonic`, `Rpc`, `Calls` | the xid counter, and the in-place, back-patched construction of the MNT, UMNT, GETPORT and LOOKUP frames |
| `Replies` | the reply parser and the MNT result decoder against replies as a server encodes them |
| `Framing` | frames sent and received one after the other by callers that ignore the results of `send` and `receive` |
| `Session`, `Context` | the session as a state machine, and the class `Context` whose methods are its steps |
| `RemoteCall`, `Mount`, `PortMapper`, `MountContext` | whole calls, from connecting to the decoded result, against a peer that decodes what it receives |
| `ResponseBuffer` | when a call's answer depends on what its response buffer contained before |
| `Program` | runs of MNT calls, and the program from its port queries to the unmount |
| `LookupFrames`, `Lookup` | `Inode::lookup` |
| `Layouts` | the frames and replies byte by byte, with the numbers of the standards in place of names |
| `InodeNames` | `stripSlash` and the `Inode` constructor |
| `EnumMap` | `splitString` and `generateEnumMap` |

Code that works step by step is imperative here as well: methods on arrays, loops, and classes whose
fields change.  Each method is tied to a function, and the properties are lemmas about the
functions.  Sockets are byte sequences with a *schedule*, the finite list of answers that successive
`send` or `recv` calls give; a loop that outlives its schedule is `Hung`, which means that the
call has not returned.  A recv that stores bytes behind the caller's buffer is `Overrun`, and a
request built behind its buffer ends a call as `WritesBeyond`: there the model stops, since nothing is
defined from then on.  The host name, the counter's start, the answers of `getaddrinfo`, `socket`,
`::connect` and `setsockopt`, and what a fresh response buffer contains are parameters.

## What the code does and does not promise

The program is modelled as written.  Where it departs from its standards or from what its own names
promise, the exact condition is proved:

- `xdr_decode_u64` has a 32-bit accumulator: right exactly when the first four bytes are zero (`Xdr.U64RoundTrip`).
- A decoded string must be followed by a zero byte (`Xdr.StringRoundTrip`).
- `receive` trusts the announced length: with enough progress it stores bytes behind the buffer exactly when a record longer than the buffer is announced and more of it arrives than fits (`RecordStream.OverrunExact`), and so do MNT, UMNT, GETPORT and LOOKUP with their 1024 bytes (`Mount.MountOverflows`, `PortMapper.QueryOverflows`, `Lookup.LookupOverflows`).
- A MNT reply that announces more flavors than the response buffer can hold is read behind it (`Mount.MountReadsBeyond`, `Mount.AnnouncedTooMany`).
- A record of several fragments is delivered as several records (`RecordStream.FragmentsExact`).
- The reply parser skips no verifier body (`Replies.ParserExact`).
- It never looks at the message type: a call with the caller's xid passes for a successful reply exactly when it asks for procedure 0 and its RPC version is not 1 (`Replies.CallTakenForReply`).
- It never looks at the number of bytes received, and its callers ignore the result of `receive`: the answer is independent of the old contents of the response buffer exactly when the bytes received decide it (`ResponseBuffer.AnswerIndependent`), which every complete well-formed reply does and a receive that fails at once does not.
- The decoders skip no padding, so MNT flavors are misread behind a handle whose length is not a multiple of four (`Replies.MountReplyExact`).
- LOOKUP aligns nothing between the handle and the name (`LookupFrames.LookupArgsExact`), and `lookup` returns no handle, since it drops the one it decoded (`Lookup.LookupChild`).
- The mount handle is never cleared: a call leaves exactly the handle it received only on a context that had none (`Program.OneMount`, `Program.HandlesAccumulate`).
- A disconnect does not close descriptor 0, and then no run ever does (`Session.DisconnectCloses`, `Session.DescriptorZeroStays`, `Session.ReconnectLeadsToPort`).
- `connect` returns 0 when `::connect` is refused; only `connectError` records it.  A return of 0 means a connection exactly when `::connect` returned 0 (`Session.ConnectExact`), and `printStatus` gets it right (`Session.StatusReportExact`).
- A context that failed to connect to the port mapper, for want of an address or a socket or because it was refused, is not connected again by `connectPortMapperPort` (`Session.PortMapperConnects`, `Session.RefusedOnce`).
- A call over a refused connection decodes what its response buffer happened to contain (`Mount.RefusedMount`).
- After a send that failed, the next frame goes on the same connection: the peer sees whole frames exactly when every failed send failed before its first byte (`Framing.FramingSurvives`, `Framing.BrokenFrameSwallowsNext`, `Framing.BrokenHeader`).
- After a receive that failed, the next one reads on: from the same record exactly when nothing of it was taken (`Framing.FailedReceive`), and then every later query on the port mapper's connection receives the reply to the one before it and returns -1 (`PortMapper.OneFailureNoPorts`).
- Without errors, a `receive` on a connection that the peer closes inside a record never returns, unless more of the record has come than fits the buffer (`RecordStream.ReceiveTerminates`).
- `generateEnumMap` reads every shift initialiser as 1 (`EnumMap.FlagsCollapse`, `EnumMap.FlagsNumbered`).

## Model

| member | source | states |
|---|---|---|
| RecordStream.InOrderDelivery | Context.cpp:85-187 | Messages sent back to back under any partial-write schedule, even one that stops half-way, and received under any short-read, EAGAIN or error schedule: the bodies received are a prefix of the messages; with enough progress on both sides and a buffer for each they are all of them and nothing is left unread |
| RecordStream.ReceiveSplitsRecord | Context.cpp:141-186 | A receive that returns 0 has split off the first record: it consumed exactly 4+n bytes, size is n, the body stands at the front of the buffer and the rest of the buffer is as the header left it; any other ending has consumed exactly what it counted and less than a record; only a record longer than the buffer can run over it |
| RecordStream.ScheduleDoesNotMatter | Context.cpp:141-186 | Two receives of one stream that both return 0 agree on buffer, size, bytes counted and bytes left, whatever their schedules |
| RecordStream.LoopKeepsTaken | Context.cpp:145-175 | At every point of the receive loop its whole state is a function of the number of bytes taken from the stream, across the switch from header to body |
| RecordStream.ReceiveTerminates | Context.cpp:145-175 | Without errors any number of EAGAIN and zero-byte results is survived: as many productive calls as the record has bytes make the receive return 0 if it is complete and fits; more of them than the buffer has bytes make it overrun if more of a longer record is there than fits; in all other cases it never returns |
| RecordStream.OverrunExact | Context.cpp:146-171 | Without errors and with enough progress, bytes are stored behind the buffer if and only if a longer record is announced and more of it is there than fits |
| RecordStream.SendWritesPrefix | Context.cpp:106-118 | On every schedule send writes a prefix of the message, and returns 0 exactly when that is the whole message |
| RecordStream.SendTerminates | Context.cpp:106-116 | Without errors, as many productive calls as there are pending bytes complete the send, whatever zero-byte results are mixed in |
| RecordStream.SendAllWritesPrefix | Context.cpp:106-118 | Messages sent back to back put a prefix of their concatenation on the wire |
| RecordStream.SendAllCompletes | Context.cpp:106-118 | Without errors, as many productive calls as there are bytes complete every send |
| RecordStream.SendReportsError | Context.cpp:111-115 | A send that fails leaves the code of the schedule's first error, any other the code that was there |
| RecordStream.ReceiveReportsError | Context.cpp:147-154 | A receive that fails leaves the code of the schedule's first error |
| RecordStream.ReceiveAllFromPrefix | Context.cpp:121-187 | Repeated receives on any prefix of a stream of records yield a prefix of the bodies, never merged, duplicated or reordered |
| RecordStream.ReceiveAllCompletes | Context.cpp:121-187 | Repeated receives with enough progress consume the whole stream |
| RecordStream.FragmentsExact | Context.cpp:159-171 | A record of several fragments: the first is delivered; it is the whole record exactly when the others are empty, and the stream is behind the record exactly when there are no others |
| Framing.PostsWritten | Context.cpp:106-118 | Over frames sent one after the other whatever becomes of them, every byte written belongs to a completed frame or is lost |
| Framing.FramingSurvives | Context.cpp:106-118 | The peer has exactly the completed frames one behind the other if and only if each schedule, up to the first send that does not return, accepts its whole frame or nothing before its first error |
| Framing.CompletedReceived | Context.cpp:85-187 | In that case a peer that keeps reading receives exactly the bodies of the completed sends |
| Framing.BrokenFrameSwallowsNext | PortMapperContext.cpp:69-70 | Otherwise, behind a whole header, the peer completes the broken record with the front of the next frame, and receives nothing if that is too short |
| Framing.BrokenHeader | PortMapperContext.cpp:69-70 | Inside a header, the peer takes the bytes of both headers for one: which length it then expects |
| Framing.FailedReceive | PortMapperContext.cpp:69-70 | A receive that does not return 0 leaves the stream at its record exactly when no call before the first error has handed over a byte, never at the next record, and otherwise the next receive takes the word of the record at which it was left for a header |
| Context.Context.constructor | Context.hpp:27 | A new context is the initial state of the session |
| Context.Context.Connect | Context.cpp:12-64 | Every branch of connect with its result, error and connectError: already open, failed lookup, no socket, refused, failed timeout, connected; and the session step |
| Context.Context.ConnectTo | Context.cpp:66-71 | Disconnecting, setting the port and connecting, as the session step |
| Context.Context.Disconnect | Context.cpp:73-83 | Closes a positive descriptor and clears both counters |
| Context.Context.Send | Context.cpp:85-119 | The loop on the real buffer refines the session step: bytes on the wire, counter and result; an empty send and a closed context change nothing; a failed send leaves the code of the first error |
| Context.Context.Receive | Context.cpp:121-187 | The loop on the real buffer refines the session step and leaves the buffer and size the record stream specifies; a closed context and a failed timeout give -1; a failed receive leaves the code of the first error |
| Context.Context.ReceiveLoop | Context.cpp:141-175 | The receive loop ends in the state that the loop function has for the schedule |
| Context.Context.Account | Context.cpp:157-172 | Counting received bytes and, when the header is complete, stripping it and re-arming pending and size |
| Context.Context.ConnectPortMapperPort | Context.cpp:199-205 | Reconnects only if the port differs, and returns 0 in any case |
| Context.Context.ConnectMountPort | Context.cpp:207-213 | Reconnects to the mount port, which port then is, and returns 0 in any case |
| Context.Context.ConnectNfsPort | Context.cpp:215-221 | Reconnects to the NFS port, which port then is, and returns 0 in any case |
| Context.Context.SetMountPort | Context.hpp:227-229 | Stores the unsigned port as a signed one |
| Context.Context.SetNfsPort | Context.hpp:231-233 | Stores the unsigned port as a signed one |
| Session.SessionInvariant | Context.cpp:12-83 | Over every run of all the operations: at most one descriptor is open and it is the one in socketFd; connectError is the result of its ::connect; what was counted as received was consumed, and a closed context has both counters at 0; in runs in which no dial obtains descriptor 0, moreover, the peer that ::connect reached is at port |
| Session.StepKeepsInv | Context.cpp:12-221 | Each single operation keeps both forms of that invariant |
| Session.ByteConservation | Context.cpp:78-79 | Over every run from a new context: received bytes are consumed bytes; totalSent never exceeds the bytes written and equals them exactly when no send of the connection stopped after a partial write (and 2^64 was not reached) |
| Session.RunBalances | Context.cpp:106-117 | Over every run the bytes written are those of completed sends plus those lost to failed ones, and totalSent is the former |
| Session.DisconnectCloses | Context.cpp:73-83 | A disconnect closes an open context exactly when its descriptor is not 0 |
| Session.ReconnectLeadsToPort | Context.cpp:66-71 | After a reconnect a connected socket leads to port exactly when the old descriptor was not 0, or the port is the same, or the old ::connect had failed |
| Session.PortMapperConnects | Context.cpp:199-205 | With a port mapper that accepts, the context ends up connected exactly when it was on another port, or had a socket whose ::connect had returned 0 |
| Session.RefusedOnce | Context.cpp:199-205 | A port mapper that refuses a new context once: the call returns 0, and no later one connects, whatever the port mapper answers by then |
| Session.ConnectExact | Context.cpp:33-63 | A reconnect ends connected exactly when there is an address and a socket and ::connect returns 0; it returns 0 exactly when there is an address and a socket and the timeout can be set; so its 0 means connected exactly when ::connect returned 0 |
| Session.StatusReportExact | Context.cpp:189-191 | After every run printStatus says connected exactly when there is a connection; its peer is at port if no dial has obtained descriptor 0 |
| Session.RunKeepsSound | Context.cpp:33-83 | Over every run, descriptor 0 included, the descriptor in socketFd is open |
| Session.DescriptorZeroStays | Context.cpp:73-83 | A context that has descriptor 0 keeps it, and the port it leads to, over every run of any operations |
| Xdr.EncodeU32 | xdr.cpp:5-15 | Stores the four bytes that weigh to the value and changes no other byte |
| Xdr.EncodeU64 | xdr.cpp:17-36 | Stores the eight bytes that weigh to the value and changes no other byte |
| Xdr.EncodeString | xdr.cpp:38-43 | Stores length word and characters, nothing else, with length and result cut to 32 bits |
| Xdr.EncodeNBytes | xdr.cpp:65-72 | Stores length word and bytes, nothing else; no padding |
| Xdr.EncodeAlign | xdr.cpp:48-59 | Stores the zeros that bring the given size up to a multiple, nothing else |
| Xdr.EncodeLastFragment | xdr.cpp:61-63 | Sets the top bit of the first byte |
| Xdr.StripLastFragment | xdr.cpp:74-76 | Clears the top bit of the first byte |
| Xdr.LastFragmentBit | xdr.cpp:61-76 | Marking adds 2^31 to a length below 2^31, stripping takes any header mod 2^31 |
| Xdr.DecodeU32 | xdr.cpp:78-91 | The word whose encoding stands at the offset, and the offset behind it |
| Xdr.DecodeU64 | xdr.cpp:93-109 | The weight of the eight bytes mod 2^32 |
| Xdr.U64RoundTrip | xdr.cpp:93-109 | What the decoder yields is the encoded value exactly when its first four bytes are zero |
| Xdr.DecodeString | xdr.cpp:111-126 | Succeeds exactly when the length is below the limit, the body has no NUL and a NUL follows; returns the body and the offset behind it |
| Xdr.DecodeNBytes | xdr.cpp:128-140 | Appends the bytes and advances behind them if the length is within the limit, otherwise appends nothing |
| Xdr.StringRoundTrip | xdr.cpp:111-126 | An encoded and aligned string is accepted exactly when it is short enough, free of NULs, and padded or followed by a zero byte |
| Xdr.NBytesRoundTrip | xdr.cpp:128-140 | The decoder takes encoded bytes off exactly, from where they stand, if and only if their number is within the limit |
| Messages.CallRoundTrip | rpc.hpp:13-63 | Decoding an encoded RPC call recovers every field |
| Messages.DecodeCall | rpc.hpp:13-63 | Whatever decodes as a call is the encoding of that call, so encodings are unique |
| Messages.AuthSysRoundTrip | rpc.hpp:31-56 | Decoding AUTH_SYS parameters recovers every field |
| Messages.TakeOpaqueInverts | xdr.cpp:38-59 | An opaque item followed by anything is taken off exactly |
| Monotonic.Counter.GetMonotonic | Utils.cpp:88-92 | Returns the counter and adds one, mod 2^64 |
| Monotonic.SameDraw32 | Utils.cpp:88-92 | Two draws agree in their low 32 bits exactly when they are a multiple of 2^32 draws apart, even across the 64-bit wrap |
| Monotonic.XidsDistinct | Mount.cpp:23-40 | In a run of calls that draws at most 2^32 values (an xid, and a stamp for AUTH_SYS) all xids differ |
| Rpc.MakeRPC | rpc.hpp:13-29 | The first 24 bytes are the empty record header and the call header; nothing else changes |
| Rpc.AddAuthSys | rpc.hpp:31-63 | The bytes built in place and patched are the serialized AUTH_SYS credential and empty verifier, 40+R(host) bytes |
| Rpc.FinishAuth | rpc.hpp:56-62 | Patching the length turns the unpatched bytes into the serialized credential and changes no other byte |
| Calls.BuildPreamble | Mount.cpp:23-47 | Call header, procedure and copied credential are the serialized ones; xid and stamp are the next two draws |
| Calls.FinishRecord | Mount.cpp:52-53 | Patching the header makes the frame a record of its body |
| Calls.BuildMountCall | Mount.cpp:21-53 | The MNT or UMNT frame in the buffer is the record of the serialized call |
| Calls.BuildGetPortCall | PortMapperContext.cpp:20-59 | The GETPORT frame in the buffer is the record of the serialized call with its mapping |
| Calls.BuildLookupCall | Context.cpp:244-275 | The LOOKUP frame in the buffer is the record of the call with the handle and name as written |
| Calls.FrameSizes | Mount.cpp:49-53 | 72+R(host)+R(path) bytes for MNT and UMNT, 84+R(host) for GETPORT, and multiples of four also for LOOKUP |
| Calls.BuffersSuffice | GenericEnums.hpp:7-10 | The credential and request buffers of 1024 bytes suffice exactly when the frame has at most 1024 bytes: for GETPORT, exactly when the host name has at most 940 |
| Mount.FrameCarriesCall | Mount.cpp:52-53 | For every call the frame's header, stripped, gives the frame length less four, and the peer decodes that very call |
| Layouts.CallLayout | rpc.hpp:13-63 | A call as it is built is, byte by byte: the record mark, xid, 0, RPC version, program, version, procedure, credential flavor 1 and its length, stamp, host, 0, 0, 1, 0, verifier 0 and 0, arguments |
| Layouts.CallWords | rpc.hpp:13-41 | The words at their offsets: type 0 at 8, procedure at 24, credential flavor 1 at 28 |
| Layouts.MountFrameBytes | Mount.cpp:25-53 | The MNT and UMNT frames have RPC version 2, program 100005, version 3 and procedures 1 and 3; xid and stamp are the counter and its successor mod 2^32 |
| Layouts.GetPortFrameBytes | PortMapperContext.cpp:22-59 | The GETPORT frame has program 100000, procedure 3 and the arguments program, version, 6, 0 in this order |
| Layouts.LookupFrameBytes | Context.cpp:246-275 | The LOOKUP frame has program 100003, version 3, procedure 3, handle and name, and one padding |
| Layouts.FramesFit | GenericEnums.hpp:7-10 | The call methods go on exactly when the frame has at most 1024 bytes |
| Mount.MountFrameDecodes | Mount.cpp:25-53 | A peer finds in a MNT or UMNT frame exactly the xid, versions, procedure, stamp, host and path that went in, with no byte left over |
| Mount.GetPortFrameDecodes | PortMapperContext.cpp:22-59 | The same for GETPORT and its mapping |
| Mount.MountFrameInjective | Mount.cpp:25-53 | Equal frames come from equal arguments |
| Mount.GetPortFrameInjective | PortMapperContext.cpp:22-59 | Equal GETPORT frames come from equal arguments |
| Replies.ParseAndStripRPC | rpc.hpp:65-124 | The parser's every branch on the real buffer |
| Replies.ParserExact | rpc.hpp:65-124 | The parser gives a complete well-formed reply its meaning exactly when the xid differs, or it is denied, or the verifier is empty, or it failed and its verifier does not start with a zero word |
| Replies.ParserOnWords | rpc.hpp:65-124 | On every buffer: payload at 24 exactly with the xid at 0, no 1 at 8 and 0 at 20; the assertion fails exactly with the xid at 0, 1 at 8 and more than 1 at 12; otherwise nothing |
| Layouts.ReplyWords | rpc.hpp:129-172 | The words of a well-formed reply as a server sends it, by number |
| Replies.ParseIgnoresType | rpc.hpp:74-77 | Whatever the message type is, the parser says the same |
| Replies.CallTakenForReply | rpc.hpp:65-109 | A call message, the other kind there is, passes for a successful reply exactly when it has the caller's xid, asks for procedure 0 and its RPC version is not 1 |
| Replies.NullCallTakenForReply | rpc.hpp:65-109 | The call of the NULL procedure of NFS does |
| Replies.PayloadIsResults | rpc.hpp:107-109 | The meaning of a successful reply points at its results |
| Replies.StaleReplyRejected | rpc.hpp:65-72 | In a run of at most 2^32 draws a reply to any other call is rejected |
| Replies.MountReplyExact | Mount.cpp:68-84 | On OK results the handle is always appended; the flavors arrive exactly when the handle needs no padding or there are none, and the offset ends at the end exactly when it needs no padding |
| Replies.MountErrorKeepsHandle | Mount.cpp:71-74 | Whatever status other than 0 stands at the payload, the handle is left alone |
| Replies.MountLongHandle | Mount.cpp:76-82 | A handle announced longer than 64 bytes is left out, and the flavors are read where it starts |
| Replies.CountReadEarly | Mount.cpp:76-77 | Reading a count in the padding divides it by at least 256 |
| ResponseBuffer.ParseDecided | rpc.hpp:65-124 | The parser's answer is the same whatever follows the first bytes exactly when those show another xid, or a denial with its reason, or no denial and a status, where a cut-off word counts if it can no longer become 0 |
| ResponseBuffer.SameTurns | Context.cpp:145-175 | Two receive loops over one stream and one schedule go through the same turns whatever their buffers contained |
| ResponseBuffer.AnswerIndependent | Mount.cpp:61-66 | For every session, frame and schedule, failed receives included: the answer of a call does not depend on the old contents of the response buffer exactly when the parser is not reached or the bytes received decide |
| ResponseBuffer.KnownOfRecord | Mount.cpp:64-66 | A complete record determines its own bytes of the buffer, and one of less than four bytes the end of its header as well |
| ResponseBuffer.RepliesDecide | rpc.hpp:65-124 | Every complete well-formed reply decides |
| ResponseBuffer.FailedReceiveUndecided | Mount.cpp:63-66 | A call whose socket calls fail reaches the parser with nothing received, and decides nothing |
| ResponseBuffer.XidAloneUndecided | Mount.cpp:63-66 | A record of four bytes, the xid, passes for a successful reply exactly when the old contents have no denial at 8 and a zero word at 20 |
| RemoteCall.FailedExchange | Mount.cpp:63-66 | When the socket calls fail nothing is sent or read, and the old contents are parsed |
| RemoteCall.FrameArrives | Mount.cpp:63 | With enough progress the peer has exactly the frame behind what it had |
| RemoteCall.ReplyArrives | Mount.cpp:64 | With enough progress the response buffer starts with the peer's record and what follows it stays unread |
| RemoteCall.ExchangeDelivers | Mount.cpp:63-66 | The frame arrives, the reply arrives, and the answer is the reply's meaning exactly when the parser understands it |
| RemoteCall.RunExchange | Mount.cpp:55-66 | The methods' send, receive and parse are that exchange |
| Mount.ConnectIsReady | Context.cpp:33-63 | A connect that obtains a descriptor leaves a fresh connection exactly when ::connect returns 0, whatever setsockopt answers |
| Mount.MountEndToEnd | Mount.cpp:8-85 | From any session, on an accepted connection and under every sufficient schedule, MNT against a server that answers what it decoded appends exactly the exported handle of the path, nothing if the server refuses the path with any status, and the server received exactly the frame |
| Mount.MountServed | Mount.cpp:25-53 | The server finds the path in MNT and UMNT frames, and adds or removes this host and path in its list |
| Mount.UmountEndToEnd | Mount.cpp:87-148 | Under the same conditions UMNT returns and the server received exactly its frame |
| Mount.RefusedMount | Mount.cpp:8-85 | On a refused connection nothing is sent, and the call ends at the failed assertion exactly when the old contents of the response buffer do not look like a successful reply with its xid; otherwise it decodes them |
| Mount.MountOverSlowConnection | Mount.cpp:8-85 | With no assumption but that the results fit the response buffer: when every call moves one byte and every second recv is repeated, MNT still ends with the handle appended |
| Mount.StaleReplyLeavesHandle | Mount.cpp:63-74 | A reply to another call of the run never changes the handle; the call ends at the failed assertion |
| Mount.MountOverflows | Mount.cpp:55-64 | With ample progress MNT and UMNT write behind the response buffer exactly when the server announces more than 1024 bytes and sends more than 1024 of them, and hang exactly when it otherwise sends less than it announces |
| Mount.DecodingLeavesBuffer | Mount.cpp:68-82 | Decoding leaves the buffer exactly on OK results whose number of flavors is more than the bytes behind it can be |
| Mount.MountReadsBeyond | Mount.cpp:66-82 | MNT reads behind its response buffer exactly when its reply is accepted and has such results |
| Mount.AnnouncedTooMany | Mount.cpp:76-82 | For a handle that needs no padding: exactly when the announced flavors do not fit the buffer |
| RemoteCall.ExchangeOverflows | Mount.cpp:63-66 | With ample progress the peer's bytes alone decide whether a call overflows, never returns, or reaches the parser |
| RemoteCall.StaleReplyRefused | rpc.hpp:65-72 | A reply to another call is refused, and is off the connection then |
| RemoteCall.ReplyRefuses | rpc.hpp:65-124 | Every well-formed reply that gives the caller nothing is refused, unless a verifier hides it |
| RemoteCall.RepliesAnswer | rpc.hpp:84-100 | No well-formed reply fails the parser's assertion |
| Mount.MountRefused | Mount.cpp:66-74 | A reply that refuses the call ends MNT at the failed assertion with the handle unchanged |
| Mount.OnlyDoneChangesHandle | Mount.cpp:8-85 | A MNT call that does not get through leaves the handle alone |
| Mount.UmountReturns | Mount.cpp:142-147 | UMNT returns on every well-formed reply, whatever it says and whatever call it answers |
| Mount.FailedUmount | Mount.cpp:142-147 | When the socket calls fail, UMNT returns unless the old contents show an unknown kind of denial |
| MountContext.MountContext.MakeMountCall | Mount.cpp:8-85 | The method has exactly the specified effect on session, handle, counter and fields, for AUTH_SYS and for other types; a frame that does not fit ends it in `WritesBeyond` |
| MountContext.MountContext.DecodeMountReply | Mount.cpp:68-84 | Decoding on the real buffer yields status, handle, flavors and offset as specified |
| MountContext.MountContext.DecodeFlavors | Mount.cpp:77-82 | The flavor loop reads exactly the announced words |
| MountContext.MountContext.MakeUmountCall | Mount.cpp:87-148 | The method runs the UMNT exchange on a new connection and leaves the handle alone; a frame that does not fit ends it in `WritesBeyond` |
| MountContext.PortMapperContext.GetPort | PortMapperContext.cpp:8-81 | For AUTH_SYS the effect and result of the query for the program and version given, in this order, -1 without a payload; for other types -1 and nothing sent; a frame that does not fit ends it in `WritesBeyond` |
| MountContext.PortMapperContext.GetMountPort | PortMapperContext.cpp:83-85 | The same for program 100005, version 3 |
| MountContext.PortMapperContext.GetNfsPort | PortMapperContext.cpp:87-89 | The same for program 100003, version 3 |
| PortMapper.GetPortEndToEnd | PortMapperContext.cpp:8-81 | On a connection, new or kept, GETPORT returns the registered port, and what follows the reply stays unread |
| PortMapper.QueriesConnectOnce | Context.cpp:199-205 | The first query of a new context connects, if it is accepted, and leaves it on the port mapper's port |
| PortMapper.QueryOverflows | PortMapperContext.cpp:61-70 | With ample progress GETPORT overflows and hangs exactly as MNT does |
| PortMapper.FailedQuery | PortMapperContext.cpp:69-80 | When the socket calls fail, the port returned is -1, or what the old contents of the response buffer say if they look like a successful reply with the query's xid |
| PortMapper.RefusedQuery | PortMapperContext.cpp:9-80 | So it is on a refused connection, over which nothing is sent |
| PortMapper.StaleReplyNoPort | PortMapperContext.cpp:72-80 | A reply to another call yields -1, and the next reply is in front then |
| PortMapper.QueryRefused | PortMapperContext.cpp:72-80 | Every well-formed reply that refuses the call yields -1 |
| PortMapper.OnlyDoneYieldsPort | PortMapperContext.cpp:72-80 | A query that does not get through yields -1 |
| PortMapper.QueriesStayBehind | PortMapperContext.cpp:8-81 | On a kept connection that is one reply behind, every query of any sequence returns -1 |
| PortMapper.OneFailureNoPorts | PortMapperContext.cpp:69-70 | One receive that fails before it has taken a byte is enough for that |
| PortMapper.BothPortsOverOneConnection | main.cpp:48-53 | Asking for the mount port and then for the NFS port uses one connection, whose peer receives exactly the two frames, and yields both registered ports |
| PortMapper.BothPortsOverSlowConnection | main.cpp:48-53 | With no assumption but a descriptor: over the slowest connection both answers are still the registered ports, and nothing is left unread |
| RemoteCall.SlowSuffices | Context.cpp:106-175 | One byte per call, with an EAGAIN before every byte read, is enough progress for any frame and reply |
| Program.OneMount | Mount.cpp:8-85 | A MNT call leaves the old handle followed by the exported one, and exactly the exported one if and only if there was no old one |
| Program.HandlesAccumulate | Mount.cpp:76 | After any number of successful MNT calls on one context, each with its own server, connection and schedule, the handle is what it was followed by all handles received |
| Program.SlowJobServed | Mount.cpp:8-148 | Every export whose results fit can be mounted and unmounted over the slowest connection |
| Program.MountAndUmount | main.cpp:55-74 | With the ports set to what the queries returned, MNT and UMNT of a path go to the registered mount port, the handle is the exported one, and the server's list is afterwards what it was without this mount |
| Program.PortsSetExact | main.cpp:55-56 | Both ports are set to what the queries returned, each to its own |
| Program.MountThenLookup | main.cpp:55-72 | After that MNT goes to the registered mount port and lookup, with the handle obtained, to the registered NFS port, whose peer receives exactly the frame; the child decoded is the server's |
| Program.ProgramRuns | main.cpp:46-74 | The whole program but its lookup, from a new context: two queries on one connection, both ports set, MNT and UMNT as above |
| LookupFrames.LookupArgsExact | Context.cpp:270-272 | The LOOKUP arguments are the standard's, and a server reads the handle and name out of them, exactly when the handle needs no padding or the name is empty |
| Lookup.LookupChild | Context.cpp:225-301 | The method has exactly the specified effect, decodes the child handle and returns none |
| Lookup.ChildDecoded | Context.cpp:289-298 | The handle decoded from results is the server's handle of the child, none on an error status |
| Lookup.OnlyChildServed | Context.cpp:270-277 | A server whose only name is the one looked up answers with its handle exactly when the directory's handle needs no padding or the name is empty |
| Lookup.LookupEndToEnd | Context.cpp:225-301 | For handles that need no padding, or the empty name: the call goes to the NFS port, the peer receives exactly the frame, and the handle decoded is the one the server has for the name, none if it refuses with any status |
| Lookup.LookupKeepsPorts | Context.cpp:215-226 | Whatever happens, the call goes to the NFS port and leaves all ports |
| Lookup.ChildHandleExact | Context.cpp:289-298 | There is no child for a status other than 0 or a handle announced longer than 64 bytes |
| Lookup.LookupRefused | Context.cpp:287-290 | A reply that refuses the call ends lookup at the failed assertion |
| Lookup.OnlyDoneYieldsChild | Context.cpp:287-300 | A lookup that does not get through yields no child |
| Lookup.FailedLookup | Context.cpp:277-298 | When the socket calls fail, lookup decodes the old contents if they look like a successful reply with its xid, and ends at the failed assertion otherwise |
| Lookup.LookupOverflows | Context.cpp:279-285 | With ample progress lookup overflows and hangs exactly as MNT does |
| InodeNames.RFind | Context.hpp:196 | The last occurrence, or none exactly when there is none |
| InodeNames.StripSlash | Context.hpp:191-214 | Both rewriting loops terminate; a name with ".." becomes empty, any other keeps exactly the characters, in order, that are neither a slash nor a dot directly before a slash, as a one-pass filter does; the result has neither a slash nor ".." |
| InodeNames.KeptExactly | Context.hpp:203-213 | The places kept, by the characters there |
| InodeNames.KeptPlacesAscend | Context.hpp:203-213 | They are in order |
| InodeNames.FilterPlaces | Context.hpp:203-213 | The filter keeps the characters at these places |
| InodeNames.RemoveDotSlash | Context.hpp:203-207 | Taking out a "./" keeps the filtered name and creates no ".."; every "./" that is left was there before |
| InodeNames.RemoveSlash | Context.hpp:209-213 | Taking out a "/" keeps the filtered name and creates no "./" and no ".." |
| InodeNames.StripFixedPoint | Context.hpp:191-214 | Stripped names have no slash and no "..", and stripping is idempotent |
| InodeNames.Inode.constructor | Context.hpp:148-159 | A directory gets its path from the stripped name, parent and slash alone for a name with "..", and keeps its name as given; every other inode gets the stripped name |
| InodeNames.DirectoryRecoverable | Context.hpp:151-153 | A directory's path split at its last slash gives back the parent and the stripped name |
| EnumMap.SplitString | descriptiveenum/DescriptiveEnum.cpp:22-31 | The pieces contain no separator, and each followed by a separator they give back the text, up to one separator at its end |
| EnumMap.SplitExact | descriptiveenum/DescriptiveEnum.cpp:22-31 | There is no other such list of pieces |
| EnumMap.GenerateEnumMap | descriptiveenum/DescriptiveEnum.cpp:33-55 | The loop on any text, with its exceptions, equals the token-wise specification |
| EnumMap.EnumMapFollowsNumbering | descriptiveenum/DescriptiveEnum.cpp:33-55 | From the printed form of any list of enumerators, generateEnumMap's map takes each value, as a size_t, to the last enumerator that the numbering rule gives it, and contains nothing else |
| EnumMap.NumbersUnique | descriptiveenum/DescriptiveEnum.cpp:45-53 | Only one map does that |
| EnumMap.PrintSplits | descriptiveenum/DescriptiveEnum.cpp:35-43 | Removing characters and splitting printed enumerators yields one token for each |
| EnumMap.DecimalRoundTrip | descriptiveenum/DescriptiveEnum.cpp:50 | Printed numbers are read back if they have 64 bits, the zero as an octal, and are out of range otherwise |
| EnumMap.PrefixedRoundTrip | descriptiveenum/DescriptiveEnum.cpp:50 | Numbers with 0x or 0X are read as hexadecimal, numbers with a leading 0 as octal |
| EnumMap.NoNumber | descriptiveenum/DescriptiveEnum.cpp:50 | A text that starts neither with a space nor with a sign is a number exactly when it starts with a digit |
| EnumMap.MalformedEnters | descriptiveenum/DescriptiveEnum.cpp:49-51 | What a token with an equals sign enters, or how it fails |
| EnumMap.CleanExact | descriptiveenum/DescriptiveEnum.cpp:35-38 | The four removals take out exactly the spaces, parentheses and quotation marks |
| EnumMap.NumberingRule | descriptiveenum/DescriptiveEnum.cpp:41-52 | The language's numbering of enumerators |
| EnumMap.KeysModulo | descriptiveenum/DescriptiveEnum.cpp:47-51 | The keys are the values mod 2^64, no more and no less |
| EnumMap.FlagsCollapse | Context.hpp:100-113 | From any list of flags given as shifts the map has the single key 1 with the last name |
| EnumMap.FlagsNumbered | Context.hpp:100-113 | That is the numbering of the language exactly when there is one flag |

## Left out

- MountContext.MountContext.MakeMountCall: for a frame that does not fit its buffers (exactly when: Calls.BuffersSuffice) the model stops with `WritesBeyond`, and the counter is left open; what the C++ does then is undefined.  The same holds of the other calls.
- Calls.BuildMountCall: requires that the frame fits, as the model's call methods make sure before they build one; so do Calls.BuildGetPortCall and Calls.BuildLookupCall.
- Lookup.LookupChild: a parent without a handle, which the C++ dereferences, is not modelled.
- Lookup.LookupEndToEnd: for handles that need no padding or the empty name; that no other call is answered as asked is Lookup.OnlyChildServed, for a server with that one name, since with more names a misread question may by chance have the same answer.
- Context.Context.Receive: after a recv that overruns the buffer the model stops with `Overrun`; what the C++ does then is undefined.
- Session.SessionInvariant: that the peer is at port is for runs in which the system hands out only positive descriptors; what holds otherwise is Session.ReconnectLeadsToPort and Session.DescriptorZeroStays.  Runs in which a socket answers although its ::connect was refused are included; the results about whole calls are for accepted connections or for failing calls.
- Context.Context.Send: sizes are not negative; a negative `size` would make the C++ loop run on.
- Xdr.DecodeString: requires a NUL somewhere behind the length word when the length passes the limit, because the C++ would read behind the buffer.
- Xdr.EncodeNBytes: vectors of more than 2^32-4 bytes, at which the 32-bit index wraps, are not modelled.
- EnumMap.EnumMapFollowsNumbering: values are those `std::stoll` can read; initialisers that are expressions are covered for shifts only.
- Real sockets, `getaddrinfo`, `setsockopt`, the clock and the host name: they are the parameters named above.  The `timeout` of receive only reaches `setsockopt` and is not used.
- Memory: allocation failures, `ScopedMemoryHandler`, freeing, and the `addrinfo` that a failed connect leaks.
- Mutexes: every method of Context is serialised by one lock, so operations are steps of one sequence; a call that never returns is the last of its run.
- Logging, hex dumps, `printHandle`, the text of `printStatus`, the text `printEnum` composes, and the connect and disconnect times.
- Putting fragments together and verifier bodies: the program does not handle them; the exact conditions are proved instead.
- `main`'s argument parsing, and its lookup of ".", whose parent is a root that the tree does not hold.
- `FSTree` and `ServerContexts`: small maps and counters that would add only easy members.
- `getInteger`, `xdr_encode_handlestring`, `makeMkdirCall` and the declared but undefined `Inode` operations: nothing calls them or they have no body.
