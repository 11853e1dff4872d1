# ONC RPC session engine and NFS open state machine

A Dafny model of two parts of iPXE's network boot code.

**The ONC RPC layer** (`src/net/tcp/oncrpc.c`) covers:
- the XDR encoders for strings, integer arrays and credentials (RFC 4506, Appendix A of RFC 5531);
- the record-marking word of a call (section 11 of RFC 5531);
- the call message (section 9 of RFC 5531);
- a session that numbers its calls, queues calls while the transport has no window, and demultiplexes replies to callbacks by transaction id.

**The NFS open state machine** (`src/net/oncrpc/nfs_open.c`) drives three conversations:
- the portmapper (GETPORT for MOUNT, then for NFS);
- MOUNT (MNT, later UMNT);
- NFS (LOOKUP, then READ until end of file).

Both end in `nfs_done`.

The files:

- `base.dfy`: an `Option` type and the error codes, as distinct negative numbers.
- `xdr.dfy` (module `Xdr`):
  - byte and word types;
  - the encoders as functions, with the decoders they round-trip with;
  - the I/O buffer as a class whose byte sequence the encoder methods append to in loops, as the C functions do.
- `oncrpc.dfy` (module `OncRpc`):
  - the call message and the reply header;
  - the session state as a value, with one specification function per session operation (`CallSpec`, `DeliverSpec`, `WindowSpec`, `CloseSpec`);
  - the `Session` class, whose methods walk and edit the pending lists in loops and are proved equal to those functions.
- `nfs_open.dfy` (module `NfsOpen`):
  - the request's fields as a value;
  - each handler as a function of those fields and of the environment's answers (window, RPC call status, connect status, delivery status, random number). The handler's effects on the interfaces are appended to a trace of events.
  - the `NfsRequest` class, whose methods update the fields in place and are proved equal to those functions;
  - the opening of a request and the path split.

## Model

| member | source | states |
|---|---|---|
| Xdr.WordRoundTrip | src/net/tcp/oncrpc.c:79-87 | a word written by the integer encoder is four bytes and is read back as the same 32-bit value |
| Xdr.Pad | src/net/tcp/oncrpc.c:174-175 | the padding after n string bytes is below 4 and brings n up to a multiple of 4 |
| Xdr.PadIsLeast | src/net/tcp/oncrpc.c:174-177 | the padding loop stops at the first multiple of four at or after n, so no more zeros than needed are written |
| Xdr.EncodeString | src/net/tcp/oncrpc.c:166-178 | the XDR string encoding; Xdr.EncodeStringShape and Xdr.StringRoundTrip state its layout and its inverse |
| Xdr.EncodeStringShape | src/net/tcp/oncrpc.c:166-178 | an encoded string is 4 + n + pad bytes, a multiple of 4; its bytes follow the length word; every pad byte is zero; the length word holds n |
| Xdr.StringRoundTrip | src/net/tcp/oncrpc.c:166-178 | decoding an encoded string followed by anything gives back the string and exactly what followed |
| Xdr.EncodeWordsAppend | src/net/tcp/oncrpc.c:186-187 | appending one element to an array appends its word after the earlier ones, in order |
| Xdr.EncodeIntArray | src/net/tcp/oncrpc.c:180-190 | the XDR array encoding; Xdr.IntArrayRoundTrip states its size and its inverse |
| Xdr.DecodeWordsRoundTrip | src/net/tcp/oncrpc.c:186-187 | reading n words back from n encoded elements gives the elements in order and the rest untouched |
| Xdr.IntArrayRoundTrip | src/net/tcp/oncrpc.c:180-190 | an encoded array of n elements is (n+1)*4 bytes, and decoding it gives back the elements and the rest |
| Xdr.EncodeCredSize | src/net/tcp/oncrpc.c:192-220 | a non-AUTH_SYS credential encodes to 8 bytes; an AUTH_SYS one to 8 plus stamp, hostname string, uid, gid and aux-gid array sizes; every encoding is a multiple of 4 |
| Xdr.EncodeCred | src/net/tcp/oncrpc.c:192-220 | the credential encoding; Xdr.EncodeCredSize and Xdr.CredRoundTrip state its size and its inverse |
| Xdr.SysBodyRoundTrip | src/net/tcp/oncrpc.c:207-216 | the AUTH_SYS body decodes back to the same stamp, hostname, uid, gid and aux gids |
| Xdr.CredRoundTrip | src/net/tcp/oncrpc.c:192-220 | decoding an encoded credential gives back the credential and the bytes after it |
| Xdr.ReadCredHeaderOf | src/net/tcp/oncrpc.c:222-228 | reading a credential header from an encoded credential gives its flavor and length field, leaving the rest of the encoding |
| Xdr.AddInt | src/net/tcp/oncrpc.c:256-261 | the buffer grows by the value's big-endian word, reduced to 32 bits, and 4 is returned |
| Xdr.GetInt | src/net/tcp/oncrpc.c:79-87 | the value returned is the buffer's first word, and that word is consumed |
| Xdr.AddString | src/net/tcp/oncrpc.c:166-178 | the buffer grows by exactly the XDR string encoding, and the size returned is the number of bytes appended |
| Xdr.AddIntArray | src/net/tcp/oncrpc.c:180-190 | the buffer grows by the count word and the first `size` elements in order, and (size+1)*4 is returned |
| Xdr.AddCred | src/net/tcp/oncrpc.c:192-220 | a missing buffer or credential writes nothing and returns 0; otherwise the buffer grows by the credential encoding and its length is returned |
| Xdr.GetCred | src/net/tcp/oncrpc.c:222-228 | flavor and length are read from the front of the buffer and consumed, and 8 is returned |
| OncRpc.SetLastFrame | src/net/tcp/oncrpc.c:43 | the result has bit 31 set, keeps the low 31 bits, and adds 2^31 to a value below it |
| OncRpc.GetFrameSize | src/net/tcp/oncrpc.c:44 | the result is below 2^31 and is the value with bit 31 cleared |
| OncRpc.CallFraming | src/net/tcp/oncrpc.c:255-268 | a call is 28 bytes plus both credential encodings plus the payload; its first word has bit 31 set and, cleared, gives the byte count after it |
| OncRpc.CallFitsAllocation | src/net/tcp/oncrpc.c:241-243 | when the credential length fields give their body sizes, the call fits the buffer allocated for it |
| OncRpc.CallRoundTrip | src/net/tcp/oncrpc.c:255-271 | a server decoding a built call recovers xid, program, version, procedure, credential, verifier and payload |
| OncRpc.ReplyFrameRead | src/net/tcp/oncrpc.c:79-87 | the five words at the head of a reply are read back as marking word, xid, REPLY, reply state and accept state, and the rest is the payload |
| OncRpc.CallSpec | src/net/tcp/oncrpc.c:230-301 | the call as written, as a function of the session, the window, the transport's status and the allocations; its cases are stated by OncRpc.CallCases, its xid by OncRpc.MessageCarriesXid, its defects by OncRpc.AsWrittenReplyNeverDispatched, OncRpc.AsWrittenReplyMisdirected and OncRpc.AsWrittenSentCallNotRegistered |
| OncRpc.CallCases | src/net/tcp/oncrpc.c:230-301 | a failed buffer or pending-reply allocation returns -ENOBUFS and changes nothing; a failed pending-call allocation with no window returns -ENOBUFS with the counter advanced by one and nothing else changed; otherwise the counter advances by one; no window queues the call at the head and returns 0; a window sends it and returns the transport's status; the configuration never changes; at most one pending reply is added, at the head |
| OncRpc.RemoveXid | src/net/tcp/oncrpc.c:93-100 | deleting entries never lengthens the list; which entries remain is stated by OncRpc.RemoveXidMembers |
| OncRpc.RemoveXidMembers | src/net/tcp/oncrpc.c:93-100 | the list after the walk holds exactly the entries whose id differs from the reply's |
| OncRpc.RemoveXidAbsent | src/net/tcp/oncrpc.c:93-103 | a list without the id is left as it is and no callback is found |
| OncRpc.MatchedCallbackFound | src/net/tcp/oncrpc.c:93-100 | a callback is only ever taken from an entry carrying the reply's id; OncRpc.MatchedIsLast states that one is taken whenever such an entry exists |
| OncRpc.MatchedCallback | src/net/tcp/oncrpc.c:93-100 | the callback the walk keeps; OncRpc.MatchedIsLast and OncRpc.MatchedUnique state which entry it comes from |
| OncRpc.MatchedIsLast | src/net/tcp/oncrpc.c:93-100 | when some entry carries the id, the callback kept is that of the last entry carrying it, the one the walk reaches last |
| OncRpc.MatchedUnique | src/net/tcp/oncrpc.c:93-100 | an entry whose id no other entry has is the one whose callback is kept, wherever it stands in the list |
| OncRpc.MatchedAtHead | src/net/tcp/oncrpc.c:93-100 | an entry at the head, with an id no other entry has, is the one dispatched, and only it is removed |
| OncRpc.DeliverSpec | src/net/tcp/oncrpc.c:71-107 | a message other than REPLY returns -ENOTSUP with the session unchanged; a reply removes every pending reply with its xid, and dispatches exactly when a callback was found |
| OncRpc.DeliverUnknownOrMatched | src/net/tcp/oncrpc.c:93-105 | a reply for an id nobody waits for returns 0 and changes nothing; after any reply no entry with its id remains |
| OncRpc.DeliverDispatchesLastMatch | src/net/tcp/oncrpc.c:93-105 | a reply whose id some entry carries removes every entry with that id and calls the callback of the last of them with the reply, or returns 0 when that entry has none |
| OncRpc.KeepRefused | src/net/tcp/oncrpc.c:116-122 | the calls left queued are never more than before; which calls stay is stated by OncRpc.KeepRefusedMembers and OncRpc.KeepRefusedSubset |
| OncRpc.KeepRefusedAppend | src/net/tcp/oncrpc.c:116-122 | the drain of a list cut in two is the drain of each part, in order |
| OncRpc.KeepRefusedExtremes | src/net/tcp/oncrpc.c:116-122 | when every send is accepted the queue empties; when every send is refused it stays as it was |
| OncRpc.KeepRefusedMembers | src/net/tcp/oncrpc.c:116-122 | a refused call stays queued, and a call that stays queued was refused or equals one that was |
| OncRpc.KeepRefusedSubset | src/net/tcp/oncrpc.c:116-122 | every call left queued is one whose send was refused |
| OncRpc.WindowSpec | src/net/tcp/oncrpc.c:109-123 | with no window nothing changes and nothing is offered; otherwise every queued call is offered, head first, and exactly the refused ones stay, in their order |
| OncRpc.CloseSpec | src/net/tcp/oncrpc.c:142-164 | both lists are empty afterwards and every other field is unchanged |
| OncRpc.CloseIdempotent | src/net/tcp/oncrpc.c:142-164 | closing a second time leaves the session as the first close left it |
| OncRpc.InitSession | src/net/tcp/oncrpc.c:125-140 | a null session is ignored; otherwise credential, verifier, program and version are set, both lists are empty and the counter is kept |
| OncRpc.CallBufferIsMessage | src/net/tcp/oncrpc.c:255-271 | the buffer built with a placeholder word, then overwritten with the summed frame size and bit 31 and followed by the payload, is the call message |
| OncRpc.AddCallHeader | src/net/tcp/oncrpc.c:256-263 | the buffer grows by xid, CALL, version 2, program, version, procedure, credential and verifier, and the summed size is 24 plus both credential encodings |
| OncRpc.CallIob | src/net/tcp/oncrpc.c:230-301 | a null session returns -EINVAL; otherwise the status, new session state and buffer sent are those of CallSpec |
| OncRpc.DropPendingReplies | src/net/tcp/oncrpc.c:90-100 | the walk leaves exactly the entries with other ids and returns the callback of the last entry with the id |
| OncRpc.Deliver | src/net/tcp/oncrpc.c:71-107 | the new session and the outcome are those of DeliverSpec; the buffer loses 12 bytes for a non-reply and 20 for a reply |
| OncRpc.WindowChanged | src/net/tcp/oncrpc.c:109-123 | the new queue and the calls offered are those of WindowSpec |
| OncRpc.CloseSession | src/net/tcp/oncrpc.c:142-164 | a null session is ignored; otherwise the session becomes CloseSpec of itself and the transport is shut down once with the given status |
| OncRpc.MessageCarriesXid | src/net/tcp/oncrpc.c:256 | the xid written into a call is the counter's value before the call |
| OncRpc.AsWrittenReplyNeverDispatched | src/net/tcp/oncrpc.c:256-297 | as written, when no entry already waits for the id of the call just made, a reply carrying that id is never dispatched, whatever the window and the transport do |
| OncRpc.QueuedCallReplyDropped | src/net/tcp/oncrpc.c:273-297 | on one input: a call queued with counter 7 carries xid 7, its pending reply waits for 8, and the reply to 7 is dropped |
| OncRpc.AsWrittenReplyMisdirected | src/net/tcp/oncrpc.c:256-297 | as written, when an earlier queued or refused call already waits under the id of the call just made, a reply carrying that id goes to the callback of the last such earlier entry, whatever the new call's own callback is |
| OncRpc.TwoQueuedCallsMisdispatch | src/net/tcp/oncrpc.c:256-297 | on one input: two calls queued from counter 7 with callbacks 1 and 2 wait under 8 and 9; the second carries xid 8, and its reply is dispatched to callback 1 |
| OncRpc.MatchedSkipsHead | src/net/tcp/oncrpc.c:93-100 | an entry added at the head with another id does not change which callback a reply is matched to |
| OncRpc.CallKeepsMatch | src/net/tcp/oncrpc.c:256-297 | as written, a call never changes which callback a reply carrying its own xid is matched to, since the entry it registers waits for the next id |
| OncRpc.AsWrittenSentCallNotRegistered | src/net/tcp/oncrpc.c:285-291 | as written, a send the transport accepts leaves no pending reply behind, and only a refused one registers one |
| OncRpc.CallSpecCorrected | src/net/tcp/oncrpc.c:230-301 | the call with the pending reply registered under the xid the call carries and kept only after a successful send; OncRpc.CorrectedReplyDispatched states what that restores |
| OncRpc.CorrectedReplyDispatched | src/net/tcp/oncrpc.c:230-301 | with the corrected call, a call returning 0 has its reply dispatched to its callback, which also unregisters it; a failing call leaves the pending replies as they were |
| NfsOpen.FinalCode | src/net/oncrpc/nfs_open.c:139-140 | the final code is 0 exactly when the request succeeded with NFS closed; an error code passes through; an early success becomes -ECONNRESET |
| NfsOpen.Finished | src/net/oncrpc/nfs_open.c:138-148 | completing the request: the final code and the four shutdowns; its effects are stated by NfsOpen.FinishedShutsAll and NfsOpen.EarlyCompletionFails |
| NfsOpen.FinishedShutsAll | src/net/oncrpc/nfs_open.c:138-148 | completing changes no state and appends four shutdowns, one for each interface, all with the final code |
| NfsOpen.EarlyCompletionFails | src/net/oncrpc/nfs_open.c:139-140 | completing before the NFS conversation is closed never shuts anything down with 0 |
| NfsOpen.ConnectAddresses | src/net/oncrpc/nfs_open.c:158-164 | as written, the peer is cleared and given the port; the local address gets a port in 1..1023 but keeps its stale other fields |
| NfsOpen.ConnectAddressesCorrected | src/net/oncrpc/nfs_open.c:158-164 | both addresses are cleared; the peer has the port and the local port is in 1..1023 |
| NfsOpen.NfsConnect | src/net/oncrpc/nfs_open.c:150-169 | a missing interface or host, or port 0, returns -EINVAL and opens nothing; otherwise one connection is opened on that interface to the host and port, from a local port in 1..1023 with the local address cleared as corrected (see Left out), and the socket's status is returned |
| NfsOpen.StepsPreserveValid | src/net/oncrpc/nfs_open.c:171-385 | the three step handlers keep the states within their enums, keep the mount held while NFS runs, and keep UMNT exactly when NFS is closed |
| NfsOpen.PmStepped | src/net/oncrpc/nfs_open.c:171-211 | the portmapper step; NfsOpen.StepsWaitForWindow, NfsOpen.StepsAdvance, NfsOpen.StepsFail and NfsOpen.StepsPreserveValid state what it does |
| NfsOpen.MountStepped | src/net/oncrpc/nfs_open.c:271-303 | the MOUNT step; the same four lemmas state what it does, including the UMNT step giving up on -EAGAIN |
| NfsOpen.NfsStepped | src/net/oncrpc/nfs_open.c:347-385 | the NFS step; the same four lemmas state what it does |
| NfsOpen.PmDelivered | src/net/oncrpc/nfs_open.c:213-269 | the portmapper reply handler; NfsOpen.GetportReplies, NfsOpen.BadRepliesEnd and NfsOpen.PmDeliveryPreservesValid state what it does |
| NfsOpen.MountDelivered | src/net/oncrpc/nfs_open.c:305-345 | the MOUNT reply handler; NfsOpen.HandleReplies, NfsOpen.UmntReplySucceeds, NfsOpen.BadRepliesEnd and NfsOpen.MountDeliveryPreservesValid state what it does |
| NfsOpen.NfsDelivered | src/net/oncrpc/nfs_open.c:387-455 | the NFS reply handler; NfsOpen.HandleReplies, NfsOpen.BadRepliesEnd and NfsOpen.NfsDeliveryPreservesValid state what it does |
| NfsOpen.ReadDelivered | src/net/oncrpc/nfs_open.c:416-446 | the READ branch of the NFS reply handler; NfsOpen.ReadReplyEffect, NfsOpen.ReadContinues and NfsOpen.OffsetIsTotalCount state what it does |
| NfsOpen.PmDeliveryPreservesValid | src/net/oncrpc/nfs_open.c:213-269 | the portmapper reply handler keeps that invariant |
| NfsOpen.MountDeliveryPreservesValid | src/net/oncrpc/nfs_open.c:305-345 | the MOUNT reply handler keeps that invariant |
| NfsOpen.NfsDeliveryPreservesValid | src/net/oncrpc/nfs_open.c:387-455 | the NFS reply handler keeps that invariant |
| NfsOpen.StepsWaitForWindow | src/net/oncrpc/nfs_open.c:171-385 | with no window each step does nothing; on -EAGAIN each step does nothing, except the UMNT step, which completes the request with -EAGAIN |
| NfsOpen.StepsAdvance | src/net/oncrpc/nfs_open.c:171-385 | a successful call issues GETPORT(MOUNT), GETPORT(NFS), MNT, LOOKUP of the file name or READ of 1300 bytes at the offset, and advances NONE→MOUNTPORT, NONE→MNT, LOOKUP→LOOKUP_SENT, READ→READ_SENT |
| NfsOpen.StepsFail | src/net/oncrpc/nfs_open.c:171-385 | a call failing other than with -EAGAIN, in a state that issues a call, completes the request with that code |
| NfsOpen.BadRepliesEnd | src/net/oncrpc/nfs_open.c:213-455 | a reply with a non-zero accept state, or arriving in a state that expects none, completes the request with -EPROTO |
| NfsOpen.ReplyErrorsEnd | src/net/oncrpc/nfs_open.c:213-455 | a reply that does not decode completes the request with the decoder's code; a GETPORT reply naming port 0 completes it with -EINVAL and opens nothing; a refused connection is recorded and completes it with the socket's status; a READ whose data the transfer refuses completes it with that status after the seeks, the offset advance and the data |
| NfsOpen.GetportReplies | src/net/oncrpc/nfs_open.c:227-261 | the MOUNT port reply connects the mount interface to that port, advances to NFSPORT and issues GETPORT(NFS); the NFS port reply connects the nfs interface, shuts the portmapper down with 0 and closes its conversation |
| NfsOpen.HandleReplies | src/net/oncrpc/nfs_open.c:319-413 | the MNT reply stores the root handle and moves to LOOKUP; the LOOKUP reply replaces the handle and moves to READ; each issues its next call when it can |
| NfsOpen.ReadReplyEffect | src/net/oncrpc/nfs_open.c:416-446 | a READ reply seeks to the file size and back to 0 when the offset was 0, advances the offset by the count modulo 2^64, and hands the data over; before end of file it issues the next READ, at end of file it shuts NFS down, closes NFS, moves the mount to UMNT and issues UMNT |
| NfsOpen.ReadContinues | src/net/oncrpc/nfs_open.c:429-438 | a READ reply before end of file changes only the offset and the trace, and the next READ is at the advanced offset |
| NfsOpen.UmntReplySucceeds | src/net/oncrpc/nfs_open.c:332-334 | the UMNT reply completes the request, which succeeds: every interface is shut down with 0 |
| NfsOpen.OffsetIsTotalCount | src/net/oncrpc/nfs_open.c:429 | after any number of READ replies before end of file, a READ is outstanding, the handle is unchanged and the offset is the start plus the sum of the counts, modulo 2^64 |
| NfsOpen.ReadTraceOf | src/net/oncrpc/nfs_open.c:416-446 | those replies add exactly their seeks, data and next READ to the trace, reply by reply |
| NfsOpen.ReadRequestsAt | src/net/oncrpc/nfs_open.c:370-372 | the i-th READ issued asks for 1300 bytes at the start plus the counts of the first i+1 replies |
| NfsOpen.ReadOffsetsAreRunningSums | src/net/oncrpc/nfs_open.c:370-446 | the calls issued while reading are exactly one READ per reply, each at the running sum of the counts |
| NfsOpen.TwoChunkOffsets | src/net/oncrpc/nfs_open.c:370-372 | from offset 0, two replies of 1300 bytes lead to READs at 1300 and at 2600 |
| NfsOpen.WholeConversation | src/net/oncrpc/nfs_open.c:171-455 | for a file that fits one READ, with everything succeeding, the request issues GETPORT, connect, GETPORT, connect, MNT, LOOKUP, READ, seeks, data and UMNT in that order and completes with success |
| NfsOpen.NfsRequest.constructor | src/net/oncrpc/nfs_open.c:521-557 | a new request starts with every conversation in its first state, an empty handle, offset 0 and the given names |
| NfsOpen.NfsRequest.Done | src/net/oncrpc/nfs_open.c:138-148 | the request's fields become Finished of the old ones |
| NfsOpen.NfsRequest.Connect | src/net/oncrpc/nfs_open.c:150-169 | the status and the trace entry are those of NfsConnect on the request's host |
| NfsOpen.NfsRequest.PmStep | src/net/oncrpc/nfs_open.c:171-211 | the request's fields become PmStepped of the old ones |
| NfsOpen.NfsRequest.PmDeliver | src/net/oncrpc/nfs_open.c:213-269 | the fields become PmDelivered of the old ones, and 0 is returned |
| NfsOpen.NfsRequest.MountStep | src/net/oncrpc/nfs_open.c:271-303 | the fields become MountStepped of the old ones |
| NfsOpen.NfsRequest.MountDeliver | src/net/oncrpc/nfs_open.c:305-345 | the fields become MountDelivered of the old ones, and 0 is returned |
| NfsOpen.NfsRequest.Step | src/net/oncrpc/nfs_open.c:347-385 | the fields become NfsStepped of the old ones |
| NfsOpen.NfsRequest.Deliver | src/net/oncrpc/nfs_open.c:387-455 | the fields become NfsDelivered of the old ones, and 0 is returned |
| NfsOpen.NfsRequest.DeliverRead | src/net/oncrpc/nfs_open.c:416-446 | the fields become ReadDelivered of the old ones |
| NfsOpen.LastSlash | src/net/oncrpc/nfs_open.c:556-557 | the position found holds '/' and no later character does; none is found only when the path holds no '/' |
| NfsOpen.Basename | src/net/oncrpc/nfs_open.c:557 | the file name: what follows the last '/'; NfsOpen.SplitRejoins and NfsOpen.ExportFileSplit state it |
| NfsOpen.Dirname | src/net/oncrpc/nfs_open.c:556 | the mount point: what precedes the last '/', or "." without one; NfsOpen.SplitRejoins and NfsOpen.ExportFileSplit state it |
| NfsOpen.SplitRejoins | src/net/oncrpc/nfs_open.c:556-557 | for a path with a '/' after its first character, mount point + "/" + file name is the path, and the file name holds no '/' |
| NfsOpen.ExportFileSplit | src/net/oncrpc/nfs_open.c:556-557 | the path "/export/file.txt" gives mount point "/export" and file name "file.txt" |
| NfsOpen.OpenFailures | src/net/oncrpc/nfs_open.c:518-562 | a request is returned exactly when the status is 0; a missing path or host gives -EINVAL; port 0 gives -EINVAL; a failed allocation of the request gives -ENOMEM |
| NfsOpen.OpenSpec | src/net/oncrpc/nfs_open.c:512-576 | the open as a function of the URI, the setting, the allocations, the socket's status and rand(); NfsOpen.OpenFailures and NfsOpen.OpenStart state what it gives |
| NfsOpen.OpenStart | src/net/oncrpc/nfs_open.c:512-568 | a successful open starts every conversation in its first state at offset 0, names the host "iPXE" unless configured, splits the path into mount point and file name, and has connected the portmapper interface |
| NfsOpen.Open | src/net/oncrpc/nfs_open.c:512-576 | the status is that of OpenSpec; a fresh request holding OpenSpec's fields is returned exactly on success |
| NfsOpen.AsWrittenLocalNotCleared | src/net/oncrpc/nfs_open.c:158-159 | as written, a local address with stale fields keeps them and differs from the cleared one |
| NfsOpen.CorrectedAddressesCleared | src/net/oncrpc/nfs_open.c:158-164 | corrected, the peer is as before and the local address is the one a cleared address would give, with nothing stale |

## Left out

- Memory and ownership:
  - `alloc_iob`, `malloc`, `free`, reference counting and `nfs_free` are not modelled.
  - The commented-out free of pending replies in `oncrpc_close_session` is not modelled.
  - The double-free hazards around I/O buffers are not modelled.
  - Allocation success is an input, and its failure yields the source's -ENOBUFS or -ENOMEM.
- The transport:
  - `xfer_window`, `xfer_deliver_iob`, `xfer_deliver_raw`, `xfer_seek`, `xfer_open_named_socket` and `intf_shutdown` are inputs (window, send status, refusals, connect status, delivery status), or events appended to a trace or to the session's shutdown list.
  - The interface descriptor tables and `intf_init`/`intf_plug_plug` are left out.
- Integer encoding: `oncrpc_iob_add_int` and `oncrpc_iob_get_int` are defined in a header that is not part of this model. They are modelled as a 4-byte big-endian write or read that returns 4.
- The RPC client calls: `portmap_getport`, `mount_mnt`, `mount_umnt`, `nfs_lookup`, `nfs_read`, `oncrpc_get_reply` and the `*_get_*_reply` decoders are in files that are not part of this model. Their status codes and decoded fields (port, handle, file size, count, eof, data) are inputs, and the port is taken as already 16 bits.
- Session setup: `portmap_init_session`, `mount_init_session`, `nfs_init_session` and `oncrpc_init_cred_sys` are not part of this model.
- Settings and URI: `fetch_string_setting_copy` and `uri_port` are inputs; the URI's port is the one already defaulted to the portmapper's.
- `rand()` is an input; only its use modulo 1023 is modelled.
- Logging: `DBGC` is left out.
- The path split: only the split at the last '/' is modelled, and a path with no '/' gives ".". The C library's handling of trailing slashes is not modelled.
- OncRpc.Deliver: requires a frame of three words (12 bytes), and of five words (20 bytes) when its message kind is REPLY, because the source reads those words without checking the length; a shorter frame is read past its end there. The RFC 5531 verifier and the body of a rejected reply are not parsed; nor are they in the source.
- OncRpc.DeliverSpec: requires the same frame lengths as OncRpc.Deliver, for the same reason.
- NfsOpen.NfsConnect: uses the corrected clearing of src/net/oncrpc/nfs_open.c:158-159, so every field of the local address other than its port is 0; as written those fields keep stale stack contents (see the third Findings row, where the as-written behaviour is modelled and shown).
- NfsOpen.NfsRequest.Connect: inherits the corrected clearing from NfsOpen.NfsConnect, as do NfsOpen.GetportReplies, NfsOpen.WholeConversation and NfsOpen.OpenStart, which state a local address of `SockAddr(1 + rand % 1023, 0)`.
- OncRpc.WindowChanged: the transport's answers are a sequence `refused` with one entry per queued call.
- OncRpc.Session.constructor: a fresh session is zero-filled, and its credential references are taken as AUTH_NONE.
- NfsOpen.AfterReads: the fold over READ replies stops applying replies once no READ is outstanding. It is used only for replies before end of file.
- NfsOpen.OffsetIsTotalCount: the offset is stated modulo 2^64, as the 64-bit counter wraps. That the counts sum to the file size depends on the server and is not stated.
- Bit 31 of a received record-marking word, the last-fragment flag of section 11 of RFC 5531, is never checked, as in the code, and neither the code nor the model reassembles a reply split over several fragments.
- The model follows the code as written where it:
  - queues and drains calls from the list head, so the newest call is offered first;
  - skips a refused send and goes on draining;
  - removes every pending reply with a matching xid;
  - gives up the UMNT step on -EAGAIN;
  - returns -ENOBUFS on a failed call allocation.

## Findings

| source | as written | input that shows it | evidently intended | confidence | as-written member | corrected member |
|---|---|---|---|---|---|---|
| src/net/tcp/oncrpc.c:256-296 | the call carries `rpc_id` before the post-increment, but the pending reply is registered under `rpc_id` after it | a session with counter 7 and no window: the call carries xid 7, the pending reply waits for 8, and the server's reply to 7 is dropped; after a second queued call (xid 8), the reply to it goes to the first call's callback (OncRpc.AsWrittenReplyMisdirected, OncRpc.TwoQueuedCallsMisdispatch) | register the pending reply under the xid the call carries | not executed | OncRpc.AsWrittenReplyNeverDispatched | OncRpc.CorrectedReplyDispatched |
| src/net/tcp/oncrpc.c:287-291 | `if ( ! rc )` frees the pending reply and returns when the transport accepts the call, and registers it when the send fails | any session with window and a send status of 0: the call is sent, its pending reply is freed, and the reply can never reach the callback | return early on a failed send (`if ( rc )`); register the pending reply after a successful one | not executed | OncRpc.AsWrittenSentCallNotRegistered | OncRpc.CorrectedReplyDispatched |
| src/net/oncrpc/nfs_open.c:158-159 | the second `memset` clears `peer` again with the size of `local`, so `local` keeps whatever the stack held | any call of `nfs_connect` with a local address whose fields other than the port are non-zero (the model's `rest` = 1) | clear `local` with the second `memset` | not executed | NfsOpen.AsWrittenLocalNotCleared | NfsOpen.CorrectedAddressesCleared |
