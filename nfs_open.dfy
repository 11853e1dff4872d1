/**
 * The NFS open state machine: a portmapper conversation (GETPORT for MOUNT,
 * then for NFS), a MOUNT conversation (MNT, later UMNT) and an NFS
 * conversation (LOOKUP, then READ until end of file).
 *
 * The three conversation states are the C enums, kept as numbers so that
 * the source's `++` and `--` read the same here. The effects on the four
 * interfaces (connections opened, calls issued, shutdowns, seeks and data
 * handed to the consumer) are appended to a trace. The RPC calls and the
 * reply decoders are opaque: their status codes and decoded fields are
 * inputs.
 */
module NfsOpen {

  import opened Optional
  import opened Errno
  import opened Xdr

  /** Bytes asked for by each READ. */
  const NfsRsize: nat := 1300

  const PortmapNone: nat := 0
  const PortmapMountPort: nat := 1
  const PortmapNfsPort: nat := 2
  const PortmapClosed: nat := 3

  const MountNone: nat := 0
  const MountMnt: nat := 1
  const MountUmnt: nat := 2
  const MountClosed: nat := 3

  const NfsNone: nat := 0
  const NfsLookup: nat := 1
  const NfsLookupSent: nat := 2
  const NfsRead: nat := 3
  const NfsReadSent: nat := 4
  const NfsClosed: nat := 5

  type U16 = x: int | 0 <= x < 0x1_0000

  /** `file_offset` is a 64-bit unsigned counter and wraps. */
  const U64Range: nat := 0x1_0000_0000_0000_0000
  type U64 = x: int | 0 <= x < 0x1_0000_0000_0000_0000

  /** The data-transfer interface to the consumer and the three RPC interfaces. */
  datatype Iface = Xfer | PmIntf | MountIntf | NfsIntf

  /** The calls the state machine issues; their encoders are not part of this model. */
  datatype Request =
    | GetMountPort
    | GetNfsPort
    | Mnt(path: string)
    | Umnt(path: string)
    | Lookup(fh: seq<Byte>, name: string)
    | Read(fh: seq<Byte>, offset: U64, length: nat)

  /** A socket address: the port, and the remaining fields as one number (0 once cleared). */
  datatype SockAddr = SockAddr(port: U16, rest: nat)

  datatype Event =
    | Connected(iface: Iface, peer: SockAddr, host: string, local: SockAddr)
    | Sent(iface: Iface, request: Request)
    | Shutdown(iface: Iface, rc: int)
    | Seek(position: nat)
    | Delivered(data: seq<Byte>)

  /**
   * What the outside world answers during one handler: the window of the
   * interface a step looks at, the status of the RPC call it issues, the
   * status of opening a socket, the status of handing data to the consumer,
   * and the value `rand()` returns.
   */
  datatype Env = Env(window: nat, callRc: int, connectRc: int, deliverRc: int, rand: nat)

  datatype ReadReply = ReadReply(filesize: nat, count: nat, eof: bool, data: seq<Byte>)

  /**
   * A delivered reply as the handlers see it: the accept state read by the
   * RPC layer, the status of the one decoder the handler applies, and the
   * fields that decoder yields (a port, a file handle, or READ results).
   */
  datatype Reply = Reply(acceptState: nat, decodeRc: int, port: U16, fh: seq<Byte>, read: ReadReply)

  /** The fields of an NFS request that the handlers read and write. */
  datatype NfsView = NfsView(
    pmState: nat,
    mountState: nat,
    nfsState: nat,
    currentFh: seq<Byte>,
    fileOffset: U64,
    mountpoint: string,
    filename: string,
    host: string,
    hostname: string,
    trace: seq<Event>)

  // ---------------------------------------------------------------------
  // Completion and connection
  // ---------------------------------------------------------------------

  /** The code the request completes with: success only once the NFS conversation is closed. */
  function FinalCode(nfsState: nat, rc: int): (r: int)
    ensures r == 0 <==> rc == 0 && nfsState == NfsClosed
    ensures rc != 0 ==> r == rc
    ensures rc == 0 && nfsState != NfsClosed ==> r == ECONNRESET
  {
    if rc == 0 && nfsState != NfsClosed then ECONNRESET else rc
  }

  function Shutdowns(rc: int): seq<Event> {
    [Shutdown(Xfer, rc), Shutdown(PmIntf, rc), Shutdown(MountIntf, rc), Shutdown(NfsIntf, rc)]
  }

  /** Completing the request: every interface is shut down with the final code. */
  function Finished(v: NfsView, rc: int): NfsView {
    v.(trace := v.trace + Shutdowns(FinalCode(v.nfsState, rc)))
  }

  /** Completing changes no state and shuts down each of the four interfaces, all with the final code. */
  lemma FinishedShutsAll(v: NfsView, rc: int)
    ensures var r := Finished(v, rc);
            r.(trace := v.trace) == v &&
            |r.trace| == |v.trace| + 4 && r.trace[..|v.trace|] == v.trace &&
            (forall i :: |v.trace| <= i < |r.trace| ==>
               r.trace[i].Shutdown? && r.trace[i].rc == FinalCode(v.nfsState, rc)) &&
            {Xfer, PmIntf, MountIntf, NfsIntf} <= set i | |v.trace| <= i < |r.trace| :: r.trace[i].iface
  {
    var r := Finished(v, rc);
    assert r.trace[|v.trace|].iface == Xfer;
    assert r.trace[|v.trace| + 1].iface == PmIntf;
    assert r.trace[|v.trace| + 2].iface == MountIntf;
    assert r.trace[|v.trace| + 3].iface == NfsIntf;
  }

  /** The addresses as the code fills them: the second clear hits `peer` again, so `local` keeps stale fields. */
  function ConnectAddresses(port: U16, rand: nat, stale: nat): (r: (SockAddr, SockAddr))
    ensures r.0 == SockAddr(port, 0)
    ensures r.1.port == 1 + rand % 1023 && r.1.rest == stale
  {
    (SockAddr(port, 0), SockAddr(1 + rand % 1023, stale))
  }

  /** The addresses with `local` cleared as well. */
  function ConnectAddressesCorrected(port: U16, rand: nat): (r: (SockAddr, SockAddr))
    ensures r.0 == SockAddr(port, 0) && r.1.rest == 0
    ensures 1 <= r.1.port <= 1023
  {
    (SockAddr(port, 0), SockAddr(1 + rand % 1023, 0))
  }

  datatype Connection = Connection(rc: int, events: seq<Event>)

  /**
   * Opening a connection: a missing interface, a missing host name or port 0
   * is refused with EINVAL and opens nothing; otherwise the socket is opened
   * towards `port` from a privileged local port and its status is returned.
   */
  function NfsConnect(intf: Option<Iface>, port: U16, host: Option<string>, rand: nat, openRc: int): (r: Connection)
    ensures intf.None? || host.None? || port == 0 ==> r == Connection(EINVAL, [])
    ensures intf.Some? && host.Some? && port != 0 ==>
              r.rc == openRc && |r.events| == 1 && r.events[0].Connected? &&
              r.events[0].iface == intf.value && r.events[0].peer.port == port &&
              r.events[0].host == host.value && 1 <= r.events[0].local.port <= 1023
  {
    if intf.None? || host.None? || port == 0 then Connection(EINVAL, [])
    else
      var (peer, local) := ConnectAddressesCorrected(port, rand);
      Connection(openRc, [Connected(intf.value, peer, host.value, local)])
  }

  // ---------------------------------------------------------------------
  // The three conversations, as functions of the request's fields
  // ---------------------------------------------------------------------

  /** `nfs_pm_step`: issue the GETPORT the portmapper state calls for, if there is room. */
  function PmStepped(v: NfsView, e: Env): NfsView {
    if e.window == 0 then v
    else if v.pmState == PortmapNone then
      if e.callRc == EAGAIN then v
      else if e.callRc != 0 then Finished(v, e.callRc)
      else v.(pmState := v.pmState + 1, trace := v.trace + [Sent(PmIntf, GetMountPort)])
    else if v.pmState == PortmapNfsPort then
      if e.callRc == EAGAIN then v
      else if e.callRc != 0 then Finished(v, e.callRc)
      else v.(trace := v.trace + [Sent(PmIntf, GetNfsPort)])
    else v
  }

  /** `nfs_pm_deliver`: a GETPORT reply connects the next interface. */
  function PmDelivered(v: NfsView, reply: Reply, e: Env): NfsView {
    if reply.acceptState != 0 then Finished(v, EPROTO)
    else if v.pmState == PortmapMountPort then
      if reply.decodeRc != 0 then Finished(v, reply.decodeRc)
      else
        var c := NfsConnect(Some(MountIntf), reply.port, Some(v.host), e.rand, e.connectRc);
        var v1 := v.(trace := v.trace + c.events);
        if c.rc != 0 then Finished(v1, c.rc)
        else PmStepped(v1.(pmState := v.pmState + 1), e)
    else if v.pmState == PortmapNfsPort then
      if reply.decodeRc != 0 then Finished(v, reply.decodeRc)
      else
        var c := NfsConnect(Some(NfsIntf), reply.port, Some(v.host), e.rand, e.connectRc);
        var v1 := v.(trace := v.trace + c.events);
        if c.rc != 0 then Finished(v1, c.rc)
        else v1.(trace := v1.trace + [Shutdown(PmIntf, 0)], pmState := v.pmState + 1)
    else Finished(v, EPROTO)
  }

  /** `nfs_mount_step`: issue MNT, or UMNT once reading is over. */
  function MountStepped(v: NfsView, e: Env): NfsView {
    if e.window == 0 then v
    else if v.mountState == MountNone then
      if e.callRc == EAGAIN then v
      else if e.callRc != 0 then Finished(v, e.callRc)
      else v.(mountState := v.mountState + 1, trace := v.trace + [Sent(MountIntf, Mnt(v.mountpoint))])
    else if v.mountState == MountUmnt then
      if e.callRc != 0 then Finished(v, e.callRc)
      else v.(trace := v.trace + [Sent(MountIntf, Umnt(v.mountpoint))])
    else v
  }

  /** `nfs_mount_deliver`: the MNT reply yields the root handle; the UMNT reply completes the request. */
  function MountDelivered(v: NfsView, reply: Reply, e: Env): NfsView {
    if reply.acceptState != 0 then Finished(v, EPROTO)
    else if v.mountState == MountMnt then
      if reply.decodeRc != 0 then Finished(v, reply.decodeRc)
      else NfsStepped(v.(currentFh := reply.fh, nfsState := NfsLookup), e)
    else if v.mountState == MountUmnt then Finished(v, 0)
    else Finished(v, EPROTO)
  }

  /** `nfs_step`: issue LOOKUP of the file name, or READ at the current offset. */
  function NfsStepped(v: NfsView, e: Env): NfsView {
    if e.window == 0 then v
    else if v.nfsState == NfsLookup then
      if e.callRc == EAGAIN then v
      else if e.callRc != 0 then Finished(v, e.callRc)
      else v.(nfsState := v.nfsState + 1, trace := v.trace + [Sent(NfsIntf, Lookup(v.currentFh, v.filename))])
    else if v.nfsState == NfsRead then
      if e.callRc == EAGAIN then v
      else if e.callRc != 0 then Finished(v, e.callRc)
      else v.(nfsState := v.nfsState + 1,
              trace := v.trace + [Sent(NfsIntf, Read(v.currentFh, v.fileOffset, NfsRsize))])
    else v
  }

  /** The seeks issued before the first data: to the file size, then back to 0. */
  function SeeksBefore(offset: U64, filesize: nat): seq<Event> {
    if offset == 0 then [Seek(filesize), Seek(0)] else []
  }

  /** `nfs_deliver`: the LOOKUP reply yields the file handle; a READ reply hands data over. */
  function NfsDelivered(v: NfsView, reply: Reply, e: Env): NfsView {
    if reply.acceptState != 0 then Finished(v, EPROTO)
    else if v.nfsState == NfsLookupSent then
      if reply.decodeRc != 0 then Finished(v, reply.decodeRc)
      else NfsStepped(v.(currentFh := reply.fh, nfsState := v.nfsState + 1), e)
    else if v.nfsState == NfsReadSent then
      if reply.decodeRc != 0 then Finished(v, reply.decodeRc)
      else ReadDelivered(v, reply.read, e)
    else Finished(v, EPROTO)
  }

  /** The READ branch of `nfs_deliver`, once the reply has been decoded. */
  function ReadDelivered(v: NfsView, rr: ReadReply, e: Env): NfsView
    requires v.nfsState == NfsReadSent
  {
    var v1 := v.(fileOffset := (v.fileOffset + rr.count) % U64Range,
                 trace := v.trace + SeeksBefore(v.fileOffset, rr.filesize) + [Delivered(rr.data)]);
    if e.deliverRc != 0 then Finished(v1, e.deliverRc)
    else if !rr.eof then NfsStepped(v1.(nfsState := v.nfsState - 1), e)
    else MountStepped(v1.(trace := v1.trace + [Shutdown(NfsIntf, 0)],
                          nfsState := v.nfsState + 1,
                          mountState := v.mountState + 1), e)
  }

  // ---------------------------------------------------------------------
  // Properties of the conversations
  // ---------------------------------------------------------------------

  /**
   * The states the handlers can reach from a fresh request: every state is
   * within its enum, the NFS conversation runs while the mount is held, and
   * the mount is being released exactly when the NFS conversation is closed.
   */
  predicate Valid(v: NfsView) {
    && v.pmState <= PortmapClosed
    && v.mountState <= MountUmnt
    && v.nfsState <= NfsClosed
    && (NfsLookup <= v.nfsState <= NfsReadSent ==> v.mountState == MountMnt)
    && (v.mountState == MountUmnt <==> v.nfsState == NfsClosed)
  }

  lemma StepsPreserveValid(v: NfsView, e: Env)
    requires Valid(v)
    ensures Valid(PmStepped(v, e)) && Valid(MountStepped(v, e)) && Valid(NfsStepped(v, e))
  {
  }

  lemma PmDeliveryPreservesValid(v: NfsView, reply: Reply, e: Env)
    requires Valid(v)
    ensures Valid(PmDelivered(v, reply, e))
  {
  }

  lemma MountDeliveryPreservesValid(v: NfsView, reply: Reply, e: Env)
    requires Valid(v)
    ensures Valid(MountDelivered(v, reply, e))
  {
    if reply.acceptState == 0 && v.mountState == MountMnt && reply.decodeRc == 0 {
      StepsPreserveValid(v.(currentFh := reply.fh, nfsState := NfsLookup), e);
    }
  }

  lemma NfsDeliveryPreservesValid(v: NfsView, reply: Reply, e: Env)
    requires Valid(v)
    ensures Valid(NfsDelivered(v, reply, e))
  {
    if reply.acceptState == 0 && v.nfsState == NfsReadSent && reply.decodeRc == 0 {
      var rr := reply.read;
      var v1 := v.(fileOffset := (v.fileOffset + rr.count) % U64Range,
                   trace := v.trace + SeeksBefore(v.fileOffset, rr.filesize) + [Delivered(rr.data)]);
      StepsPreserveValid(v1.(nfsState := NfsRead), e);
      StepsPreserveValid(v1.(trace := v1.trace + [Shutdown(NfsIntf, 0)], nfsState := NfsClosed,
                             mountState := MountUmnt), e);
    }
  }

  /** A step with no window does nothing; a step whose call must wait (EAGAIN) does nothing, except the UMNT step, which gives up. */
  lemma StepsWaitForWindow(v: NfsView, e: Env)
    ensures e.window == 0 ==> PmStepped(v, e) == v && MountStepped(v, e) == v && NfsStepped(v, e) == v
    ensures e.callRc == EAGAIN ==> PmStepped(v, e) == v && NfsStepped(v, e) == v
    ensures e.callRc == EAGAIN && v.mountState != MountUmnt ==> MountStepped(v, e) == v
    ensures e.callRc == EAGAIN && e.window != 0 && v.mountState == MountUmnt ==>
              MountStepped(v, e) == Finished(v, EAGAIN)
  {
  }

  /** A step whose call succeeds advances its state by one at most and issues the call of that state. */
  lemma StepsAdvance(v: NfsView, e: Env)
    requires e.window != 0 && e.callRc == 0
    ensures v.pmState == PortmapNone ==>
              PmStepped(v, e) == v.(pmState := PortmapMountPort, trace := v.trace + [Sent(PmIntf, GetMountPort)])
    ensures v.pmState == PortmapNfsPort ==>
              PmStepped(v, e) == v.(trace := v.trace + [Sent(PmIntf, GetNfsPort)])
    ensures v.mountState == MountNone ==>
              MountStepped(v, e) == v.(mountState := MountMnt, trace := v.trace + [Sent(MountIntf, Mnt(v.mountpoint))])
    ensures v.nfsState == NfsLookup ==>
              NfsStepped(v, e) == v.(nfsState := NfsLookupSent,
                                     trace := v.trace + [Sent(NfsIntf, Lookup(v.currentFh, v.filename))])
    ensures v.nfsState == NfsRead ==>
              NfsStepped(v, e) == v.(nfsState := NfsReadSent,
                                     trace := v.trace + [Sent(NfsIntf, Read(v.currentFh, v.fileOffset, NfsRsize))])
  {
  }

  /** A step whose call fails other than with EAGAIN completes the request with that code. */
  lemma StepsFail(v: NfsView, e: Env)
    requires e.window != 0 && e.callRc != 0 && e.callRc != EAGAIN
    ensures v.pmState in {PortmapNone, PortmapNfsPort} ==> PmStepped(v, e) == Finished(v, e.callRc)
    ensures v.mountState in {MountNone, MountUmnt} ==> MountStepped(v, e) == Finished(v, e.callRc)
    ensures v.nfsState in {NfsLookup, NfsRead} ==> NfsStepped(v, e) == Finished(v, e.callRc)
  {
  }

  /** A reply that was not accepted, or that no state expects, completes the request with EPROTO. */
  lemma BadRepliesEnd(v: NfsView, reply: Reply, e: Env)
    ensures reply.acceptState != 0 || v.pmState !in {PortmapMountPort, PortmapNfsPort} ==>
              PmDelivered(v, reply, e) == Finished(v, EPROTO)
    ensures reply.acceptState != 0 || v.mountState !in {MountMnt, MountUmnt} ==>
              MountDelivered(v, reply, e) == Finished(v, EPROTO)
    ensures reply.acceptState != 0 || v.nfsState !in {NfsLookupSent, NfsReadSent} ==>
              NfsDelivered(v, reply, e) == Finished(v, EPROTO)
  {
  }

  /**
   * The other error exits of the reply handlers: a reply that does not
   * decode completes the request with the decoder's code; a GETPORT reply
   * naming port 0 completes it with EINVAL and opens nothing; a connection
   * the socket layer refuses is recorded and completes it with that status;
   * a READ whose data the transfer refuses completes it with that status,
   * after the seeks, the offset advance and the data handed over.
   */
  lemma ReplyErrorsEnd(v: NfsView, reply: Reply, e: Env)
    ensures reply.acceptState == 0 && reply.decodeRc != 0 ==>
              && (v.pmState in {PortmapMountPort, PortmapNfsPort} ==>
                    PmDelivered(v, reply, e) == Finished(v, reply.decodeRc))
              && (v.mountState == MountMnt ==> MountDelivered(v, reply, e) == Finished(v, reply.decodeRc))
              && (v.nfsState in {NfsLookupSent, NfsReadSent} ==>
                    NfsDelivered(v, reply, e) == Finished(v, reply.decodeRc))
    ensures reply.acceptState == 0 && reply.decodeRc == 0 && reply.port == 0 &&
            v.pmState in {PortmapMountPort, PortmapNfsPort} ==>
              PmDelivered(v, reply, e) == Finished(v, EINVAL)
    ensures var local := SockAddr(1 + e.rand % 1023, 0);
            var peer := SockAddr(reply.port, 0);
            reply.acceptState == 0 && reply.decodeRc == 0 && reply.port != 0 && e.connectRc != 0 ==>
              && (v.pmState == PortmapMountPort ==>
                    PmDelivered(v, reply, e)
                      == Finished(v.(trace := v.trace + [Connected(MountIntf, peer, v.host, local)]), e.connectRc))
              && (v.pmState == PortmapNfsPort ==>
                    PmDelivered(v, reply, e)
                      == Finished(v.(trace := v.trace + [Connected(NfsIntf, peer, v.host, local)]), e.connectRc))
    ensures var rr := reply.read;
            reply.acceptState == 0 && reply.decodeRc == 0 && v.nfsState == NfsReadSent && e.deliverRc != 0 ==>
              NfsDelivered(v, reply, e)
                == Finished(v.(fileOffset := (v.fileOffset + rr.count) % U64Range,
                               trace := v.trace + SeeksBefore(v.fileOffset, rr.filesize) + [Delivered(rr.data)]),
                            e.deliverRc)
  {
  }

  /**
   * The first GETPORT reply connects the mount interface to the port it
   * names, advances to NFSPORT and issues the GETPORT for NFS; the second
   * connects the NFS interface, shuts the portmapper interface down with 0
   * and closes the portmapper conversation.
   */
  lemma GetportReplies(v: NfsView, reply: Reply, e: Env)
    requires reply.acceptState == 0 && reply.decodeRc == 0 && reply.port != 0
    requires e.connectRc == 0 && e.window != 0 && e.callRc == 0
    ensures var c := Connected(MountIntf, SockAddr(reply.port, 0), v.host, SockAddr(1 + e.rand % 1023, 0));
            v.pmState == PortmapMountPort ==>
              PmDelivered(v, reply, e) ==
                v.(pmState := PortmapNfsPort, trace := v.trace + [c, Sent(PmIntf, GetNfsPort)])
    ensures var c := Connected(NfsIntf, SockAddr(reply.port, 0), v.host, SockAddr(1 + e.rand % 1023, 0));
            v.pmState == PortmapNfsPort ==>
              PmDelivered(v, reply, e) ==
                v.(pmState := PortmapClosed, trace := v.trace + [c, Shutdown(PmIntf, 0)])
  {
    var c := Connected(MountIntf, SockAddr(reply.port, 0), v.host, SockAddr(1 + e.rand % 1023, 0));
    assert v.trace + [c] + [Sent(PmIntf, GetNfsPort)] == v.trace + [c, Sent(PmIntf, GetNfsPort)];
    var d := Connected(NfsIntf, SockAddr(reply.port, 0), v.host, SockAddr(1 + e.rand % 1023, 0));
    assert v.trace + [d] + [Shutdown(PmIntf, 0)] == v.trace + [d, Shutdown(PmIntf, 0)];
  }

  /** The MNT reply stores the root handle and starts the LOOKUP; the LOOKUP reply replaces the handle and starts reading. */
  lemma HandleReplies(v: NfsView, reply: Reply, e: Env)
    requires reply.acceptState == 0 && reply.decodeRc == 0
    ensures var r := MountDelivered(v, reply, e);
            v.mountState == MountMnt ==>
              r.currentFh == reply.fh && r.mountState == MountMnt &&
              (e.window == 0 || e.callRc == EAGAIN ==> r.nfsState == NfsLookup) &&
              (e.window != 0 && e.callRc == 0 ==>
                 r.nfsState == NfsLookupSent && r.trace == v.trace + [Sent(NfsIntf, Lookup(reply.fh, v.filename))])
    ensures var r := NfsDelivered(v, reply, e);
            v.nfsState == NfsLookupSent ==>
              r.currentFh == reply.fh && r.fileOffset == v.fileOffset &&
              (e.window == 0 || e.callRc == EAGAIN ==> r.nfsState == NfsRead) &&
              (e.window != 0 && e.callRc == 0 ==>
                 r.nfsState == NfsReadSent &&
                 r.trace == v.trace + [Sent(NfsIntf, Read(reply.fh, v.fileOffset, NfsRsize))])
  {
  }

  /**
   * A READ reply advances the offset by its count (modulo 2^64), seeks the
   * consumer to the file size and back to 0 when the offset was 0, and hands
   * the data over. Before end of file it issues the next READ; at end of file
   * it shuts the NFS interface down, closes the NFS conversation and issues
   * UMNT.
   */
  lemma ReadReplyEffect(v: NfsView, rr: ReadReply, e: Env)
    requires v.nfsState == NfsReadSent && v.mountState == MountMnt
    requires e.window != 0 && e.callRc == 0 && e.deliverRc == 0
    ensures var r := NfsDelivered(v, Reply(0, 0, 0, [], rr), e);
            var shown := v.trace + SeeksBefore(v.fileOffset, rr.filesize) + [Delivered(rr.data)];
            var offset := (v.fileOffset + rr.count) % U64Range;
            r.fileOffset == offset && r.currentFh == v.currentFh &&
            (!rr.eof ==> r.nfsState == NfsReadSent && r.mountState == MountMnt &&
                         r.trace == shown + [Sent(NfsIntf, Read(v.currentFh, offset, NfsRsize))]) &&
            (rr.eof ==> r.nfsState == NfsClosed && r.mountState == MountUmnt &&
                        r.trace == shown + [Shutdown(NfsIntf, 0), Sent(MountIntf, Umnt(v.mountpoint))])
  {
    var shown := v.trace + SeeksBefore(v.fileOffset, rr.filesize) + [Delivered(rr.data)];
    assert shown + [Shutdown(NfsIntf, 0)] + [Sent(MountIntf, Umnt(v.mountpoint))]
        == shown + [Shutdown(NfsIntf, 0), Sent(MountIntf, Umnt(v.mountpoint))];
  }

  /** A READ reply before end of file, with everything succeeding, issues the next READ at the advanced offset. */
  lemma ReadContinues(v: NfsView, rr: ReadReply, e: Env)
    requires v.nfsState == NfsReadSent && !rr.eof
    requires e.window != 0 && e.callRc == 0 && e.deliverRc == 0
    ensures var offset := (v.fileOffset + rr.count) % U64Range;
            NfsDelivered(v, ReadOk(rr), e) ==
              v.(fileOffset := offset,
                 trace := v.trace + SeeksBefore(v.fileOffset, rr.filesize) + [Delivered(rr.data)] +
                          [Sent(NfsIntf, Read(v.currentFh, offset, NfsRsize))])
  {
  }

  /** The UMNT reply completes the request with success on every interface. */
  lemma UmntReplySucceeds(v: NfsView, reply: Reply, e: Env)
    requires Valid(v) && v.mountState == MountUmnt && reply.acceptState == 0
    ensures MountDelivered(v, reply, e) == v.(trace := v.trace + Shutdowns(0))
  {
  }

  /** Completing before the NFS conversation is closed is never reported as success. */
  lemma EarlyCompletionFails(v: NfsView, rc: int)
    requires v.nfsState != NfsClosed
    ensures forall i :: |v.trace| <= i < |Finished(v, rc).trace| ==>
              Finished(v, rc).trace[i].rc != 0
  {
  }

  // ---------------------------------------------------------------------
  // A whole file read: the offsets of successive READs
  // ---------------------------------------------------------------------

  /** A successfully decoded READ reply. */
  function ReadOk(rr: ReadReply): Reply {
    Reply(0, 0, 0, [], rr)
  }

  /**
   * The state after `nfs_deliver` has handled the first `n` of the READ
   * replies `rs`, in order, each while a READ is outstanding (the fold stops
   * once none is; see AfterReadsDelivers).
   */
  function AfterReads(v: NfsView, rs: seq<ReadReply>, n: nat, e: Env): NfsView
    requires n <= |rs|
  {
    if n == 0 then v
    else
      var w := AfterReads(v, rs, n - 1, e);
      if w.nfsState == NfsReadSent then ReadDelivered(w, rs[n - 1], e) else w
  }

  /** While a READ is outstanding, each step of the fold is the whole `nfs_deliver` handler. */
  lemma AfterReadsDelivers(v: NfsView, rs: seq<ReadReply>, n: nat, e: Env)
    requires 0 < n <= |rs| && AfterReads(v, rs, n - 1, e).nfsState == NfsReadSent
    ensures AfterReads(v, rs, n, e) == NfsDelivered(AfterReads(v, rs, n - 1, e), ReadOk(rs[n - 1]), e)
  {
  }

  /** The sum of the counts of the first `n` replies. */
  function TotalCount(rs: seq<ReadReply>, n: nat): nat
    requires n <= |rs|
  {
    if n == 0 then 0 else TotalCount(rs, n - 1) + rs[n - 1].count
  }

  /** The offset after the first `n` replies, starting from `offset`. */
  function OffsetAfter(offset: U64, rs: seq<ReadReply>, n: nat): U64
    requires n <= |rs|
  {
    (offset + TotalCount(rs, n)) % U64Range
  }

  lemma ModAdd(a: nat, b: nat)
    ensures (a % U64Range + b) % U64Range == (a + b) % U64Range
  {
    var q := a / U64Range;
    assert a == q * U64Range + a % U64Range;
    assert a + b == (a % U64Range + b) + q * U64Range;
  }

  lemma NextOffset(offset: U64, rs: seq<ReadReply>, n: nat)
    requires 0 < n <= |rs|
    ensures (OffsetAfter(offset, rs, n - 1) + rs[n - 1].count) % U64Range == OffsetAfter(offset, rs, n)
  {
    ModAdd(offset + TotalCount(rs, n - 1), rs[n - 1].count);
  }

  /**
   * Reading a file: after READ replies that are not at end of file, a READ
   * is outstanding, the handle is unchanged, and the offset has advanced by
   * the sum of their counts (modulo 2^64).
   */
  lemma {:induction false} OffsetIsTotalCount(v: NfsView, rs: seq<ReadReply>, n: nat, e: Env)
    requires n <= |rs| && v.nfsState == NfsReadSent
    requires e.window != 0 && e.callRc == 0 && e.deliverRc == 0
    requires forall i :: 0 <= i < |rs| ==> !rs[i].eof
    ensures var r := AfterReads(v, rs, n, e);
            r.nfsState == NfsReadSent && r.currentFh == v.currentFh &&
            r.fileOffset == OffsetAfter(v.fileOffset, rs, n)
  {
    if n > 0 {
      OffsetIsTotalCount(v, rs, n - 1, e);
      ReadStateStep(AfterReads(v, rs, n - 1, e), rs[n - 1], e);
      NextOffset(v.fileOffset, rs, n);
    }
  }

  lemma ReadStateStep(w: NfsView, rr: ReadReply, e: Env)
    requires w.nfsState == NfsReadSent && !rr.eof
    requires e.window != 0 && e.callRc == 0 && e.deliverRc == 0
    ensures var r := ReadDelivered(w, rr, e);
            r.nfsState == NfsReadSent && r.currentFh == w.currentFh &&
            r.fileOffset == (w.fileOffset + rr.count) % U64Range
  {
  }

  /** The events of one READ reply: the seeks when the offset was 0, the data, and the next READ. */
  function ReadEvents(fh: seq<Byte>, before: U64, after: U64, rr: ReadReply): seq<Event> {
    SeeksBefore(before, rr.filesize) + [Delivered(rr.data), Sent(NfsIntf, Read(fh, after, NfsRsize))]
  }

  /** The events of the first `n` READ replies. */
  function ReadTrace(fh: seq<Byte>, offset: U64, rs: seq<ReadReply>, n: nat): seq<Event>
    requires n <= |rs|
  {
    if n == 0 then []
    else
      ReadTrace(fh, offset, rs, n - 1) +
        ReadEvents(fh, OffsetAfter(offset, rs, n - 1), OffsetAfter(offset, rs, n), rs[n - 1])
  }

  lemma Regroup<T>(a: seq<T>, b: seq<T>, c: seq<T>, x: T, y: T)
    ensures a + b + c + [x] + [y] == a + (b + (c + [x, y]))
  {
  }

  /** After READ replies that are not at end of file, the trace has grown by exactly their read events. */
  lemma {:induction false} ReadTraceOf(v: NfsView, rs: seq<ReadReply>, n: nat, e: Env)
    requires n <= |rs| && v.nfsState == NfsReadSent
    requires e.window != 0 && e.callRc == 0 && e.deliverRc == 0
    requires forall i :: 0 <= i < |rs| ==> !rs[i].eof
    ensures AfterReads(v, rs, n, e).trace == v.trace + ReadTrace(v.currentFh, v.fileOffset, rs, n)
  {
    if n == 0 {
      assert v.trace + [] == v.trace;
    } else {
      ReadTraceOf(v, rs, n - 1, e);
      OffsetIsTotalCount(v, rs, n - 1, e);
      NextOffset(v.fileOffset, rs, n);
      ReadTraceStep(v.trace, AfterReads(v, rs, n - 1, e), rs[n - 1], e, ReadTrace(v.currentFh, v.fileOffset, rs, n - 1));
    }
  }

  lemma ReadTraceStep(start: seq<Event>, w: NfsView, rr: ReadReply, e: Env, t: seq<Event>)
    requires w.nfsState == NfsReadSent && !rr.eof
    requires e.window != 0 && e.callRc == 0 && e.deliverRc == 0
    requires w.trace == start + t
    ensures ReadDelivered(w, rr, e).trace ==
              start + (t + ReadEvents(w.currentFh, w.fileOffset, (w.fileOffset + rr.count) % U64Range, rr))
  {
    var sent := Sent(NfsIntf, Read(w.currentFh, (w.fileOffset + rr.count) % U64Range, NfsRsize));
    Regroup(start, t, SeeksBefore(w.fileOffset, rr.filesize), Delivered(rr.data), sent);
  }

  /** The READs issued after the first `n` replies, one per reply, each at the offset they have reached. */
  function ReadRequests(fh: seq<Byte>, offset: U64, rs: seq<ReadReply>, n: nat): seq<Request>
    requires n <= |rs|
  {
    if n == 0 then []
    else ReadRequests(fh, offset, rs, n - 1) + [Read(fh, OffsetAfter(offset, rs, n), NfsRsize)]
  }

  /** The i-th READ asks for NfsRsize bytes at the offset plus the counts of the first i+1 replies. */
  lemma {:induction false} ReadRequestsAt(fh: seq<Byte>, offset: U64, rs: seq<ReadReply>, n: nat)
    requires n <= |rs|
    ensures |ReadRequests(fh, offset, rs, n)| == n
    ensures forall i :: 0 <= i < n ==>
              ReadRequests(fh, offset, rs, n)[i] == Read(fh, (offset + TotalCount(rs, i + 1)) % U64Range, NfsRsize)
  {
    if n > 0 {
      ReadRequestsAt(fh, offset, rs, n - 1);
    }
  }

  /** The requests issued, in order. */
  function Requests(trace: seq<Event>): seq<Request>
    decreases |trace|
  {
    if trace == [] then []
    else
      var last := trace[|trace| - 1];
      Requests(trace[..|trace| - 1]) + (if last.Sent? then [last.request] else [])
  }

  lemma {:induction false} RequestsAppend(a: seq<Event>, b: seq<Event>)
    ensures Requests(a + b) == Requests(a) + Requests(b)
    decreases |b|
  {
    if b == [] {
      assert a + b == a;
    } else {
      assert (a + b)[..|a + b| - 1] == a + b[..|b| - 1];
      RequestsAppend(a, b[..|b| - 1]);
    }
  }

  lemma {:induction false} NoRequests(t: seq<Event>)
    requires forall i :: 0 <= i < |t| ==> !t[i].Sent?
    ensures Requests(t) == []
    decreases |t|
  {
    if t != [] {
      NoRequests(t[..|t| - 1]);
    }
  }

  /** One reply's events hold one request: the next READ. */
  lemma ReadEventsRequest(t: seq<Event>, fh: seq<Byte>, before: U64, after: U64, rr: ReadReply)
    ensures Requests(t + ReadEvents(fh, before, after, rr)) == Requests(t) + [Read(fh, after, NfsRsize)]
  {
    RequestsAppend(t, ReadEvents(fh, before, after, rr));
    var shown := SeeksBefore(before, rr.filesize) + [Delivered(rr.data)];
    var sent := Sent(NfsIntf, Read(fh, after, NfsRsize));
    assert ReadEvents(fh, before, after, rr) == shown + [sent];
    RequestsAppend(shown, [sent]);
    NoRequests(shown);
    assert Requests([sent]) == [sent.request] by {
      assert [sent][..0] == [];
    }
  }

  /** The requests among the read events are the READs at the running sums. */
  lemma {:induction false} RequestsOfReadTrace(fh: seq<Byte>, offset: U64, rs: seq<ReadReply>, n: nat)
    requires n <= |rs|
    ensures Requests(ReadTrace(fh, offset, rs, n)) == ReadRequests(fh, offset, rs, n)
  {
    if n > 0 {
      RequestsOfReadTrace(fh, offset, rs, n - 1);
      ReadEventsRequest(ReadTrace(fh, offset, rs, n - 1),
                        fh, OffsetAfter(offset, rs, n - 1), OffsetAfter(offset, rs, n), rs[n - 1]);
    }
  }

  /**
   * The READs issued while reading a file are exactly one per reply, each at
   * the running sum of the counts so far (see ReadRequestsAt).
   */
  lemma ReadOffsetsAreRunningSums(v: NfsView, rs: seq<ReadReply>, e: Env)
    requires v.nfsState == NfsReadSent
    requires e.window != 0 && e.callRc == 0 && e.deliverRc == 0
    requires forall i :: 0 <= i < |rs| ==> !rs[i].eof
    ensures Requests(AfterReads(v, rs, |rs|, e).trace) ==
              Requests(v.trace) + ReadRequests(v.currentFh, v.fileOffset, rs, |rs|)
  {
    ReadTraceOf(v, rs, |rs|, e);
    RequestsAppend(v.trace, ReadTrace(v.currentFh, v.fileOffset, rs, |rs|));
    RequestsOfReadTrace(v.currentFh, v.fileOffset, rs, |rs|);
  }

  /** Two full chunks from offset 0: the next READs ask for 1300 bytes at 1300, then at 2600. */
  lemma TwoChunkOffsets(fh: seq<Byte>, d1: seq<Byte>, d2: seq<Byte>)
    ensures var rs := [ReadReply(2600, 1300, false, d1), ReadReply(2600, 1300, false, d2)];
            ReadRequests(fh, 0, rs, 2) == [Read(fh, 1300, NfsRsize), Read(fh, 2600, NfsRsize)]
  {
    var rs := [ReadReply(2600, 1300, false, d1), ReadReply(2600, 1300, false, d2)];
    ReadRequestsAt(fh, 0, rs, 2);
    assert TotalCount(rs, 1) == 1300 && TotalCount(rs, 2) == 2600;
  }

  // ---------------------------------------------------------------------
  // The whole conversation
  // ---------------------------------------------------------------------

  /**
   * A file that fits in one READ, with every call, connection and delivery
   * succeeding: the request runs the three conversations in order and
   * completes with success on every interface.
   */
  lemma WholeConversation(v0: NfsView, e: Env, mountPort: U16, nfsPort: U16,
                          root: seq<Byte>, fh: seq<Byte>, rr: ReadReply)
    requires v0.pmState == PortmapNone && v0.mountState == MountNone && v0.nfsState == NfsNone
    requires v0.fileOffset == 0
    requires e.window != 0 && e.callRc == 0 && e.connectRc == 0 && e.deliverRc == 0
    requires mountPort != 0 && nfsPort != 0 && rr.eof
    ensures
      var local := SockAddr(1 + e.rand % 1023, 0);
      var v1 := PmStepped(v0, e);
      var v2 := PmDelivered(v1, Reply(0, 0, mountPort, [], rr), e);
      var v3 := PmDelivered(v2, Reply(0, 0, nfsPort, [], rr), e);
      var v4 := MountStepped(v3, e);
      var v5 := MountDelivered(v4, Reply(0, 0, 0, root, rr), e);
      var v6 := NfsDelivered(v5, Reply(0, 0, 0, fh, rr), e);
      var v7 := NfsDelivered(v6, ReadOk(rr), e);
      var v8 := MountDelivered(v7, Reply(0, 0, 0, [], rr), e);
      v8.trace == v0.trace + [
        Sent(PmIntf, GetMountPort),
        Connected(MountIntf, SockAddr(mountPort, 0), v0.host, local),
        Sent(PmIntf, GetNfsPort),
        Connected(NfsIntf, SockAddr(nfsPort, 0), v0.host, local),
        Shutdown(PmIntf, 0),
        Sent(MountIntf, Mnt(v0.mountpoint)),
        Sent(NfsIntf, Lookup(root, v0.filename)),
        Sent(NfsIntf, Read(fh, 0, NfsRsize)),
        Seek(rr.filesize), Seek(0), Delivered(rr.data),
        Shutdown(NfsIntf, 0),
        Sent(MountIntf, Umnt(v0.mountpoint))] + Shutdowns(0)
      && v8.pmState == PortmapClosed && v8.mountState == MountUmnt && v8.nfsState == NfsClosed
  {
    var v1 := PmStepped(v0, e);
    StepsAdvance(v0, e);
    var v2 := PmDelivered(v1, Reply(0, 0, mountPort, [], rr), e);
    GetportReplies(v1, Reply(0, 0, mountPort, [], rr), e);
    var v3 := PmDelivered(v2, Reply(0, 0, nfsPort, [], rr), e);
    GetportReplies(v2, Reply(0, 0, nfsPort, [], rr), e);
    var v4 := MountStepped(v3, e);
    StepsAdvance(v3, e);
    var v5 := MountDelivered(v4, Reply(0, 0, 0, root, rr), e);
    HandleReplies(v4, Reply(0, 0, 0, root, rr), e);
    var v6 := NfsDelivered(v5, Reply(0, 0, 0, fh, rr), e);
    HandleReplies(v5, Reply(0, 0, 0, fh, rr), e);
    var v7 := NfsDelivered(v6, ReadOk(rr), e);
    ReadReplyEffect(v6, rr, e);
    var v8 := MountDelivered(v7, Reply(0, 0, 0, [], rr), e);
    assert Valid(v7);
    UmntReplySucceeds(v7, Reply(0, 0, 0, [], rr), e);
  }

  // ---------------------------------------------------------------------
  // The request object and its handlers
  // ---------------------------------------------------------------------

  class NfsRequest {
    var pmState: nat
    var mountState: nat
    var nfsState: nat
    var currentFh: seq<Byte>
    var fileOffset: U64
    var mountpoint: string
    var filename: string
    var host: string
    var hostname: string
    var trace: seq<Event>

    function View(): NfsView
      reads this
    {
      NfsView(pmState, mountState, nfsState, currentFh, fileOffset, mountpoint, filename, host, hostname, trace)
    }

    /** A zero-filled request holding the names it was opened with. */
    constructor (mountpoint: string, filename: string, host: string, hostname: string)
      ensures View() == NfsView(0, 0, 0, [], 0, mountpoint, filename, host, hostname, [])
    {
      pmState, mountState, nfsState := 0, 0, 0;
      currentFh, fileOffset := [], 0;
      this.mountpoint, this.filename, this.host, this.hostname := mountpoint, filename, host, hostname;
      trace := [];
    }

    /** `nfs_done`. */
    method Done(rc: int)
      modifies this
      ensures View() == Finished(old(View()), rc)
    {
      var code := rc;
      if code == 0 && nfsState != NfsClosed {
        code := ECONNRESET;
      }
      trace := trace + [Shutdown(Xfer, code)];
      trace := trace + [Shutdown(PmIntf, code)];
      trace := trace + [Shutdown(MountIntf, code)];
      trace := trace + [Shutdown(NfsIntf, code)];
    }

    /** `nfs_connect` on one of this request's interfaces, recording the connection. */
    method Connect(intf: Iface, port: U16, rand: nat, openRc: int) returns (rc: int)
      modifies this
      ensures var c := NfsConnect(Some(intf), port, Some(old(host)), rand, openRc);
              rc == c.rc && View() == old(View()).(trace := old(trace) + c.events)
    {
      if port == 0 {
        return EINVAL;
      }
      var peer := SockAddr(port, 0);
      var local := SockAddr(1 + rand % 1023, 0);
      trace := trace + [Connected(intf, peer, host, local)];
      rc := openRc;
    }

    /** `nfs_pm_step`. */
    method PmStep(e: Env)
      modifies this
      ensures View() == PmStepped(old(View()), e)
    {
      if e.window == 0 {
        return;
      }
      if pmState == PortmapNone {
        var rc := e.callRc;
        if rc == EAGAIN {
          return;
        }
        if rc != 0 {
          Done(rc);
          return;
        }
        trace := trace + [Sent(PmIntf, GetMountPort)];
        pmState := pmState + 1;
        return;
      }
      if pmState == PortmapNfsPort {
        var rc := e.callRc;
        if rc == EAGAIN {
          return;
        }
        if rc != 0 {
          Done(rc);
          return;
        }
        trace := trace + [Sent(PmIntf, GetNfsPort)];
      }
    }

    /** `nfs_pm_deliver`; it always reports success to the caller. */
    method PmDeliver(reply: Reply, e: Env) returns (result: int)
      modifies this
      ensures result == 0 && View() == PmDelivered(old(View()), reply, e)
    {
      result := 0;
      if reply.acceptState != 0 {
        Done(EPROTO);
        return;
      }
      if pmState == PortmapMountPort {
        if reply.decodeRc != 0 {
          Done(reply.decodeRc);
          return;
        }
        var rc := Connect(MountIntf, reply.port, e.rand, e.connectRc);
        if rc != 0 {
          Done(rc);
          return;
        }
        pmState := pmState + 1;
        PmStep(e);
        return;
      }
      if pmState == PortmapNfsPort {
        if reply.decodeRc != 0 {
          Done(reply.decodeRc);
          return;
        }
        var rc := Connect(NfsIntf, reply.port, e.rand, e.connectRc);
        if rc != 0 {
          Done(rc);
          return;
        }
        trace := trace + [Shutdown(PmIntf, 0)];
        pmState := pmState + 1;
        return;
      }
      Done(EPROTO);
    }

    /** `nfs_mount_step`. */
    method MountStep(e: Env)
      modifies this
      ensures View() == MountStepped(old(View()), e)
    {
      if e.window == 0 {
        return;
      }
      if mountState == MountNone {
        var rc := e.callRc;
        if rc == EAGAIN {
          return;
        }
        if rc != 0 {
          Done(rc);
          return;
        }
        trace := trace + [Sent(MountIntf, Mnt(mountpoint))];
        mountState := mountState + 1;
        return;
      }
      if mountState == MountUmnt {
        var rc := e.callRc;
        if rc != 0 {
          Done(rc);
          return;
        }
        trace := trace + [Sent(MountIntf, Umnt(mountpoint))];
      }
    }

    /** `nfs_mount_deliver`; it always reports success to the caller. */
    method MountDeliver(reply: Reply, e: Env) returns (result: int)
      modifies this
      ensures result == 0 && View() == MountDelivered(old(View()), reply, e)
    {
      result := 0;
      if reply.acceptState != 0 {
        Done(EPROTO);
        return;
      }
      if mountState == MountMnt {
        if reply.decodeRc != 0 {
          Done(reply.decodeRc);
          return;
        }
        currentFh := reply.fh;
        nfsState := NfsLookup;
        Step(e);
        return;
      }
      if mountState == MountUmnt {
        Done(0);
        return;
      }
      Done(EPROTO);
    }

    /** `nfs_step`. */
    method Step(e: Env)
      modifies this
      ensures View() == NfsStepped(old(View()), e)
    {
      if e.window == 0 {
        return;
      }
      if nfsState == NfsLookup {
        var rc := e.callRc;
        if rc == EAGAIN {
          return;
        }
        if rc != 0 {
          Done(rc);
          return;
        }
        trace := trace + [Sent(NfsIntf, Lookup(currentFh, filename))];
        nfsState := nfsState + 1;
        return;
      }
      if nfsState == NfsRead {
        var rc := e.callRc;
        if rc == EAGAIN {
          return;
        }
        if rc != 0 {
          Done(rc);
          return;
        }
        trace := trace + [Sent(NfsIntf, Read(currentFh, fileOffset, NfsRsize))];
        nfsState := nfsState + 1;
      }
    }

    /** `nfs_deliver`; it always reports success to the caller. */
    method Deliver(reply: Reply, e: Env) returns (result: int)
      modifies this
      ensures result == 0 && View() == NfsDelivered(old(View()), reply, e)
    {
      result := 0;
      if reply.acceptState != 0 {
        Done(EPROTO);
        return;
      }
      if nfsState == NfsLookupSent {
        if reply.decodeRc != 0 {
          Done(reply.decodeRc);
          return;
        }
        currentFh := reply.fh;
        nfsState := nfsState + 1;
        Step(e);
        return;
      }
      if nfsState == NfsReadSent {
        if reply.decodeRc != 0 {
          Done(reply.decodeRc);
          return;
        }
        DeliverRead(reply.read, e);
        return;
      }
      Done(EPROTO);
    }

    /** The READ branch of `nfs_deliver`. */
    method DeliverRead(rr: ReadReply, e: Env)
      requires nfsState == NfsReadSent
      modifies this
      ensures View() == ReadDelivered(old(View()), rr, e)
    {
      ghost var v := View();
      if fileOffset == 0 {
        trace := trace + [Seek(rr.filesize)];
        trace := trace + [Seek(0)];
      }
      assert trace == v.trace + SeeksBefore(v.fileOffset, rr.filesize);
      fileOffset := (fileOffset + rr.count) % U64Range;
      trace := trace + [Delivered(rr.data)];
      ghost var v1 := View();
      assert v1 == v.(fileOffset := (v.fileOffset + rr.count) % U64Range,
                      trace := v.trace + SeeksBefore(v.fileOffset, rr.filesize) + [Delivered(rr.data)]);
      if e.deliverRc != 0 {
        Done(e.deliverRc);
        return;
      }
      if !rr.eof {
        nfsState := nfsState - 1;
        assert View() == v1.(nfsState := v.nfsState - 1);
        Step(e);
      } else {
        trace := trace + [Shutdown(NfsIntf, 0)];
        nfsState := nfsState + 1;
        mountState := mountState + 1;
        assert View() == v1.(trace := v1.trace + [Shutdown(NfsIntf, 0)],
                             nfsState := v.nfsState + 1,
                             mountState := v.mountState + 1);
        MountStep(e);
      }
    }
  }

  // ---------------------------------------------------------------------
  // Opening a request
  // ---------------------------------------------------------------------

  /** The position of the last '/' in a path, if any. */
  function LastSlash(s: string): (r: Option<nat>)
    ensures r.Some? ==> r.value < |s| && s[r.value] == '/' &&
                        forall j :: r.value < j < |s| ==> s[j] != '/'
    ensures r.None? ==> forall j :: 0 <= j < |s| ==> s[j] != '/'
    decreases |s|
  {
    if s == [] then None
    else if s[|s| - 1] == '/' then Some(|s| - 1)
    else LastSlash(s[..|s| - 1])
  }

  /** The file name: what follows the last '/'. */
  function Basename(s: string): string {
    match LastSlash(s)
    case Some(i) => s[i + 1..]
    case None => s
  }

  /** The directory: what precedes the last '/' ("/" when that is the first character, "." without one). */
  function Dirname(s: string): string {
    match LastSlash(s)
    case Some(i) => if i == 0 then "/" else s[..i]
    case None => "."
  }

  /** Splitting a path at its last '/' loses nothing, and the file name holds no '/'. */
  lemma SplitRejoins(s: string)
    requires LastSlash(s).Some? && LastSlash(s).value > 0
    ensures Dirname(s) + "/" + Basename(s) == s
    ensures '/' !in Basename(s)
  {
    var i := LastSlash(s).value;
    assert s == s[..i] + [s[i]] + s[i + 1..];
  }

  /** The path of `nfs://host/export/file.txt` mounts "/export" and reads "file.txt". */
  lemma ExportFileSplit()
    ensures Dirname("/export/file.txt") == "/export" && Basename("/export/file.txt") == "file.txt"
  {
    var s := "/export/file.txt";
    LastSlashSkips(s, 8);
    assert s[..8][..7] == "/export";
    assert LastSlash(s) == Some(7);
  }

  /** Characters after position `k` that are not '/' do not move the last '/'. */
  lemma {:induction false} LastSlashSkips(s: string, k: nat)
    requires k <= |s| && forall j :: k <= j < |s| ==> s[j] != '/'
    ensures LastSlash(s) == LastSlash(s[..k])
    decreases |s| - k
  {
    if k < |s| {
      assert s[..|s| - 1][..k] == s[..k];
      LastSlashSkips(s[..|s| - 1], k);
    } else {
      assert s[..k] == s;
    }
  }

  /** What the URI supplies: the path, the host, and the port (the portmapper's when none is given). */
  datatype Uri = Uri(path: Option<string>, host: Option<string>, port: U16)

  datatype Opened = Opened(rc: int, request: Option<NfsView>)

  /**
   * `nfs_open`: `allocOk`, `hostDupOk` and `pathDupOk` say whether the
   * request, the default host name and the copy of the path could be
   * allocated; `setting` is the configured host name, if any.
   */
  function OpenSpec(uri: Uri, allocOk: bool, setting: Option<string>, hostDupOk: bool, pathDupOk: bool,
                    rand: nat, openRc: int): Opened
  {
    if uri.path.None? || uri.host.None? then Opened(EINVAL, None)
    else if !allocOk then Opened(ENOMEM, None)
    else if setting.None? && !hostDupOk then Opened(ENOMEM, None)
    else if !pathDupOk then Opened(ENOMEM, None)
    else
      var hostname := if setting.Some? then setting.value else "iPXE";
      var path := uri.path.value;
      var c := NfsConnect(Some(PmIntf), uri.port, uri.host, rand, openRc);
      if c.rc != 0 then Opened(c.rc, None)
      else Opened(0, Some(NfsView(0, 0, 0, [], 0, Dirname(path), Basename(path), uri.host.value, hostname, c.events)))
  }

  /** A URI without a path or a host is refused, and every failure leaves no request behind. */
  lemma OpenFailures(uri: Uri, allocOk: bool, setting: Option<string>, hostDupOk: bool, pathDupOk: bool,
                     rand: nat, openRc: int)
    ensures var r := OpenSpec(uri, allocOk, setting, hostDupOk, pathDupOk, rand, openRc);
            (r.rc == 0 <==> r.request.Some?) &&
            (uri.path.None? || uri.host.None? ==> r.rc == EINVAL) &&
            ((uri.path.Some? && uri.host.Some? && uri.port == 0 && allocOk && pathDupOk &&
              (setting.Some? || hostDupOk)) ==> r.rc == EINVAL) &&
            (uri.path.Some? && uri.host.Some? && !allocOk ==> r.rc == ENOMEM)
  {
  }

  /**
   * A successful open starts every conversation in its first state, names
   * the host "iPXE" unless configured otherwise, splits the path into the
   * mount point and the file name, and has connected the portmapper
   * interface to the URI's port.
   */
  lemma OpenStart(uri: Uri, allocOk: bool, setting: Option<string>, hostDupOk: bool, pathDupOk: bool,
                  rand: nat, openRc: int)
    requires OpenSpec(uri, allocOk, setting, hostDupOk, pathDupOk, rand, openRc).rc == 0
    ensures var v := OpenSpec(uri, allocOk, setting, hostDupOk, pathDupOk, rand, openRc).request.value;
            Valid(v) && v.pmState == PortmapNone && v.mountState == MountNone && v.nfsState == NfsNone &&
            v.fileOffset == 0 &&
            v.hostname == (if setting.Some? then setting.value else "iPXE") &&
            v.mountpoint == Dirname(uri.path.value) && v.filename == Basename(uri.path.value) &&
            v.host == uri.host.value &&
            v.trace == [Connected(PmIntf, SockAddr(uri.port, 0), uri.host.value, SockAddr(1 + rand % 1023, 0))]
  {
  }

  /** `nfs_open`: on success the new request is returned; on any failure nothing is. */
  method Open(uri: Uri, allocOk: bool, setting: Option<string>, hostDupOk: bool, pathDupOk: bool,
              rand: nat, openRc: int) returns (rc: int, nfs: NfsRequest?)
    ensures var r := OpenSpec(uri, allocOk, setting, hostDupOk, pathDupOk, rand, openRc);
            rc == r.rc && (nfs != null <==> r.request.Some?) &&
            (nfs != null ==> fresh(nfs) && nfs.View() == r.request.value)
  {
    if uri.path.None? || uri.host.None? {
      return EINVAL, null;
    }
    if !allocOk {
      return ENOMEM, null;
    }
    var hostname: string;
    if setting.Some? {
      hostname := setting.value;
    } else {
      if !hostDupOk {
        return ENOMEM, null;
      }
      hostname := "iPXE";
    }
    if !pathDupOk {
      return ENOMEM, null;
    }
    var path := uri.path.value;
    nfs := new NfsRequest(Dirname(path), Basename(path), uri.host.value, hostname);
    rc := nfs.Connect(PmIntf, uri.port, rand, openRc);
    if rc != 0 {
      nfs := null;
    }
  }

  // ---------------------------------------------------------------------
  // Finding: the local address is never cleared
  // ---------------------------------------------------------------------

  /** As written, whatever the local address held before the call survives in its other fields. */
  lemma AsWrittenLocalNotCleared(port: U16, rand: nat)
    ensures ConnectAddresses(port, rand, 1).1.rest != 0
    ensures ConnectAddresses(port, rand, 1).1 != ConnectAddressesCorrected(port, rand).1
  {
  }

  /** Corrected, both addresses are cleared before their ports are set, whatever was there. */
  lemma CorrectedAddressesCleared(port: U16, rand: nat, stale: nat)
    ensures ConnectAddressesCorrected(port, rand).0 == ConnectAddresses(port, rand, stale).0
    ensures ConnectAddressesCorrected(port, rand).1 == ConnectAddresses(port, rand, 0).1
    ensures ConnectAddressesCorrected(port, rand).1.rest == 0
  {
  }
}
