/**
 * The ONC RPC session engine of src/net/tcp/oncrpc.c: the record-marking
 * word (section 11 of RFC 5531), the call message (section 9 of RFC 5531),
 * and a session holding a transaction-id counter, a list of calls waiting
 * for transport window and a list of replies waiting for their callback.
 *
 * Both lists are intrusive linked lists in the source; here each is a
 * sequence whose first element is the list head.  `list_add` inserts at the
 * head, and `list_for_each_entry_safe` visits from the head onwards.
 */
module OncRpc {
  import opened Optional
  import opened Errno
  import opened Xdr

  /** Bit 31 of the record-marking word: the last fragment of a record. */
  const LastFrameBit: U32 := 0x8000_0000

  const OncRpcCall: U32 := 0
  const OncRpcReply: U32 := 1
  /** The RPC protocol version, 2 (section 9 of RFC 5531). */
  const OncRpcVersion: U32 := 2
  /** ONCRPC_HEADER_SIZE: twelve 32-bit words. */
  const HeaderSize: nat := 48

  /** `SET_LAST_FRAME` on a `uint32_t`: sets bit 31. */
  function SetLastFrame(x: U32): (r: U32)
    ensures r >= LastFrameBit
    ensures GetFrameSize(r) == x % LastFrameBit
    ensures x < LastFrameBit ==> r == x + LastFrameBit
  {
    if x >= LastFrameBit then x else x + LastFrameBit
  }

  /** `GET_FRAME_SIZE`: clears bit 31. */
  function GetFrameSize(x: U32): (r: U32)
    ensures r < LastFrameBit
    ensures x < LastFrameBit ==> r == x
    ensures x >= LastFrameBit ==> r == x - LastFrameBit
  {
    x % LastFrameBit
  }

  /** Everything of a call after the record-marking word. */
  function CallBody(xid: U32, prog: U32, vers: U32, proc: U32, cred: Cred, verf: Cred,
                    payload: seq<Byte>): seq<Byte>
    requires Encodable(cred) && Encodable(verf)
  {
    Word(xid) + (Word(OncRpcCall) + (Word(OncRpcVersion) + (Word(prog) + (Word(vers)
      + (Word(proc) + (EncodeCred(cred) + (EncodeCred(verf) + payload)))))))
  }

  /** The buffer `oncrpc_call_iob` builds: the marking word, then the body. */
  function CallMessage(xid: U32, prog: U32, vers: U32, proc: U32, cred: Cred, verf: Cred,
                       payload: seq<Byte>): seq<Byte>
    requires Encodable(cred) && Encodable(verf)
  {
    var body := CallBody(xid, prog, vers, proc, cred, verf, payload);
    Word(SetLastFrame(ToU32(|body|))) + body
  }

  /**
   * The first word of a call is the byte count of the rest with bit 31 set,
   * and `GET_FRAME_SIZE` of it gives that count back.
   */
  lemma CallFraming(xid: U32, prog: U32, vers: U32, proc: U32, cred: Cred, verf: Cred,
                    payload: seq<Byte>)
    requires Encodable(cred) && Encodable(verf)
    ensures var m := CallMessage(xid, prog, vers, proc, cred, verf, payload);
      && |m| == 28 + |EncodeCred(cred)| + |EncodeCred(verf)| + |payload|
      && WordValue(m) >= LastFrameBit
      && (|m| - 4 < LastFrameBit ==> GetFrameSize(WordValue(m)) == |m| - 4)
  {
    var body := CallBody(xid, prog, vers, proc, cred, verf, payload);
    var w := SetLastFrame(ToU32(|body|));
    DecodeWordOf(w, body);
  }

  /**
   * When the length fields of credential and verifier give their body
   * sizes, the call fits the buffer `oncrpc_call_iob` allocates for it.
   */
  lemma CallFitsAllocation(xid: U32, prog: U32, vers: U32, proc: U32, cred: Cred, verf: Cred,
                           payload: seq<Byte>)
    requires Encodable(cred) && Encodable(verf)
    requires |EncodeCred(cred)| == 8 + cred.length && |EncodeCred(verf)| == 8 + verf.length
    ensures |CallMessage(xid, prog, vers, proc, cred, verf, payload)|
      <= HeaderSize + |payload| + cred.length + verf.length
  {
    CallFraming(xid, prog, vers, proc, cred, verf, payload);
  }

  /** The fields of a call, as a server reads them. */
  datatype CallHeader = CallHeader(xid: U32, prog: U32, vers: U32, proc: U32,
                                   cred: Cred, verf: Cred, payload: seq<Byte>)

  /** Program, version, procedure, credential and verifier, then the payload. */
  function DecodeCallRest(r3: seq<Byte>, xid: U32): Option<CallHeader> {
    if |r3| < 12 then None
    else
      match DecodeCred(r3[12..])
      case None => None
      case Some((cred, r7)) =>
        match DecodeCred(r7)
        case None => None
        case Some((verf, payload)) =>
          Some(CallHeader(xid, WordValue(r3), WordValue(r3[4..]), WordValue(r3[8..]),
                          cred, verf, payload))
  }

  function DecodeCallBody(body: seq<Byte>): Option<CallHeader> {
    if |body| < 12 then None
    else if WordValue(body[4..]) != OncRpcCall || WordValue(body[8..]) != OncRpcVersion then None
    else DecodeCallRest(body[12..], WordValue(body))
  }

  /**
   * A reader of single-fragment records: the marking word must have bit 31
   * set and count exactly the bytes that follow.
   */
  function DecodeCall(m: seq<Byte>): Option<CallHeader> {
    var (mark, body) :- DecodeWord(m);
    if mark < LastFrameBit || GetFrameSize(mark) != |body| then None
    else DecodeCallBody(body)
  }

  /** The words at the front of `Word(a) + Word(b) + Word(c) + rest`. */
  lemma ThreeWords(a: U32, b: U32, c: U32, rest: seq<Byte>)
    ensures var m := Word(a) + (Word(b) + (Word(c) + rest));
      && |m| == 12 + |rest| && m[12..] == rest
      && WordValue(m) == a && WordValue(m[4..]) == b && WordValue(m[8..]) == c
  {
    var m := Word(a) + (Word(b) + (Word(c) + rest));
    DecodeWordOf(a, Word(b) + (Word(c) + rest));
    DecodeWordOf(b, Word(c) + rest);
    DecodeWordOf(c, rest);
    assert m[4..] == Word(b) + (Word(c) + rest);
    assert m[8..] == m[4..][4..];
    assert m[12..] == m[8..][4..];
  }

  lemma CallRestRoundTrip(xid: U32, prog: U32, vers: U32, proc: U32, cred: Cred, verf: Cred,
                          payload: seq<Byte>)
    requires WellFormed(cred) && WellFormed(verf)
    ensures DecodeCallRest(Word(prog) + (Word(vers) + (Word(proc)
                             + (EncodeCred(cred) + (EncodeCred(verf) + payload)))), xid)
      == Some(CallHeader(xid, prog, vers, proc, cred, verf, payload))
  {
    var r7 := EncodeCred(verf) + payload;
    ThreeWords(prog, vers, proc, EncodeCred(cred) + r7);
    CredRoundTrip(cred, r7);
    CredRoundTrip(verf, payload);
  }

  lemma CallBodyRoundTrip(xid: U32, prog: U32, vers: U32, proc: U32, cred: Cred, verf: Cred,
                          payload: seq<Byte>)
    requires WellFormed(cred) && WellFormed(verf)
    ensures DecodeCallBody(CallBody(xid, prog, vers, proc, cred, verf, payload))
      == Some(CallHeader(xid, prog, vers, proc, cred, verf, payload))
  {
    var r3 := Word(prog) + (Word(vers) + (Word(proc)
                + (EncodeCred(cred) + (EncodeCred(verf) + payload))));
    ThreeWords(xid, OncRpcCall, OncRpcVersion, r3);
    CallRestRoundTrip(xid, prog, vers, proc, cred, verf, payload);
  }

  /**
   * A call reads back as xid, CALL, version 2, program, version, procedure,
   * credential, verifier and payload, in that order, as one last fragment.
   */
  lemma CallRoundTrip(xid: U32, prog: U32, vers: U32, proc: U32, cred: Cred, verf: Cred,
                      payload: seq<Byte>)
    requires WellFormed(cred) && WellFormed(verf)
    requires |CallBody(xid, prog, vers, proc, cred, verf, payload)| < LastFrameBit
    ensures DecodeCall(CallMessage(xid, prog, vers, proc, cred, verf, payload))
      == Some(CallHeader(xid, prog, vers, proc, cred, verf, payload))
  {
    var body := CallBody(xid, prog, vers, proc, cred, verf, payload);
    DecodeWordOf(SetLastFrame(ToU32(|body|)), body);
    CallBodyRoundTrip(xid, prog, vers, proc, cred, verf, payload);
  }

  // ----- replies, as `oncrpc_deliver` reads them -----

  /** The five words `oncrpc_deliver` reads, and the rest of the buffer. */
  datatype ReplyHeader = ReplyHeader(mark: U32, xid: U32, kind: U32, replyState: U32,
                                     acceptState: U32, rest: seq<Byte>)

  function ReadReplyHeader(frame: seq<Byte>): ReplyHeader
    requires |frame| >= 20
  {
    ReplyHeader(WordValue(frame), WordValue(frame[4..]), WordValue(frame[8..]),
                WordValue(frame[12..]), WordValue(frame[16..]), frame[20..])
  }

  /** The message kind: the third word, read before anything else is checked. */
  function FrameKind(frame: seq<Byte>): U32
    requires |frame| >= 12
  {
    WordValue(frame[8..])
  }

  /**
   * A frame `oncrpc_deliver` can read: three words, and five when the kind
   * is REPLY, since it returns after the third word otherwise.
   */
  predicate Readable(frame: seq<Byte>) {
    |frame| >= 12 && (FrameKind(frame) == OncRpcReply ==> |frame| >= 20)
  }

  /** A reply laid out the way `oncrpc_deliver` reads one. */
  function ReplyFrame(mark: U32, xid: U32, replyState: U32, acceptState: U32,
                      data: seq<Byte>): seq<Byte>
  {
    Word(mark) + Word(xid) + Word(OncRpcReply) + Word(replyState) + Word(acceptState) + data
  }

  /** A word at the front of a buffer is read back, and what follows it is left. */
  lemma HeadWord(x: U32, rest: seq<Byte>)
    ensures |Word(x) + rest| == 4 + |rest|
    ensures WordValue(Word(x) + rest) == x && (Word(x) + rest)[4..] == rest
  {
    DecodeWordOf(x, rest);
  }

  lemma ReplyFrameRead(mark: U32, xid: U32, replyState: U32, acceptState: U32, data: seq<Byte>)
    ensures |ReplyFrame(mark, xid, replyState, acceptState, data)| == 20 + |data|
    ensures ReadReplyHeader(ReplyFrame(mark, xid, replyState, acceptState, data))
      == ReplyHeader(mark, xid, OncRpcReply, replyState, acceptState, data)
  {
    var r4 := Word(acceptState) + data;
    HeadWord(acceptState, data);
    var r3 := Word(replyState) + r4;
    HeadWord(replyState, r4);
    var r2 := Word(OncRpcReply) + r3;
    HeadWord(OncRpcReply, r3);
    var r1 := Word(xid) + r2;
    HeadWord(xid, r2);
    var f := ReplyFrame(mark, xid, replyState, acceptState, data);
    assert f == Word(mark) + r1;
    HeadWord(mark, r1);
    assert f[8..] == f[4..][4..];
    assert f[12..] == f[8..][4..];
    assert f[16..] == f[12..][4..];
    assert f[20..] == f[16..][4..];
  }

  // ----- the session -----

  /** A callback function; a NULL one is `NoCallback`. */
  datatype Callback = NoCallback | Callback(tag: nat)

  /** `struct oncrpc_pending_reply`. */
  datatype PendingReply = PendingReply(rpcId: U32, callback: Callback)

  /** The reply handed to a callback. */
  datatype Reply = Reply(rpcId: U32, replyState: U32, acceptState: U32, data: seq<Byte>)

  /** The value of every field of a session the engine reads or writes. */
  datatype SessionState = SessionState(
    rpcId: U32,
    credential: Cred,
    verifier: Cred,
    progName: U32,
    progVers: U32,
    pendingCalls: seq<seq<Byte>>,
    pendingReplies: seq<PendingReply>)

  /** Credentials a call can write: AUTH_SYS ones carry a C-string hostname. */
  predicate Writable(c: Cred) {
    Encodable(c) && (c.SysCred? ==> IsCString(c.hostname))
  }

  predicate CanCall(s: SessionState) {
    Writable(s.credential) && Writable(s.verifier)
  }

  /** The call `oncrpc_call_iob` builds for procedure `proc` in state `s`. */
  function Message(s: SessionState, proc: U32, payload: seq<Byte>): seq<Byte>
    requires CanCall(s)
  {
    CallMessage(s.rpcId, s.progName, s.progVers, proc, s.credential, s.verifier, payload)
  }

  /** Whether each allocation of `oncrpc_call_iob` succeeds. */
  datatype Allocation = Allocation(callBuffer: bool, pendingReply: bool, pendingCall: bool)

  /** What a call returns, the new session state, and the buffer sent, if any. */
  datatype CallResult = CallResult(rc: int, state: SessionState, transmitted: Option<seq<Byte>>)

  /**
   * `oncrpc_call_iob` on a session, with `window` the transport window and
   * `sendRc` what the transport answers to an immediate send.
   */
  function CallSpec(s: SessionState, proc: U32, payload: seq<Byte>, cb: Callback,
                    alloc: Allocation, window: nat, sendRc: int): CallResult
    requires CanCall(s)
  {
    if !alloc.callBuffer || !alloc.pendingReply then CallResult(ENOBUFS, s, None)
    else
      var msg := Message(s, proc, payload);
      var s1 := s.(rpcId := ToU32(s.rpcId + 1));
      var registered := [PendingReply(s1.rpcId, cb)] + s.pendingReplies;
      if window == 0 then
        if !alloc.pendingCall then CallResult(ENOBUFS, s1, None)
        else CallResult(0, s1.(pendingCalls := [msg] + s.pendingCalls,
                               pendingReplies := registered), None)
      else if sendRc == 0 then CallResult(0, s1, Some(msg))
      else CallResult(sendRc, s1.(pendingReplies := registered), Some(msg))
  }

  /**
   * What a call does in each case: a failed buffer or pending-reply
   * allocation changes nothing, any other outcome advances the transaction
   * counter; a call without window is queued at the head, or fails with
   * -ENOBUFS when the queue entry cannot be allocated; a call with window
   * is sent; the configuration
   * never changes, and at most one pending reply is added, at the head.
   */
  lemma CallCases(s: SessionState, proc: U32, payload: seq<Byte>, cb: Callback,
                  alloc: Allocation, window: nat, sendRc: int)
    requires CanCall(s)
    ensures var r := CallSpec(s, proc, payload, cb, alloc, window, sendRc);
      && r.state.credential == s.credential && r.state.verifier == s.verifier
      && r.state.progName == s.progName && r.state.progVers == s.progVers
      && (!alloc.callBuffer || !alloc.pendingReply ==> r == CallResult(ENOBUFS, s, None))
      && (alloc.callBuffer && alloc.pendingReply ==> r.state.rpcId == ToU32(s.rpcId + 1))
      && (window == 0 ==> r.transmitted == None)
      && (window != 0 && alloc.callBuffer && alloc.pendingReply ==>
            && r.transmitted == Some(Message(s, proc, payload)) && r.rc == sendRc
            && r.state.pendingCalls == s.pendingCalls)
      && (window == 0 && alloc.callBuffer && alloc.pendingReply && alloc.pendingCall ==>
            && r.rc == 0 && r.state.pendingCalls == [Message(s, proc, payload)] + s.pendingCalls)
      && (window == 0 && alloc.callBuffer && alloc.pendingReply && !alloc.pendingCall ==>
            r == CallResult(ENOBUFS, s.(rpcId := ToU32(s.rpcId + 1)), None))
      && (r.state.pendingReplies == s.pendingReplies
          || r.state.pendingReplies == [PendingReply(r.state.rpcId, cb)] + s.pendingReplies)
  {
  }

  /**
   * The callback the `oncrpc_deliver` loop ends up holding: that of the
   * last entry with id `xid` in list order, or none.
   */
  function MatchedCallback(ps: seq<PendingReply>, xid: U32): Callback {
    if ps == [] then NoCallback
    else if ps[|ps| - 1].rpcId == xid then ps[|ps| - 1].callback
    else MatchedCallback(ps[..|ps| - 1], xid)
  }

  /** The list left after deleting every entry with id `xid`. */
  function RemoveXid(ps: seq<PendingReply>, xid: U32): (r: seq<PendingReply>)
    ensures |r| <= |ps|
  {
    if ps == [] then []
    else
      RemoveXid(ps[..|ps| - 1], xid)
        + (if ps[|ps| - 1].rpcId == xid then [] else [ps[|ps| - 1]])
  }

  predicate HasXid(ps: seq<PendingReply>, xid: U32) {
    exists i | 0 <= i < |ps| :: ps[i].rpcId == xid
  }

  /** Deleting by id keeps exactly the entries with other ids. */
  lemma {:induction false} RemoveXidMembers(ps: seq<PendingReply>, xid: U32)
    ensures forall p :: p in RemoveXid(ps, xid) <==> p in ps && p.rpcId != xid
  {
    if ps != [] {
      var init := ps[..|ps| - 1];
      RemoveXidMembers(init, xid);
      assert ps == init + [ps[|ps| - 1]];
    }
  }

  /** A list without the id is left as it is. */
  lemma {:induction false} RemoveXidAbsent(ps: seq<PendingReply>, xid: U32)
    requires !HasXid(ps, xid)
    ensures RemoveXid(ps, xid) == ps
    ensures MatchedCallback(ps, xid) == NoCallback
  {
    if ps != [] {
      var init := ps[..|ps| - 1];
      assert !HasXid(init, xid) by {
        forall i | 0 <= i < |init| ensures init[i].rpcId != xid {
          assert init[i] == ps[i];
        }
      }
      RemoveXidAbsent(init, xid);
      assert ps == init + [ps[|ps| - 1]];
    }
  }

  /** A callback is found only for an id that is in the list. */
  lemma {:induction false} MatchedCallbackFound(ps: seq<PendingReply>, xid: U32)
    requires MatchedCallback(ps, xid) != NoCallback
    ensures exists i | 0 <= i < |ps| :: ps[i].rpcId == xid && ps[i].callback == MatchedCallback(ps, xid)
  {
    if ps[|ps| - 1].rpcId != xid {
      var init := ps[..|ps| - 1];
      MatchedCallbackFound(init, xid);
      var i :| 0 <= i < |init| && init[i].rpcId == xid && init[i].callback == MatchedCallback(init, xid);
      assert ps[i] == init[i];
    }
  }

  /**
   * Whenever an entry carries the id, the callback the walk ends up holding
   * is that of the last such entry in list order, wherever it stands.
   */
  lemma {:induction false} MatchedIsLast(ps: seq<PendingReply>, xid: U32)
    requires HasXid(ps, xid)
    ensures exists k | 0 <= k < |ps| ::
      && ps[k].rpcId == xid
      && (forall j | k < j < |ps| :: ps[j].rpcId != xid)
      && MatchedCallback(ps, xid) == ps[k].callback
  {
    var last := |ps| - 1;
    if ps[last].rpcId != xid {
      var init := ps[..last];
      assert HasXid(init, xid) by {
        var i :| 0 <= i < |ps| && ps[i].rpcId == xid;
        assert init[i] == ps[i];
      }
      MatchedIsLast(init, xid);
      var k :| 0 <= k < |init| && init[k].rpcId == xid
        && (forall j | k < j < |init| :: init[j].rpcId != xid)
        && MatchedCallback(init, xid) == init[k].callback;
      assert MatchedCallback(ps, xid) == MatchedCallback(init, xid);
      forall j | k < j < |ps|
        ensures ps[j].rpcId != xid
      {
        if j < last {
          assert ps[j] == init[j];
        }
      }
      assert ps[k] == init[k];
    }
  }

  /** An entry whose id no other entry carries is matched, wherever it stands. */
  lemma MatchedUnique(ps: seq<PendingReply>, k: nat)
    requires k < |ps|
    requires forall j | 0 <= j < |ps| && j != k :: ps[j].rpcId != ps[k].rpcId
    ensures MatchedCallback(ps, ps[k].rpcId) == ps[k].callback
  {
    MatchedIsLast(ps, ps[k].rpcId);
  }

  /**
   * An entry put at the head in front of a list without its id is the one
   * that is matched, and the only one removed.
   */
  lemma {:induction false} MatchedAtHead(p: PendingReply, ps: seq<PendingReply>)
    requires !HasXid(ps, p.rpcId)
    ensures MatchedCallback([p] + ps, p.rpcId) == p.callback
    ensures RemoveXid([p] + ps, p.rpcId) == ps
  {
    if ps == [] {
      assert [p] + ps == [p];
      assert [p][..0] == [];
    } else {
      var init := ps[..|ps| - 1];
      assert !HasXid(init, p.rpcId) by {
        forall i | 0 <= i < |init| ensures init[i].rpcId != p.rpcId {
          assert init[i] == ps[i];
        }
      }
      assert ps[|ps| - 1].rpcId != p.rpcId;
      MatchedAtHead(p, init);
      assert ([p] + ps)[..|[p] + ps| - 1] == [p] + init;
      assert ps == init + [ps[|ps| - 1]];
    }
  }

  /** What `oncrpc_deliver` returns: a status, or the callback to run. */
  datatype DeliverOutcome = Returned(rc: int) | Dispatched(callback: nat, reply: Reply)

  datatype DeliverResult = DeliverResult(state: SessionState, outcome: DeliverOutcome)

  /**
   * `oncrpc_deliver` on a received frame.  The record-marking word is read
   * and its bit 31 is never examined.
   */
  function DeliverSpec(s: SessionState, frame: seq<Byte>): (r: DeliverResult)
    requires Readable(frame)
    ensures FrameKind(frame) != OncRpcReply ==> r == DeliverResult(s, Returned(ENOTSUP))
    ensures FrameKind(frame) == OncRpcReply ==>
      var xid := ReadReplyHeader(frame).xid;
        && r.state == s.(pendingReplies := RemoveXid(s.pendingReplies, xid))
        && (r.outcome.Dispatched? <==> MatchedCallback(s.pendingReplies, xid) != NoCallback)
  {
    if FrameKind(frame) != OncRpcReply then DeliverResult(s, Returned(ENOTSUP))
    else
      var h := ReadReplyHeader(frame);
      var s' := s.(pendingReplies := RemoveXid(s.pendingReplies, h.xid));
      match MatchedCallback(s.pendingReplies, h.xid)
      case NoCallback => DeliverResult(s', Returned(0))
      case Callback(tag) =>
        DeliverResult(s', Dispatched(tag, Reply(h.xid, h.replyState, h.acceptState, h.rest)))
  }

  /**
   * A reply for an id nobody waits for returns 0 and changes nothing; a
   * reply for a waiting id leaves no entry with that id.
   */
  lemma DeliverUnknownOrMatched(s: SessionState, frame: seq<Byte>)
    requires Readable(frame) && FrameKind(frame) == OncRpcReply
    ensures var xid := ReadReplyHeader(frame).xid;
      var r := DeliverSpec(s, frame);
      && (!HasXid(s.pendingReplies, xid) ==> r == DeliverResult(s, Returned(0)))
      && !HasXid(r.state.pendingReplies, xid)
  {
    var xid := ReadReplyHeader(frame).xid;
    var r := DeliverSpec(s, frame);
    RemoveXidMembers(s.pendingReplies, xid);
    if !HasXid(s.pendingReplies, xid) {
      RemoveXidAbsent(s.pendingReplies, xid);
    }
    forall i | 0 <= i < |r.state.pendingReplies|
      ensures r.state.pendingReplies[i].rpcId != xid
    {
      assert r.state.pendingReplies[i] in RemoveXid(s.pendingReplies, xid);
    }
  }

  /**
   * A reply whose id is waited for removes every entry with that id and
   * goes to the callback of the last of them in list order; a NULL
   * callback there makes the reply return 0.
   */
  lemma DeliverDispatchesLastMatch(s: SessionState, frame: seq<Byte>)
    requires Readable(frame) && FrameKind(frame) == OncRpcReply
    requires HasXid(s.pendingReplies, ReadReplyHeader(frame).xid)
    ensures var h := ReadReplyHeader(frame);
      var ps := s.pendingReplies;
      var r := DeliverSpec(s, frame);
      exists k | 0 <= k < |ps| ::
        && ps[k].rpcId == h.xid
        && (forall j | k < j < |ps| :: ps[j].rpcId != h.xid)
        && r.state == s.(pendingReplies := RemoveXid(ps, h.xid))
        && r.outcome == (match ps[k].callback
                         case NoCallback => Returned(0)
                         case Callback(tag) =>
                           Dispatched(tag, Reply(h.xid, h.replyState, h.acceptState, h.rest)))
  {
    MatchedIsLast(s.pendingReplies, ReadReplyHeader(frame).xid);
  }

  /** The entries of `calls` whose send the transport refused, in list order. */
  function KeepRefused(calls: seq<seq<Byte>>, refused: seq<bool>): (r: seq<seq<Byte>>)
    requires |refused| == |calls|
    ensures |r| <= |calls|
  {
    if calls == [] then []
    else
      KeepRefused(calls[..|calls| - 1], refused[..|refused| - 1])
        + (if refused[|refused| - 1] then [calls[|calls| - 1]] else [])
  }

  /** Draining splits over a list cut in two: the order of what stays is kept. */
  lemma {:induction false} KeepRefusedAppend(a: seq<seq<Byte>>, ra: seq<bool>,
                                             b: seq<seq<Byte>>, rb: seq<bool>)
    requires |ra| == |a| && |rb| == |b|
    ensures KeepRefused(a + b, ra + rb) == KeepRefused(a, ra) + KeepRefused(b, rb)
    decreases |b|
  {
    if b == [] {
      assert a + b == a && ra + rb == ra;
    } else {
      var b', rb' := b[..|b| - 1], rb[..|rb| - 1];
      KeepRefusedAppend(a, ra, b', rb');
      assert (a + b)[..|a + b| - 1] == a + b';
      assert (ra + rb)[..|ra + rb| - 1] == ra + rb';
    }
  }

  /** When the transport takes every call nothing stays; when it takes none, all stay. */
  lemma {:induction false} KeepRefusedExtremes(calls: seq<seq<Byte>>, refused: seq<bool>)
    requires |refused| == |calls|
    ensures (forall i | 0 <= i < |refused| :: !refused[i]) ==> KeepRefused(calls, refused) == []
    ensures (forall i | 0 <= i < |refused| :: refused[i]) ==> KeepRefused(calls, refused) == calls
  {
    if calls != [] {
      var c', r' := calls[..|calls| - 1], refused[..|refused| - 1];
      KeepRefusedExtremes(c', r');
      assert calls == c' + [calls[|calls| - 1]];
    }
  }

  /** A call stays queued exactly when its send was refused. */
  lemma {:induction false} KeepRefusedMembers(calls: seq<seq<Byte>>, refused: seq<bool>, i: nat)
    requires |refused| == |calls| && i < |calls|
    ensures refused[i] ==> calls[i] in KeepRefused(calls, refused)
    ensures calls[i] in KeepRefused(calls, refused) ==>
      exists j | 0 <= j < |calls| :: refused[j] && calls[j] == calls[i]
  {
    var n := |calls| - 1;
    var c', r' := calls[..n], refused[..n];
    if i < n {
      KeepRefusedMembers(c', r', i);
      assert c'[i] == calls[i] && r'[i] == refused[i];
      if calls[i] in KeepRefused(calls, refused) && calls[i] !in KeepRefused(c', r') {
        assert refused[n] && calls[n] == calls[i];
      }
      if calls[i] in KeepRefused(c', r') {
        var j :| 0 <= j < |c'| && r'[j] && c'[j] == calls[i];
        assert refused[j] && calls[j] == calls[i];
      }
    } else {
      KeepRefusedSubset(c', r');
      if calls[i] in KeepRefused(c', r') {
        var j :| 0 <= j < |c'| && r'[j] && c'[j] == calls[i];
        assert refused[j] && calls[j] == calls[i];
      }
    }
  }

  /** Everything that stays queued was refused. */
  lemma {:induction false} KeepRefusedSubset(calls: seq<seq<Byte>>, refused: seq<bool>)
    requires |refused| == |calls|
    ensures forall m | m in KeepRefused(calls, refused) ::
      exists j | 0 <= j < |calls| :: refused[j] && calls[j] == m
  {
    if calls != [] {
      var n := |calls| - 1;
      var c', r' := calls[..n], refused[..n];
      KeepRefusedSubset(c', r');
      forall m | m in KeepRefused(calls, refused)
        ensures exists j | 0 <= j < |calls| :: refused[j] && calls[j] == m
      {
        if m in KeepRefused(c', r') {
          var j :| 0 <= j < |c'| && r'[j] && c'[j] == m;
          assert refused[j] && calls[j] == m;
        } else {
          assert refused[n] && calls[n] == m;
        }
      }
    }
  }

  datatype WindowResult = WindowResult(state: SessionState, attempted: seq<seq<Byte>>)

  /**
   * `oncrpc_window_changed`: with no window nothing happens; otherwise every
   * queued call is offered to the transport, head first, and only the
   * refused ones stay.
   */
  function WindowSpec(s: SessionState, window: nat, refused: seq<bool>): (r: WindowResult)
    requires |refused| == |s.pendingCalls|
    ensures window == 0 ==> r == WindowResult(s, [])
    ensures window != 0 ==>
      && r.attempted == s.pendingCalls
      && r.state == s.(pendingCalls := KeepRefused(s.pendingCalls, refused))
  {
    if window == 0 then WindowResult(s, [])
    else WindowResult(s.(pendingCalls := KeepRefused(s.pendingCalls, refused)), s.pendingCalls)
  }

  /** `oncrpc_close_session`: both lists are emptied, nothing else changes. */
  function CloseSpec(s: SessionState): (r: SessionState)
    ensures r.pendingCalls == [] && r.pendingReplies == []
    ensures r.rpcId == s.rpcId && r.credential == s.credential && r.verifier == s.verifier
    ensures r.progName == s.progName && r.progVers == s.progVers
  {
    s.(pendingCalls := [], pendingReplies := [])
  }

  /** Closing twice leaves the lists as the first close left them. */
  lemma CloseIdempotent(s: SessionState)
    ensures CloseSpec(CloseSpec(s)) == CloseSpec(s)
  {
  }

  /** `struct oncrpc_session`, without its transport interface. */
  class Session {
    var rpcId: U32
    var credential: Cred
    var verifier: Cred
    var progName: U32
    var progVers: U32
    var pendingCalls: seq<seq<Byte>>
    var pendingReplies: seq<PendingReply>
    /** The status codes the session has shut its transport down with. */
    var shutdowns: seq<int>

    /** A zero-filled session; its credential references are taken as AUTH_NONE. */
    constructor ()
      ensures State() == SessionState(0, NoAuth, NoAuth, 0, 0, [], []) && shutdowns == []
    {
      rpcId := 0;
      credential, verifier := NoAuth, NoAuth;
      progName, progVers := 0, 0;
      pendingCalls, pendingReplies := [], [];
      shutdowns := [];
    }

    function State(): SessionState
      reads this
    {
      SessionState(rpcId, credential, verifier, progName, progVers, pendingCalls, pendingReplies)
    }
  }

  /**
   * `oncrpc_init_session`: sets credential, verifier, program and version
   * and empties both lists.  The transaction counter is left as it is.
   */
  method InitSession(session: Session?, credential: Cred, verifier: Cred,
                     progName: U32, progVers: U32)
    modifies session
    ensures session != null ==>
      && session.State() == SessionState(old(session.rpcId), credential, verifier,
                                         progName, progVers, [], [])
      && session.shutdowns == old(session.shutdowns)
  {
    if session == null {
      return;
    }
    session.credential := credential;
    session.verifier := verifier;
    session.progName := progName;
    session.progVers := progVers;
    session.pendingCalls := [];
    session.pendingReplies := [];
  }

  /**
   * Writing the marking word over the 4-byte placeholder and then the
   * payload gives the marking word followed by the call body.
   */
  lemma CallLayout(z: seq<Byte>, w1: seq<Byte>, w2: seq<Byte>, w3: seq<Byte>, w4: seq<Byte>,
                   w5: seq<Byte>, w6: seq<Byte>, c1: seq<Byte>, c2: seq<Byte>, p: seq<Byte>)
    requires |z| == 4 && |w1| == |w2| == |w3| == |w4| == |w5| == |w6| == 4
    ensures var unframed := z + w1 + w2 + w3 + w4 + w5 + w6 + c1 + c2;
      && unframed[4..] + p == w1 + (w2 + (w3 + (w4 + (w5 + (w6 + (c1 + (c2 + p)))))))
      && |w1 + (w2 + (w3 + (w4 + (w5 + (w6 + (c1 + (c2 + p)))))))| == 24 + |c1| + |c2| + |p|
  {
    var unframed := z + w1 + w2 + w3 + w4 + w5 + w6 + c1 + c2;
    assert unframed[4..] == w1 + w2 + w3 + w4 + w5 + w6 + c1 + c2;
  }

  /**
   * The buffer `oncrpc_call_iob` ends with, once the marking word is
   * written over the placeholder and the payload appended, is `Message`.
   */
  lemma CallBufferIsMessage(s: SessionState, proc: U32, payload: seq<Byte>,
                            unframed: seq<Byte>, mark: U32)
    requires CanCall(s)
    requires unframed == [0, 0, 0, 0] + Word(s.rpcId) + Word(OncRpcCall) + Word(OncRpcVersion)
      + Word(s.progName) + Word(s.progVers) + Word(proc)
      + EncodeCred(s.credential) + EncodeCred(s.verifier)
    requires mark == SetLastFrame(ToU32(
      24 + |EncodeCred(s.credential)| + |EncodeCred(s.verifier)| + |payload|))
    ensures Word(mark) + unframed[4..] + payload == Message(s, proc, payload)
  {
    var c1, c2 := EncodeCred(s.credential), EncodeCred(s.verifier);
    CallLayout([0, 0, 0, 0], Word(s.rpcId), Word(OncRpcCall), Word(OncRpcVersion),
               Word(s.progName), Word(s.progVers), Word(proc), c1, c2, payload);
  }

  /**
   * The part of `oncrpc_call_iob` that appends the six header words, the
   * credential and the verifier, summing the sizes the encoders return.
   * The sum is kept exact here; the `uint32_t` wrap-around is applied once,
   * where the sum is written, which gives the same word as wrapping at
   * every addition.
   */
  method AddCallHeader(callBuf: IoBuffer, xid: U32, prog: U32, vers: U32, proc: U32,
                       cred: Cred, verf: Cred) returns (frameSize: nat)
    requires Writable(cred) && Writable(verf)
    modifies callBuf
    ensures callBuf.data == old(callBuf.data) + Word(xid) + Word(OncRpcCall) + Word(OncRpcVersion)
      + Word(prog) + Word(vers) + Word(proc) + EncodeCred(cred) + EncodeCred(verf)
    ensures frameSize == 24 + |EncodeCred(cred)| + |EncodeCred(verf)|
  {
    frameSize := 0;
    var n := AddInt(callBuf, xid);
    frameSize := frameSize + n;
    n := AddInt(callBuf, OncRpcCall);
    frameSize := frameSize + n;
    n := AddInt(callBuf, OncRpcVersion);
    frameSize := frameSize + n;
    n := AddInt(callBuf, prog);
    frameSize := frameSize + n;
    n := AddInt(callBuf, vers);
    frameSize := frameSize + n;
    n := AddInt(callBuf, proc);
    frameSize := frameSize + n;
    n := AddCred(callBuf, Some(cred));
    frameSize := frameSize + n;
    n := AddCred(callBuf, Some(verf));
    frameSize := frameSize + n;
  }

  /**
   * `oncrpc_call_iob`.  The frame size is summed from the sizes the encoders
   * return, the transaction counter is advanced after its value is written,
   * and the pending reply is registered under the advanced value.
   */
  method CallIob(session: Session?, procName: U32, ioBuf: IoBuffer, cb: Callback,
                 alloc: Allocation, window: nat, sendRc: int)
    returns (rc: int, transmitted: Option<seq<Byte>>)
    requires session != null ==> CanCall(session.State())
    modifies session
    ensures session == null ==> rc == EINVAL && transmitted == None
    ensures session != null ==>
      var r := CallSpec(old(session.State()), procName, ioBuf.data, cb, alloc, window, sendRc);
      && session.State() == r.state && rc == r.rc && transmitted == r.transmitted
      && session.shutdowns == old(session.shutdowns)
  {
    if session == null {
      return EINVAL, None;
    }
    if !alloc.callBuffer {
      return ENOBUFS, None;
    }
    if !alloc.pendingReply {
      return ENOBUFS, None;
    }
    ghost var s := session.State();
    var callBuf := new IoBuffer([]);
    callBuf.data := callBuf.data + [0, 0, 0, 0];
    assert callBuf.data == [0, 0, 0, 0];
    var xid := session.rpcId;
    session.rpcId := ToU32(session.rpcId + 1);
    var frameSize := AddCallHeader(callBuf, xid, session.progName, session.progVers, procName,
                                   session.credential, session.verifier);
    ghost var unframed := callBuf.data;
    frameSize := frameSize + |ioBuf.data|;
    var mark := SetLastFrame(ToU32(frameSize));
    callBuf.data := Word(mark) + callBuf.data[4..];
    callBuf.data := callBuf.data + ioBuf.data;
    CallBufferIsMessage(s, procName, ioBuf.data, unframed, mark);
    if window == 0 {
      if !alloc.pendingCall {
        return ENOBUFS, None;
      }
      session.pendingCalls := [callBuf.data] + session.pendingCalls;
      rc, transmitted := 0, None;
    } else {
      rc, transmitted := sendRc, Some(callBuf.data);
      if rc == 0 {
        return;
      }
    }
    session.pendingReplies := [PendingReply(session.rpcId, cb)] + session.pendingReplies;
  }

  /** Cutting a list `kept + rest` at the first element of `rest`. */
  lemma CutAt<T>(kept: seq<T>, rest: seq<T>)
    requires rest != []
    ensures (kept + rest)[|kept|] == rest[0]
    ensures (kept + rest)[..|kept|] + (kept + rest)[|kept| + 1..] == kept + rest[1..]
    ensures kept + rest == (kept + [rest[0]]) + rest[1..]
  {
    assert (kept + rest)[..|kept|] == kept;
    assert (kept + rest)[|kept| + 1..] == rest[1..];
  }

  /** One more step of the deliver loop over a list. */
  lemma RemoveXidPrefix(ps: seq<PendingReply>, i: nat, xid: U32)
    requires i < |ps|
    ensures RemoveXid(ps[..i + 1], xid)
      == RemoveXid(ps[..i], xid) + (if ps[i].rpcId == xid then [] else [ps[i]])
    ensures MatchedCallback(ps[..i + 1], xid)
      == (if ps[i].rpcId == xid then ps[i].callback else MatchedCallback(ps[..i], xid))
  {
    assert ps[..i + 1][..i] == ps[..i];
  }

  /** One more step of the window loop over a list. */
  lemma KeepRefusedPrefix(calls: seq<seq<Byte>>, refused: seq<bool>, i: nat)
    requires |refused| == |calls| && i < |calls|
    ensures KeepRefused(calls[..i + 1], refused[..i + 1])
      == KeepRefused(calls[..i], refused[..i]) + (if refused[i] then [calls[i]] else [])
  {
    assert calls[..i + 1][..i] == calls[..i] && refused[..i + 1][..i] == refused[..i];
  }

  /**
   * The loop of `oncrpc_deliver`: walks the pending replies from the head,
   * deletes each one with id `xid` and keeps the callback of the last one.
   * The list is edited in a local and stored back when the walk ends;
   * nothing else reads it in between.
   */
  method DropPendingReplies(session: Session, xid: U32) returns (callback: Callback)
    modifies session`pendingReplies
    ensures session.pendingReplies == RemoveXid(old(session.pendingReplies), xid)
    ensures callback == MatchedCallback(old(session.pendingReplies), xid)
  {
    callback := NoCallback;
    var list := session.pendingReplies;
    ghost var ps := list;
    var count := |list|;
    var i, live := 0, 0;
    while i < count
      invariant count == |ps| && 0 <= i <= |ps|
      invariant list == RemoveXid(ps[..i], xid) + ps[i..]
      invariant live == |RemoveXid(ps[..i], xid)|
      invariant callback == MatchedCallback(ps[..i], xid)
    {
      ghost var kept := RemoveXid(ps[..i], xid);
      RemoveXidPrefix(ps, i, xid);
      CutAt(kept, ps[i..]);
      assert ps[i..][1..] == ps[i + 1..] && ps[i..][0] == ps[i];
      var p := list[live];
      if p.rpcId == xid {
        callback := p.callback;
        list := list[..live] + list[live + 1..];
        assert kept + [] == kept;
      } else {
        live := live + 1;
      }
      i := i + 1;
    }
    assert ps[..i] == ps;
    session.pendingReplies := list;
  }

  /**
   * `oncrpc_deliver`: reads marking word, xid and message kind; a kind
   * other than REPLY returns -ENOTSUP; otherwise reads reply and accept
   * state, deletes every pending reply with that xid and hands the reply to
   * the callback the loop kept.
   */
  method Deliver(session: Session, ioBuf: IoBuffer) returns (outcome: DeliverOutcome)
    requires Readable(ioBuf.data)
    modifies session, ioBuf
    ensures var r := DeliverSpec(old(session.State()), old(ioBuf.data));
      session.State() == r.state && outcome == r.outcome
    ensures session.shutdowns == old(session.shutdowns)
    ensures ioBuf.data == old(ioBuf.data)[
      if FrameKind(old(ioBuf.data)) == OncRpcReply then 20 else 12..]
  {
    ghost var frame := ioBuf.data;
    var mark := GetInt(ioBuf);
    var fragmentSize := GetFrameSize(mark);
    var xid := GetInt(ioBuf);
    var kind := GetInt(ioBuf);
    assert frame[4..][4..] == frame[8..] && frame[8..][4..] == frame[12..];
    if kind != OncRpcReply {
      return Returned(ENOTSUP);
    }
    var replyState := GetInt(ioBuf);
    var acceptState := GetInt(ioBuf);
    assert frame[12..][4..] == frame[16..] && frame[16..][4..] == frame[20..];
    var reply := Reply(xid, replyState, acceptState, ioBuf.data);

    var callback := DropPendingReplies(session, xid);
    if callback == NoCallback {
      return Returned(0);
    }
    outcome := Dispatched(callback.tag, reply);
  }

  /**
   * `oncrpc_window_changed`.  `refused[i]` is the transport's answer to the
   * send of the i-th queued call; a refused call is skipped and stays.
   * The list is edited in a local and stored back when the walk ends.
   */
  method WindowChanged(session: Session, window: nat, refused: seq<bool>)
    returns (attempted: seq<seq<Byte>>)
    requires |refused| == |session.pendingCalls|
    modifies session`pendingCalls
    ensures var r := WindowSpec(old(session.State()), window, refused);
      session.State() == r.state && attempted == r.attempted
    ensures session.shutdowns == old(session.shutdowns)
  {
    attempted := [];
    if window == 0 {
      return;
    }
    var list := session.pendingCalls;
    ghost var calls := list;
    var count := |list|;
    var i, live := 0, 0;
    while i < count
      invariant count == |calls| && 0 <= i <= |calls|
      invariant list == KeepRefused(calls[..i], refused[..i]) + calls[i..]
      invariant live == |KeepRefused(calls[..i], refused[..i])|
      invariant attempted == calls[..i]
    {
      ghost var kept := KeepRefused(calls[..i], refused[..i]);
      KeepRefusedPrefix(calls, refused, i);
      CutAt(kept, calls[i..]);
      assert calls[i..][1..] == calls[i + 1..] && calls[i..][0] == calls[i];
      assert calls[..i + 1] == calls[..i] + [calls[i]];
      var p := list[live];
      attempted := attempted + [p];
      if refused[i] {
        live := live + 1;
      } else {
        list := list[..live] + list[live + 1..];
        assert kept + [] == kept;
      }
      i := i + 1;
    }
    assert calls[..i] == calls && refused[..i] == refused;
    session.pendingCalls := list;
  }

  /**
   * `oncrpc_close_session`: deletes every pending reply and every queued
   * call, then shuts the transport down with `rc`.
   */
  method CloseSession(session: Session?, rc: int)
    modifies session
    ensures session != null ==>
      && session.State() == CloseSpec(old(session.State()))
      && session.shutdowns == old(session.shutdowns) + [rc]
  {
    if session == null {
      return;
    }
    while session.pendingReplies != []
      invariant session.State() == old(session.State()).(pendingReplies := session.pendingReplies)
      invariant session.shutdowns == old(session.shutdowns)
      decreases |session.pendingReplies|
    {
      session.pendingReplies := session.pendingReplies[1..];
    }
    while session.pendingCalls != []
      invariant session.State()
        == old(session.State()).(pendingReplies := [], pendingCalls := session.pendingCalls)
      invariant session.shutdowns == old(session.shutdowns)
      decreases |session.pendingCalls|
    {
      session.pendingCalls := session.pendingCalls[1..];
    }
    session.shutdowns := session.shutdowns + [rc];
  }

  // ----- two defects of `oncrpc_call_iob`, and the call as intended -----

  /** The transaction id a call carries is the counter before the call. */
  lemma MessageCarriesXid(s: SessionState, proc: U32, payload: seq<Byte>)
    requires CanCall(s)
    ensures |Message(s, proc, payload)| >= 8
    ensures WordValue(Message(s, proc, payload)[4..]) == s.rpcId
  {
    var body := CallBody(s.rpcId, s.progName, s.progVers, proc, s.credential, s.verifier, payload);
    var m := Message(s, proc, payload);
    var rest := body[4..];
    assert body == Word(s.rpcId) + rest;
    assert m[4..] == body;
    DecodeWordOf(s.rpcId, rest);
  }

  /**
   * As written, a reply carrying the id of the call just made never reaches
   * the callback, whatever the window and the transport do: the pending
   * reply is registered under the advanced counter (or, after an immediate
   * successful send, not at all).
   */
  lemma AsWrittenReplyNeverDispatched(s: SessionState, proc: U32, payload: seq<Byte>,
                                      cb: Callback, alloc: Allocation, window: nat, sendRc: int,
                                      mark: U32, replyState: U32, acceptState: U32,
                                      data: seq<Byte>)
    requires CanCall(s) && !HasXid(s.pendingReplies, s.rpcId)
    ensures var r := CallSpec(s, proc, payload, cb, alloc, window, sendRc);
      DeliverSpec(r.state, ReplyFrame(mark, s.rpcId, replyState, acceptState, data))
        == DeliverResult(r.state, Returned(0))
  {
    var r := CallSpec(s, proc, payload, cb, alloc, window, sendRc);
    ReplyFrameRead(mark, s.rpcId, replyState, acceptState, data);
    assert !HasXid(r.state.pendingReplies, s.rpcId) by {
      if r.state.pendingReplies != s.pendingReplies {
        var ps := r.state.pendingReplies;
        assert ps == [PendingReply(ToU32(s.rpcId + 1), cb)] + s.pendingReplies;
        forall i | 0 <= i < |ps| ensures ps[i].rpcId != s.rpcId {
          if i > 0 {
            assert ps[i] == s.pendingReplies[i - 1];
          }
        }
      }
    }
    RemoveXidAbsent(r.state.pendingReplies, s.rpcId);
  }

  /**
   * The same on one input: a call queued while the window is closed carries
   * id 7, its pending reply waits for id 8, and the server's reply to
   * id 7 is dropped while the entry for 8 stays forever.
   */
  lemma QueuedCallReplyDropped()
    ensures var s := SessionState(7, NoAuth, NoAuth, 100003, 3, [], []);
      var r := CallSpec(s, 1, [], Callback(1), Allocation(true, true, true), 0, 0);
      && r.rc == 0
      && r.state.pendingReplies == [PendingReply(8, Callback(1))]
      && WordValue(r.state.pendingCalls[0][4..]) == 7
      && DeliverSpec(r.state, ReplyFrame(0x8000_0010, 7, 0, 0, []))
        == DeliverResult(r.state, Returned(0))
  {
    var s := SessionState(7, NoAuth, NoAuth, 100003, 3, [], []);
    MessageCarriesXid(s, 1, []);
    AsWrittenReplyNeverDispatched(s, 1, [], Callback(1), Allocation(true, true, true), 0, 0,
                                  0x8000_0010, 0, 0, []);
  }

  /** An entry at the head with another id does not change which callback is matched. */
  lemma {:induction false} MatchedSkipsHead(p: PendingReply, ps: seq<PendingReply>, xid: U32)
    requires p.rpcId != xid
    ensures MatchedCallback([p] + ps, xid) == MatchedCallback(ps, xid)
  {
    if ps == [] {
      assert [p] + ps == [p];
      assert [p][..0] == [];
    } else {
      var init := ps[..|ps| - 1];
      MatchedSkipsHead(p, init, xid);
      assert ([p] + ps)[..|[p] + ps| - 1] == [p] + init;
    }
  }

  /**
   * As written, when an earlier queued or refused call already waits under
   * the id of the call just made, that call's reply goes to the earlier
   * entry: the outcome is the one the list before the call gives, and the
   * new call's own callback plays no part.
   */
  lemma AsWrittenReplyMisdirected(s: SessionState, proc: U32, payload: seq<Byte>,
                                  cb: Callback, alloc: Allocation, window: nat, sendRc: int,
                                  mark: U32, replyState: U32, acceptState: U32,
                                  data: seq<Byte>)
    requires CanCall(s) && HasXid(s.pendingReplies, s.rpcId)
    ensures var r := CallSpec(s, proc, payload, cb, alloc, window, sendRc);
      var ps := s.pendingReplies;
      var d := DeliverSpec(r.state, ReplyFrame(mark, s.rpcId, replyState, acceptState, data));
      exists k | 0 <= k < |ps| ::
        && ps[k].rpcId == s.rpcId
        && (forall j | k < j < |ps| :: ps[j].rpcId != s.rpcId)
        && d.outcome == (match ps[k].callback
                         case NoCallback => Returned(0)
                         case Callback(tag) =>
                           Dispatched(tag, Reply(s.rpcId, replyState, acceptState, data)))
  {
    var r := CallSpec(s, proc, payload, cb, alloc, window, sendRc);
    var ps := s.pendingReplies;
    CallKeepsMatch(s, proc, payload, cb, alloc, window, sendRc);
    ReplyFrameRead(mark, s.rpcId, replyState, acceptState, data);
    MatchedIsLast(ps, s.rpcId);
    var k :| 0 <= k < |ps| && ps[k].rpcId == s.rpcId
      && (forall j | k < j < |ps| :: ps[j].rpcId != s.rpcId)
      && MatchedCallback(ps, s.rpcId) == ps[k].callback;
    assert MatchedCallback(r.state.pendingReplies, s.rpcId) == ps[k].callback;
  }

  /** A call leaves unchanged which callback a reply carrying its own xid is matched to. */
  lemma CallKeepsMatch(s: SessionState, proc: U32, payload: seq<Byte>, cb: Callback,
                       alloc: Allocation, window: nat, sendRc: int)
    requires CanCall(s)
    ensures MatchedCallback(CallSpec(s, proc, payload, cb, alloc, window, sendRc).state.pendingReplies, s.rpcId)
      == MatchedCallback(s.pendingReplies, s.rpcId)
  {
    var r := CallSpec(s, proc, payload, cb, alloc, window, sendRc);
    if r.state.pendingReplies != s.pendingReplies {
      MatchedSkipsHead(PendingReply(ToU32(s.rpcId + 1), cb), s.pendingReplies, s.rpcId);
    }
  }

  /**
   * The same on one input: two calls queued from counter 7 register their
   * replies under 8 and 9; the reply to the second call, which carries id 8,
   * goes to the first call's callback.
   */
  lemma TwoQueuedCallsMisdispatch()
    ensures var s := SessionState(7, NoAuth, NoAuth, 100003, 3, [], []);
      var alloc := Allocation(true, true, true);
      var r1 := CallSpec(s, 1, [], Callback(1), alloc, 0, 0);
      var r2 := CallSpec(r1.state, 1, [], Callback(2), alloc, 0, 0);
      && r2.rc == 0
      && r2.state.pendingReplies == [PendingReply(9, Callback(2)), PendingReply(8, Callback(1))]
      && WordValue(r2.state.pendingCalls[0][4..]) == 8
      && DeliverSpec(r2.state, ReplyFrame(0x8000_0010, 8, 0, 0, [])).outcome
        == Dispatched(1, Reply(8, 0, 0, []))
  {
    var s := SessionState(7, NoAuth, NoAuth, 100003, 3, [], []);
    var alloc := Allocation(true, true, true);
    var r1 := CallSpec(s, 1, [], Callback(1), alloc, 0, 0);
    MessageCarriesXid(r1.state, 1, []);
    assert r1.state.pendingReplies[0].rpcId == 8;
    AsWrittenReplyMisdirected(r1.state, 1, [], Callback(2), alloc, 0, 0, 0x8000_0010, 0, 0, []);
  }

  /**
   * As written, a call the transport accepts at once returns 0 and leaves
   * no pending reply behind, while a call it refuses returns the error and
   * leaves one.
   */
  lemma AsWrittenSentCallNotRegistered(s: SessionState, proc: U32, payload: seq<Byte>,
                                       cb: Callback, window: nat, sendRc: int)
    requires CanCall(s) && window != 0
    ensures var r := CallSpec(s, proc, payload, cb, Allocation(true, true, true), window, sendRc);
      && r.rc == sendRc
      && (sendRc == 0 <==> r.state.pendingReplies == s.pendingReplies)
  {
    var r := CallSpec(s, proc, payload, cb, Allocation(true, true, true), window, sendRc);
    if sendRc != 0 {
      assert |r.state.pendingReplies| == |s.pendingReplies| + 1;
    }
  }

  /**
   * `oncrpc_call_iob` as evidently intended: a queued call, or a call the
   * transport accepts, is registered under the id it carries; a call the
   * transport refuses returns the error and registers nothing.
   */
  function CallSpecCorrected(s: SessionState, proc: U32, payload: seq<Byte>, cb: Callback,
                             alloc: Allocation, window: nat, sendRc: int): CallResult
    requires CanCall(s)
  {
    if !alloc.callBuffer || !alloc.pendingReply then CallResult(ENOBUFS, s, None)
    else
      var msg := Message(s, proc, payload);
      var s1 := s.(rpcId := ToU32(s.rpcId + 1));
      var registered := [PendingReply(s.rpcId, cb)] + s.pendingReplies;
      if window == 0 then
        if !alloc.pendingCall then CallResult(ENOBUFS, s1, None)
        else CallResult(0, s1.(pendingCalls := [msg] + s.pendingCalls,
                               pendingReplies := registered), None)
      else if sendRc != 0 then CallResult(sendRc, s1, Some(msg))
      else CallResult(0, s1.(pendingReplies := registered), Some(msg))
  }

  /**
   * With the correction, every call that returns 0 has its reply handed to
   * its callback, and delivering that reply removes the registration again;
   * a call that fails leaves the pending replies as they were.
   */
  lemma CorrectedReplyDispatched(s: SessionState, proc: U32, payload: seq<Byte>, tag: nat,
                                 alloc: Allocation, window: nat, sendRc: int,
                                 mark: U32, replyState: U32, acceptState: U32, data: seq<Byte>)
    requires CanCall(s) && !HasXid(s.pendingReplies, s.rpcId)
    ensures var r := CallSpecCorrected(s, proc, payload, Callback(tag), alloc, window, sendRc);
      && (r.rc != 0 ==> r.state.pendingReplies == s.pendingReplies)
      && (r.rc == 0 ==>
            var d := DeliverSpec(r.state, ReplyFrame(mark, s.rpcId, replyState, acceptState, data));
            && d.outcome == Dispatched(tag, Reply(s.rpcId, replyState, acceptState, data))
            && d.state.pendingReplies == s.pendingReplies)
  {
    var r := CallSpecCorrected(s, proc, payload, Callback(tag), alloc, window, sendRc);
    if r.rc == 0 {
      ReplyFrameRead(mark, s.rpcId, replyState, acceptState, data);
      MatchedAtHead(PendingReply(s.rpcId, Callback(tag)), s.pendingReplies);
    }
  }
}
