/**
  What a whole call of get_peers comes to, on every input the caller can be given: the result, all the
  bytes written, and the bytes left unread. The reactions of the machine do not occur here.
 */
module CallOutcomes {
  import opened Bytes
  import opened Frames
  import opened GetPeersClient
  import opened Reactions
  import opened RpcMessages

  // ---- What is written ----------------------------------------------------------------------

  /** One supported version, 0. */
  function SessionBytes(c: Call): ByteString {
    EncodeCanonical(c.codec.putSession(RpcSession([0])))
  }

  /** Request 1, method 10, no flags, 20 seconds. */
  function RequestBytes(c: Call): ByteString {
    EncodeCanonical(c.codec.putRequest(RpcRequest(1, 10, 0, 20, c.codec.putGetPeers(c.request))))
  }

  // ---- Reading a frame, or the end ----------------------------------------------------------

  lemma Step(c: Call, pc: Pc, f: ByteString, rest: ByteString)
    requires pc.IsReading() && IsFrame(pc.Mode(), f)
    ensures Run(c, pc, f + rest) == After(Got(c, pc, f).out, Run(c, Got(c, pc, f).pc, rest))
  {
    hide IsFrame, Got, CutFrame;
    CutOfFrame(pc.Mode(), f, rest);
  }

  lemma StepAtEnd(c: Call, pc: Pc, input: ByteString)
    requires pc.IsReading() && CutFrame(pc.Mode(), input).None?
    ensures Run(c, pc, input) == Outcome(Err(ReceiveFailed), [], [])
  {
    hide CutFrame;
  }

  lemma Ends(c: Call, result: Result<seq<PeerInfo>, RpcError>, input: ByteString)
    ensures Run(c, Done(result), input) == Outcome(result, [], input)
  {
  }

  lemma Start(c: Call, input: ByteString)
    ensures |c.protocolId| > 255 ==> RunFromStart(c, input) == Outcome(Err(ProtocolIdTooLong), [], input)
    ensures |c.protocolId| <= 255 ==>
              RunFromStart(c, input) == After(IdFrame(0, c.protocolId), Run(c, ReadingId, input))
  {
    if |c.protocolId| > 255 {
      Ends(c, Err(ProtocolIdTooLong), input);
      AfterAfter([], [], Run(c, Done(Err(ProtocolIdTooLong)), input));
    } else {
      assert Run(c, WritingId, input) == Run(c, ReadingId, input);
    }
  }

  lemma IdFrameIs(flags: Byte, id: ByteString)
    requires |id| <= 255
    ensures IsFrame(Negotiation, IdFrame(flags, id))
    ensures DecodeNegotiation(IdFrame(flags, id)) == Ok(NegotiationFrame(flags, id))
  {
    NegotiationRoundTrip(flags, id);
  }

  // ---- Negotiation --------------------------------------------------------------------------

  /** A protocol id of more than 255 bytes: nothing is written or read. */
  lemma LongIdIsRefused(c: Call, input: ByteString)
    requires |c.protocolId| > 255
    ensures RunFromStart(c, input) == Outcome(Err(ProtocolIdTooLong), [], input)
  {
    Start(c, input);
  }

  lemma NoVerdict(c: Call, input: ByteString)
    requires |c.protocolId| <= 255 && CutFrame(Negotiation, input).None?
    ensures RunFromStart(c, input) == Outcome(Err(ReceiveFailed), IdFrame(0, c.protocolId), [])
  {
    hide Run, RunFromStart, CutFrame;
    Start(c, input);
    StepAtEnd(c, ReadingId, input);
    assert IdFrame(0, c.protocolId) + [] == IdFrame(0, c.protocolId);
  }

  /** Bit 1 of the flags ends the negotiation; bit 2, or any other id than the one asked for, refuses it. */
  predicate Accepts(c: Call, flags: Byte, id: ByteString) {
    flags / 2 % 2 == 0 && flags / 4 % 2 == 0 && id == c.protocolId
  }

  lemma Verdict(c: Call, flags: Byte, id: ByteString, rest: ByteString)
    requires |c.protocolId| <= 255 && |id| <= 255
    ensures var o := RunFromStart(c, IdFrame(flags, id) + rest);
            if Accepts(c, flags, id) then
              o == After(IdFrame(0, c.protocolId) + SessionBytes(c), Run(c, ReadingReply, rest))
            else
              o == Outcome(Err(if flags / 2 % 2 == 1 then Terminated else NotSupported), IdFrame(0, c.protocolId), rest)
  {
    var f, first := IdFrame(flags, id), IdFrame(0, c.protocolId);
    IdFrameIs(flags, id);
    hide IsFrame, DecodeNegotiation, IdFrame, EncodeCanonical, RunFromStart;
    Start(c, f + rest);
    Step(c, ReadingId, f, rest);
    var next := Got(c, ReadingId, f);
    AfterAfter(first, next.out, Run(c, next.pc, rest));
    if Accepts(c, flags, id) {
      assert Run(c, WritingSession, rest) == Run(c, ReadingReply, rest);
    } else {
      Ends(c, next.pc.result, rest);
      assert first + [] == first;
    }
  }

  // ---- The session handshake ----------------------------------------------------------------

  /** What is written when the session has been offered. */
  function Offered(c: Call): ByteString
    requires |c.protocolId| <= 255
  {
    IdFrame(0, c.protocolId) + SessionBytes(c)
  }

  lemma NoReply(c: Call, flags: Byte, rest: ByteString)
    requires |c.protocolId| <= 255 && Accepts(c, flags, c.protocolId) && CutFrame(Canonical, rest).None?
    ensures RunFromStart(c, IdFrame(flags, c.protocolId) + rest) == Outcome(Err(ReceiveFailed), Offered(c), [])
  {
    hide Run, RunFromStart, CutFrame, IdFrame, SessionBytes;
    Verdict(c, flags, c.protocolId, rest);
    StepAtEnd(c, ReadingReply, rest);
    assert Offered(c) + [] == Offered(c);
  }

  /**
    Only an accepted version, whichever it is, lets the caller go on to its request. A rejection is
    reported with its reason, a reply that says neither as invalid; then nothing more is written, and
    the bytes after the reply stay unread.
   */
  lemma Reply(c: Call, flags: Byte, payload: ByteString, rest: ByteString)
    requires |c.protocolId| <= 255 && Accepts(c, flags, c.protocolId) && |payload| < LIMIT32
    ensures var o := RunFromStart(c, IdFrame(flags, c.protocolId) + EncodeCanonical(payload) + rest);
            var reply := c.codec.getReply(payload);
            if reply.None? then o == Outcome(Err(BadMessage), Offered(c), rest)
            else
              match reply.value.result
              case Rejected(rejected) =>
                o == Outcome(Err(if rejected then HandshakeRejected(reply.value.reason) else InvalidHandshake), Offered(c), rest)
              case Unset => o == Outcome(Err(InvalidHandshake), Offered(c), rest)
              case AcceptedVersion(_) => o == After(Offered(c) + RequestBytes(c), Run(c, ReadingResponse(0, []), rest))
  {
    var f := EncodeCanonical(payload);
    CanonicalRoundTrip(payload);
    hide IsFrame, DecodeCanonical, EncodeCanonical, IdFrame, RunFromStart, SessionBytes;
    assert IdFrame(flags, c.protocolId) + f + rest == IdFrame(flags, c.protocolId) + (f + rest);
    Verdict(c, flags, c.protocolId, f + rest);
    Step(c, ReadingReply, f, rest);
    var next := Got(c, ReadingReply, f);
    AfterAfter(Offered(c), next.out, Run(c, next.pc, rest));
    if next.pc.Done? {
      Ends(c, next.pc.result, rest);
      assert Offered(c) + [] == Offered(c);
    } else {
      assert Run(c, WritingRequest, rest) == Run(c, ReadingResponse(0, []), rest);
    }
  }

  // ---- The responses ------------------------------------------------------------------------

  /** Responses that bring peers or nothing, without FIN: they add up, until there have been 100000. */
  lemma {:induction false} ResponsesAddUp(c: Call, i: nat, peers: seq<PeerInfo>, frames: seq<ByteString>, rest: ByteString)
    requires AreFrames(Canonical, frames) && i < 100000 && i + |frames| <= 100000
    requires forall k :: 0 <= k < |frames| ==> Gift(c.codec, frames[k]).Some? && !Finishes(c.codec, frames[k])
    ensures Run(c, ReadingResponse(i, peers), Concat(frames) + rest)
         == if i + |frames| < 100000 then
              Run(c, ReadingResponse(i + |frames|, peers + PeersIn(c.codec, frames)), rest)
            else
              Outcome(Err(TooManyResponses), [], rest)
    decreases |frames|
  {
    hide Run, IsFrame, Gift, Finishes;
    if frames == [] {
      assert Concat(frames) + rest == rest && peers + [] == peers;
    } else {
      var f, others := frames[0], frames[1..];
      assert Concat(frames) + rest == f + (Concat(others) + rest);
      var more := Gift(c.codec, f).value;
      assert PeersIn(c.codec, frames) == more + PeersIn(c.codec, others);
      hide Concat, PeersIn;
      OneResponse(c, i, peers, f, Concat(others) + rest);
      if i + 1 < 100000 {
        ResponsesAddUp(c, i + 1, peers + more, others, rest);
        assert peers + more + PeersIn(c.codec, others) == peers + (more + PeersIn(c.codec, others));
      } else {
        LastOfAll(others, rest);
      }
    }
  }

  lemma OneResponse(c: Call, i: nat, peers: seq<PeerInfo>, f: ByteString, tail: ByteString)
    requires IsFrame(Canonical, f) && i < 100000
    requires Gift(c.codec, f).Some? && !Finishes(c.codec, f)
    ensures Run(c, ReadingResponse(i, peers), f + tail)
         == if i + 1 < 100000 then Run(c, ReadingResponse(i + 1, peers + Gift(c.codec, f).value), tail)
            else Outcome(Err(TooManyResponses), [], tail)
  {
    hide Run, IsFrame, Gift, Finishes, GotResponse;
    RunStep(c, i, peers, f, tail);
    ReactionToGift(c.codec, i, peers, f);
    Ends(c, Err(TooManyResponses), tail);
  }

  lemma LastOfAll(frames: seq<ByteString>, rest: ByteString)
    ensures frames == [] ==> Concat(frames) + rest == rest
  {
  }

  /** A response that cannot be read, has a status, or brings a payload that cannot be read ends the call with that error. */
  lemma BadResponse(c: Call, i: nat, peers: seq<PeerInfo>, payload: ByteString, rest: ByteString)
    requires |payload| < LIMIT32
    ensures var o := Run(c, ReadingResponse(i, peers), EncodeCanonical(payload) + rest);
            match c.codec.getResponse(payload)
            case None => o == Outcome(Err(BadMessage), [], rest)
            case Some(r) =>
              && (r.status != 0 ==> o == Outcome(Err(StatusError(r.status)), [], rest))
              && (r.status == 0 && r.payload != [] && c.codec.getPeer(r.payload).None? ==>
                    o == Outcome(Err(BadMessage), [], rest))
  {
    var f := EncodeCanonical(payload);
    CanonicalRoundTrip(payload);
    hide IsFrame, DecodeCanonical, EncodeCanonical, Run;
    RunStep(c, i, peers, f, rest);
    var next := GotResponse(c.codec, i, peers, f);
    RunDone(c, next, rest);
  }

  lemma NoResponse(c: Call, i: nat, peers: seq<PeerInfo>, rest: ByteString)
    requires CutFrame(Canonical, rest).None?
    ensures Run(c, ReadingResponse(i, peers), rest) == Outcome(Err(ReceiveFailed), [], [])
  {
    ReadStep(c, i, peers, rest);
  }

  // ---- Calls that succeed -------------------------------------------------------------------

  /** What a responder has to send for a call to succeed. */
  ghost predicate IsGoodAnswer(c: Call, input: ByteString, flags: Byte, payload: ByteString,
                               frames: seq<ByteString>, rest: ByteString) {
    && |c.protocolId| <= 255 && |payload| < LIMIT32
    && input == IdFrame(flags, c.protocolId) + EncodeCanonical(payload) + (Concat(frames) + rest)
    && flags / 2 % 2 == 0 && flags / 4 % 2 == 0
    && c.codec.getReply(payload).Some? && c.codec.getReply(payload).value.result.AcceptedVersion?
    && AreFrames(Canonical, frames) && IsCompleteStream(c.codec, frames) && |frames| <= 100000
  }

  /** On a good answer the call succeeds, having written three frames, with the peers of all responses in order. */
  lemma GoodAnswerSucceeds(c: Call, input: ByteString, flags: Byte, payload: ByteString,
                           frames: seq<ByteString>, rest: ByteString)
    requires IsGoodAnswer(c, input, flags, payload, frames, rest)
    ensures RunFromStart(c, input)
         == Outcome(Ok(PeersIn(c.codec, frames)), Offered(c) + RequestBytes(c), rest)
  {
    hide Run, RunFromStart, IdFrame, EncodeCanonical, IsFrame, IsCompleteStream, Offered, RequestBytes;
    Reply(c, flags, payload, Concat(frames) + rest);
    CompleteStreamIsCollected(c, 0, [], frames, rest);
    assert [] + PeersIn(c.codec, frames) == PeersIn(c.codec, frames);
    assert Offered(c) + RequestBytes(c) + [] == Offered(c) + RequestBytes(c);
  }

  /** Conversely a call succeeds only on a good answer. */
  lemma SuccessNeedsGoodAnswer(c: Call, input: ByteString)
    returns (flags: Byte, payload: ByteString, frames: seq<ByteString>, rest: ByteString)
    requires RunFromStart(c, input).result.Ok?
    ensures IsGoodAnswer(c, input, flags, payload, frames, rest)
  {
    hide Run, RunFromStart, IdFrame, EncodeCanonical, IsFrame, CutFrame, Explains, DecodeCanonical;
    flags, payload, frames, rest := 0, [], [], [];
    Start(c, input);
    if |c.protocolId| <= 255 {
      if CutFrame(Negotiation, input).None? {
        NoVerdict(c, input);
        return;
      }
      var cut := CutFrame(Negotiation, input).value;
      var id: ByteString;
      flags, id := FrameParts(cut.frame);
      Verdict(c, flags, id, cut.rest);
      if !Accepts(c, flags, id) {
        return;
      }
      if CutFrame(Canonical, cut.rest).None? {
        NoReply(c, flags, cut.rest);
        return;
      }
      var second := CutFrame(Canonical, cut.rest).value;
      payload := PayloadOf(second.frame);
      assert input == IdFrame(flags, id) + EncodeCanonical(payload) + second.rest;
      Reply(c, flags, payload, second.rest);
      frames, rest := CollectedIsCompleteStream(c, 0, [], second.rest);
      Explained(c, second.rest, frames, rest, Run(c, ReadingResponse(0, []), second.rest));
    }
  }

  lemma Explained(c: Call, input: ByteString, frames: seq<ByteString>, rest: ByteString, o: Outcome<seq<PeerInfo>>)
    requires Explains(c.codec, 0, [], input, frames, rest, o)
    ensures AreFrames(Canonical, frames) && |frames| <= 100000 && Concat(frames) + rest == input
    ensures o.result.Ok? ==> IsCompleteStream(c.codec, frames)
  {
    hide IsFrame, CutFrame, IsCompleteStream;
  }

  lemma FrameParts(f: ByteString) returns (flags: Byte, id: ByteString)
    requires IsFrame(Negotiation, f)
    ensures |id| <= 255 && f == IdFrame(flags, id)
  {
    flags, id := f[1], f[2..];
  }

  lemma PayloadOf(f: ByteString) returns (payload: ByteString)
    requires IsFrame(Canonical, f)
    ensures |payload| < LIMIT32 && f == EncodeCanonical(payload)
  {
    payload := f[4..];
    CanonicalFrameIs(f);
  }
}
