/**
  What serving a whole call of get_peers comes to, on every input the responder can be given: the
  result, all the bytes written, and the bytes left unread. The reactions of the machine do not occur here.
 */
module ServeOutcomes {
  import opened Bytes
  import opened Frames
  import opened GetPeersServer
  import opened Reactions
  import opened RpcMessages

  /** Version 0 is accepted. */
  function AcceptanceBytes(s: Service): ByteString {
    EncodeCanonical(s.codec.putReply(RpcSessionReply(AcceptedVersion(0), 0)))
  }

  /** Response j to a request: its id, status 0, a peer, and FIN on the last; without peers just one, empty. */
  function Answer(s: Service, id: UInt32, bounded: seq<Option<PeerInfo>>, j: nat): RpcResponse
    requires j < |bounded| || bounded == []
  {
    RpcResponse(id, 0, if bounded == [] || j == |bounded| - 1 then 1 else 0,
                if bounded == [] then [] else s.codec.putPeer(bounded[j]))
  }

  /** All the responses from number j on. */
  function AnswerBytes(s: Service, id: UInt32, bounded: seq<Option<PeerInfo>>, j: nat): ByteString
    decreases |bounded| - j
  {
    if bounded == [] then EncodeCanonical(s.codec.putResponse(Answer(s, id, bounded, 0)))
    else if j >= |bounded| then []
    else EncodeCanonical(s.codec.putResponse(Answer(s, id, bounded, j))) + AnswerBytes(s, id, bounded, j + 1)
  }

  // ---- Reading a frame, or the end ----------------------------------------------------------

  lemma Step(s: Service, pc: Pc, f: ByteString, rest: ByteString)
    requires pc.IsReading() && IsFrame(pc.Mode(), f)
    ensures Run(s, pc, f + rest) == After(Got(s, pc, f).out, Run(s, Got(s, pc, f).pc, rest))
  {
    hide IsFrame, Got, CutFrame;
    CutOfFrame(pc.Mode(), f, rest);
  }

  lemma StepAtEnd(s: Service, pc: Pc, input: ByteString)
    requires pc.IsReading() && CutFrame(pc.Mode(), input).None?
    ensures Run(s, pc, input) == Outcome(Err(ReceiveFailed), [], [])
  {
    hide CutFrame;
  }

  lemma Ends(s: Service, result: Result<(), RpcError>, input: ByteString)
    ensures Run(s, Done(result), input) == Outcome(result, [], input)
  {
  }

  /** After a write that starts nothing new. */
  lemma Quiet(s: Service, pc: Pc, input: ByteString)
    requires pc.WritingVerdict? || pc.WritingAcceptance?
    ensures pc.WritingAcceptance? ==> Run(s, pc, input) == Run(s, ReadingRequest, input)
    ensures pc.WritingVerdict? ==>
              Run(s, pc, input) == if pc.supported then Run(s, ReadingSession, input) else Outcome(Err(NotSupported), [], input)
  {
    AfterAfter([], [], Run(s, Wrote(s, pc).pc, input));
  }

  // ---- Negotiation --------------------------------------------------------------------------

  lemma NoRequestedId(s: Service, input: ByteString)
    requires CutFrame(Negotiation, input).None?
    ensures Run(s, ReadingNegotiation, input) == Outcome(Err(ReceiveFailed), [], [])
  {
    StepAtEnd(s, ReadingNegotiation, input);
  }

  /** An id in the list is sent back, any other is answered with flag 4 and no id; flags of the caller's do not matter. */
  lemma Verdict(s: Service, flags: Byte, id: ByteString, rest: ByteString)
    requires |id| <= 255
    ensures Run(s, ReadingNegotiation, IdFrame(flags, id) + rest)
         == if id in s.supported then After(IdFrame(0, id), Run(s, ReadingSession, rest))
            else Outcome(Err(NotSupported), [0, 4], rest)
  {
    var f := IdFrame(flags, id);
    NegotiationRoundTrip(flags, id);
    assert IsFrame(Negotiation, f) && DecodeNegotiation(f) == Ok(NegotiationFrame(flags, id));
    assert [0, 4] + [] == [0, 4];
    hide IsFrame, DecodeNegotiation;
    Step(s, ReadingNegotiation, f, rest);
    Quiet(s, WritingVerdict(id in s.supported), rest);
  }

  // ---- The session handshake ----------------------------------------------------------------

  lemma NoSession(s: Service, flags: Byte, id: ByteString, rest: ByteString)
    requires |id| <= 255 && id in s.supported && CutFrame(Canonical, rest).None?
    ensures Run(s, ReadingNegotiation, IdFrame(flags, id) + rest) == Outcome(Err(ReceiveFailed), IdFrame(0, id), [])
  {
    hide Run, CutFrame, IdFrame;
    Verdict(s, flags, id, rest);
    StepAtEnd(s, ReadingSession, rest);
    assert IdFrame(0, id) + [] == IdFrame(0, id);
  }

  function Agreed(s: Service, id: ByteString): ByteString
    requires |id| <= 255
  {
    IdFrame(0, id) + AcceptanceBytes(s)
  }

  /** Any session that can be read is accepted, whatever versions it offers. */
  lemma SessionOffered(s: Service, flags: Byte, id: ByteString, payload: ByteString, rest: ByteString)
    requires |id| <= 255 && id in s.supported && |payload| < LIMIT32
    ensures Run(s, ReadingNegotiation, IdFrame(flags, id) + EncodeCanonical(payload) + rest)
         == if s.codec.getSession(payload).None? then Outcome(Err(BadMessage), IdFrame(0, id), rest)
            else After(Agreed(s, id), Run(s, ReadingRequest, rest))
  {
    var f := EncodeCanonical(payload);
    CanonicalRoundTrip(payload);
    hide IsFrame, DecodeCanonical, EncodeCanonical, IdFrame;
    assert IdFrame(flags, id) + f + rest == IdFrame(flags, id) + (f + rest);
    Verdict(s, flags, id, f + rest);
    Step(s, ReadingSession, f, rest);
    var next := Got(s, ReadingSession, f);
    AfterAfter(IdFrame(0, id), next.out, Run(s, next.pc, rest));
    if next.pc.Done? {
      Ends(s, next.pc.result, rest);
      assert IdFrame(0, id) + [] == IdFrame(0, id);
    } else {
      Quiet(s, WritingAcceptance, rest);
    }
  }

  // ---- The request and its answer -----------------------------------------------------------

  lemma {:induction false} AnswersAreWritten(s: Service, id: UInt32, bounded: seq<Option<PeerInfo>>, j: nat, rest: ByteString)
    requires j < |bounded| || (bounded == [] && j == 0)
    ensures After(ResponseFrame(s.codec, id, bounded, j), Run(s, WritingResponse(id, bounded, j), rest))
         == Outcome(Ok(()), AnswerBytes(s, id, bounded, j), rest)
    decreases |bounded| - j
  {
    var frame := ResponseFrame(s.codec, id, bounded, j);
    assert frame == EncodeCanonical(s.codec.putResponse(Answer(s, id, bounded, j)));
    hide Run, ResponseFrame, EncodeCanonical;
    WriteStep(s, id, bounded, j, rest);
    assert frame + [] == frame;
    if j + 1 < |bounded| {
      AnswersAreWritten(s, id, bounded, j + 1, rest);
    }
  }

  lemma NoRequest(s: Service, flags: Byte, id: ByteString, payload: ByteString, rest: ByteString)
    requires |id| <= 255 && id in s.supported && |payload| < LIMIT32
    requires s.codec.getSession(payload).Some? && CutFrame(Canonical, rest).None?
    ensures Run(s, ReadingNegotiation, IdFrame(flags, id) + EncodeCanonical(payload) + rest)
         == Outcome(Err(ReceiveFailed), Agreed(s, id), [])
  {
    hide Run, CutFrame, IdFrame, EncodeCanonical;
    SessionOffered(s, flags, id, payload, rest);
    StepAtEnd(s, ReadingRequest, rest);
    assert Agreed(s, id) + [] == Agreed(s, id);
  }

  /** An empty payload asks for all peers, without clients and without bounds. */
  function Asked(s: Service, payload: ByteString): Option<GetPeersRequest> {
    if payload == [] then Some(GetPeersRequest(0, false, 0, 0)) else s.codec.getGetPeers(payload)
  }

  /**
    A request that can be read is answered with the bounded list under the request's own id, whatever
    its method number and deadline; one that cannot is not answered at all.
   */
  lemma RequestAnswered(s: Service, flags: Byte, id: ByteString, session: ByteString, payload: ByteString, rest: ByteString)
    requires |id| <= 255 && id in s.supported && |session| < LIMIT32 && |payload| < LIMIT32
    requires s.codec.getSession(session).Some?
    ensures var o := Run(s, ReadingNegotiation,
                         IdFrame(flags, id) + EncodeCanonical(session) + (EncodeCanonical(payload) + rest));
            var request := s.codec.getRequest(payload);
            if request.None? || Asked(s, request.value.payload).None? then
              o == Outcome(Err(BadMessage), Agreed(s, id), rest)
            else
              var bounded := BoundPeers(s.peers, Asked(s, request.value.payload).value);
              o == Outcome(Ok(()), Agreed(s, id) + AnswerBytes(s, request.value.requestId, bounded, 0), rest)
  {
    var f := EncodeCanonical(payload);
    CanonicalRoundTrip(payload);
    hide IsFrame, DecodeCanonical, EncodeCanonical, IdFrame, Agreed, BoundPeers, ResponseFrame, AnswerBytes, Run;
    SessionOffered(s, flags, id, session, f + rest);
    Step(s, ReadingRequest, f, rest);
    var next := Got(s, ReadingRequest, f);
    if next.pc.Done? {
      Ends(s, next.pc.result, rest);
      AfterAfter(Agreed(s, id), [], Run(s, next.pc, rest));
      assert Agreed(s, id) + [] == Agreed(s, id);
    } else {
      AnswersAreWritten(s, next.pc.requestId, next.pc.bounded, 0, rest);
    }
  }
}
