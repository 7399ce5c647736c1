/**
  The calling side of get_peers (p2p/rpc/dht_getpeers.go, negotiation.go, handshake.go).

  `Began`, `Wrote` and `Got` are the reactions of the program between two waits: what it does when a
  write has gone through or a frame has come in. The step machine of the protocol and the sequential
  program below are built from the same reactions.
 */
module GetPeersClient {
  import opened Bytes
  import opened Frames
  import opened Reactions
  import opened RpcMessages
  import T = StreamTransport

  datatype Call = Call(codec: Codec, protocolId: ByteString, request: GetPeersRequest)

  datatype Pc =
    | WritingId | ReadingId
    | WritingSession | ReadingReply
    | WritingRequest | ReadingResponse(i: nat, peers: seq<PeerInfo>)
    | Done(result: Result<seq<PeerInfo>, RpcError>)
  {
    predicate IsReading() { ReadingId? || ReadingReply? || ReadingResponse? }
    predicate IsWriting() { WritingId? || WritingSession? || WritingRequest? }

    /** The framing in force: negotiation until the protocol is agreed. */
    function Mode(): Kind { if WritingId? || ReadingId? then Negotiation else Canonical }
  }

  function Fail(e: RpcError): Reaction<Pc> { Reaction(Done(Err(e)), []) }

  function Began(c: Call): Reaction<Pc> {
    match EncodeNegotiation(FLAG_NONE, c.protocolId)
    case Err(_) => Fail(ProtocolIdTooLong)
    case Ok(frame) => Reaction(WritingId, frame)
  }

  function Wrote(pc: Pc): Pc
    requires pc.IsWriting()
  {
    match pc
    case WritingId => ReadingId
    case WritingSession => ReadingReply
    case WritingRequest => ReadingResponse(0, [])
  }

  function GotId(c: Call, frame: ByteString): Reaction<Pc> {
    match DecodeNegotiation(frame)
    case Err(_) => Fail(BadFrame)
    case Ok(f) =>
      if HasTerminate(f.flags) then Fail(Terminated)
      else if HasNotSupported(f.flags) then Fail(NotSupported)
      else if f.id != c.protocolId then Fail(NotSupported)
      else Reaction(WritingSession, EncodeCanonical(c.codec.putSession(RpcSession([SUPPORTED_RPC_VERSION]))))
  }

  function RequestFrame(c: Call): ByteString {
    EncodeCanonical(c.codec.putRequest(
      RpcRequest(DEFAULT_REQUEST_ID, GET_PEERS_METHOD, 0, DEFAULT_DEADLINE, c.codec.putGetPeers(c.request))))
  }

  /** Any accepted version will do. */
  function GotReply(c: Call, frame: ByteString): Reaction<Pc> {
    match DecodeCanonical(frame)
    case Err(_) => Fail(BadFrame)
    case Ok(bytes) =>
      match c.codec.getReply(bytes)
      case None => Fail(BadMessage)
      case Some(reply) =>
        match reply.result
        case AcceptedVersion(_) => Reaction(WritingRequest, RequestFrame(c))
        case Rejected(true) => Fail(HandshakeRejected(reply.reason))
        case Rejected(false) => Fail(InvalidHandshake)
        case Unset => Fail(InvalidHandshake)
  }

  /** The peers a payload adds; none if it does not decode. */
  function PeersOf(codec: Codec, payload: ByteString): Option<seq<PeerInfo>> {
    if payload == [] then Some([])
    else
      match codec.getPeer(payload)
      case None => None
      case Some(None) => Some([])
      case Some(Some(peer)) => Some([peer])
  }

  /** Response i, after i earlier ones: the payload counts whether or not the FIN flag is set. */
  function GotResponse(codec: Codec, i: nat, peers: seq<PeerInfo>, frame: ByteString): Pc {
    match DecodeCanonical(frame)
    case Err(_) => Done(Err(BadFrame))
    case Ok(bytes) =>
      match codec.getResponse(bytes)
      case None => Done(Err(BadMessage))
      case Some(r) =>
        if r.status != 0 then Done(Err(StatusError(r.status)))
        else
          match PeersOf(codec, r.payload)
          case None => Done(Err(BadMessage))
          case Some(more) =>
            if r.IsFin() then Done(Ok(peers + more))
            else if i + 1 >= MAX_RESPONSES then Done(Err(TooManyResponses))
            else ReadingResponse(i + 1, peers + more)
  }

  function Got(c: Call, pc: Pc, frame: ByteString): Reaction<Pc>
    requires pc.IsReading()
  {
    match pc
    case ReadingId => GotId(c, frame)
    case ReadingReply => GotReply(c, frame)
    case ReadingResponse(i, peers) => Reaction(GotResponse(c.codec, i, peers, frame), [])
  }

  // ---- The sequential program ---------------------------------------------------------------

  /** The machine on its own: reactions chained over the frames of the input. */
  function Run(c: Call, pc: Pc, input: ByteString): Outcome<seq<PeerInfo>>
    decreases |input|, !pc.Done?, pc.IsWriting()
  {
    if pc.Done? then Outcome(pc.result, [], input)
    else if pc.IsWriting() then Run(c, Wrote(pc), input)
    else
      match CutFrame(pc.Mode(), input)
      case None => Outcome(Err(ReceiveFailed), [], [])
      case Some(cut) =>
        var next := Got(c, pc, cut.frame);
        var o := Run(c, next.pc, cut.rest);
        o.(output := next.out + o.output)
  }

  function RunFromStart(c: Call, input: ByteString): Outcome<seq<PeerInfo>> {
    var first := Began(c);
    var o := Run(c, first.pc, input);
    o.(output := first.out + o.output)
  }

  function SessionFrame(c: Call): ByteString {
    EncodeCanonical(c.codec.putSession(RpcSession([SUPPORTED_RPC_VERSION])))
  }

  /** The outgoing side of protocol negotiation; on success the rest of the run starts with the session frame. */
  method NegotiateProtocol(t: T.StreamTransport, c: Call) returns (failure: Option<RpcError>)
    requires !t.canonical
    modifies t
    ensures !t.canonical
    ensures failure.Some? ==>
              Outcome(Err(failure.value), t.output, t.input)
              == After(old(t.output), RunFromStart(c, old(t.input)))
    ensures failure.None? ==>
              After(old(t.output), RunFromStart(c, old(t.input)))
              == After(t.output + SessionFrame(c), Run(c, WritingSession, t.input))
  {
    ghost var out, input := t.output, t.input;
    var outFrame := EncodeNegotiation(FLAG_NONE, c.protocolId);
    if outFrame.Err? {
      AfterAfter(out, [], Run(c, Began(c).pc, input));
      return Some(ProtocolIdTooLong);
    }
    t.SendFrame(outFrame.value);
    assert Run(c, WritingId, input) == Run(c, ReadingId, input);
    AfterAfter(out, outFrame.value, Run(c, ReadingId, input));
    var inFrame := t.ReceiveFrame();
    if inFrame.Err? {
      return Some(ReceiveFailed);
    }
    ghost var next := GotId(c, inFrame.value);
    assert Run(c, ReadingId, input) == After(next.out, Run(c, next.pc, t.input));
    AfterAfter(t.output, next.out, Run(c, next.pc, t.input));
    var reply := DecodeNegotiation(inFrame.value);
    if reply.Err? {
      return Some(BadFrame);
    }
    if HasTerminate(reply.value.flags) {
      return Some(Terminated);
    }
    if HasNotSupported(reply.value.flags) {
      return Some(NotSupported);
    }
    if reply.value.id != c.protocolId {
      return Some(NotSupported);
    }
    failure := None;
  }

  /** The calling side of the session handshake; on success the rest of the run starts with the request. */
  method PerformSessionHandshake(t: T.StreamTransport, c: Call) returns (failure: Option<RpcError>)
    requires t.canonical
    modifies t
    ensures t.canonical
    ensures failure.Some? ==>
              Outcome(Err(failure.value), t.output, t.input)
              == After(old(t.output) + SessionFrame(c), Run(c, WritingSession, old(t.input)))
    ensures failure.None? ==>
              After(old(t.output) + SessionFrame(c), Run(c, WritingSession, old(t.input)))
              == After(t.output + RequestFrame(c), Run(c, WritingRequest, t.input))
  {
    ghost var input := t.input;
    t.SendFrame(EncodeCanonical(c.codec.putSession(RpcSession([SUPPORTED_RPC_VERSION]))));
    assert Run(c, WritingSession, input) == Run(c, ReadingReply, input);
    var inFrame := t.ReceiveFrame();
    if inFrame.Err? {
      return Some(ReceiveFailed);
    }
    ghost var next := GotReply(c, inFrame.value);
    assert Run(c, ReadingReply, input) == After(next.out, Run(c, next.pc, t.input));
    AfterAfter(t.output, next.out, Run(c, next.pc, t.input));
    var bytes := DecodeCanonical(inFrame.value);
    if bytes.Err? {
      return Some(BadFrame);
    }
    var reply := c.codec.getReply(bytes.value);
    if reply.None? {
      return Some(BadMessage);
    }
    match reply.value.result
    case AcceptedVersion(_) => return None;
    case Rejected(rejected) =>
      return Some(if rejected then HandshakeRejected(reply.value.reason) else InvalidHandshake);
    case Unset => return Some(InvalidHandshake);
  }

  /** Collecting responses writes nothing. */
  lemma {:induction false} CollectingIsQuiet(c: Call, i: nat, peers: seq<PeerInfo>, input: ByteString)
    ensures Run(c, ReadingResponse(i, peers), input).output == []
    decreases |input|
  {
    match CutFrame(Canonical, input)
    case None =>
    case Some(cut) =>
      var next := GotResponse(c.codec, i, peers, cut.frame);
      if next.ReadingResponse? {
        CollectingIsQuiet(c, next.i, next.peers, cut.rest);
      }
  }

  /** One response read, if there is one. */
  lemma ReadStep(c: Call, i: nat, peers: seq<PeerInfo>, input: ByteString)
    ensures CutFrame(Canonical, input).None? ==>
              Run(c, ReadingResponse(i, peers), input) == Outcome(Err(ReceiveFailed), [], [])
    ensures CutFrame(Canonical, input).Some? ==>
              var cut := CutFrame(Canonical, input).value;
              Run(c, ReadingResponse(i, peers), input) == Run(c, GotResponse(c.codec, i, peers, cut.frame), cut.rest)
  {
    hide CutFrame, GotResponse;
    if CutFrame(Canonical, input).Some? {
      var cut := CutFrame(Canonical, input).value;
      AfterAfter([], [], Run(c, GotResponse(c.codec, i, peers, cut.frame), cut.rest));
    }
  }

  /** The loop over the responses. */
  method CollectPeers(t: T.StreamTransport, c: Call) returns (result: Result<seq<PeerInfo>, RpcError>)
    requires t.canonical
    modifies t`input
    ensures Outcome(result, [], t.input) == Run(c, ReadingResponse(0, []), old(t.input))
  {
    hide Run, CutFrame;
    var peers: seq<PeerInfo> := [];
    var i := 0;
    ghost var run := Run(c, ReadingResponse(0, []), t.input);
    while true
      invariant 0 <= i <= MAX_RESPONSES
      invariant i < MAX_RESPONSES ==> Run(c, ReadingResponse(i, peers), t.input) == run
      invariant i == MAX_RESPONSES ==> Outcome(Err(TooManyResponses), [], t.input) == run
      decreases MAX_RESPONSES - i
    {
      if i >= MAX_RESPONSES {
        return Err(TooManyResponses);
      }
      ReadStep(c, i, peers, t.input);
      var inFrame := t.ReceiveFrame();
      if inFrame.Err? {
        return Err(ReceiveFailed);
      }
      RunDone(c, GotResponse(c.codec, i, peers, inFrame.value), t.input);
      assert peers + [] == peers;
      var bytes := DecodeCanonical(inFrame.value);
      if bytes.Err? {
        return Err(BadFrame);
      }
      var response := c.codec.getResponse(bytes.value);
      if response.None? {
        return Err(BadMessage);
      }
      if response.value.status != 0 {
        return Err(StatusError(response.value.status));
      }
      if response.value.payload != [] {
        var decoded := c.codec.getPeer(response.value.payload);
        if decoded.None? {
          return Err(BadMessage);
        }
        if decoded.value.Some? {
          peers := peers + [decoded.value.value];
        }
      }
      if response.value.IsFin() {
        return Ok(peers);
      }
      i := i + 1;
    }
  }

  lemma RunDone(c: Call, pc: Pc, input: ByteString)
    ensures pc.Done? ==> Run(c, pc, input) == Outcome(pc.result, [], input)
  {
  }

  /** get_peers as the program runs it: the machine `Run`, from start to finish. */
  method GetPeers(t: T.StreamTransport, c: Call) returns (result: Result<seq<PeerInfo>, RpcError>)
    requires !t.canonical
    modifies t
    ensures Outcome(result, t.output, t.input) == After(old(t.output), RunFromStart(c, old(t.input)))
  {
    var failure := NegotiateProtocol(t, c);
    if failure.Some? {
      return Err(failure.value);
    }
    t.BeginCanonicalFraming();
    failure := PerformSessionHandshake(t, c);
    if failure.Some? {
      return Err(failure.value);
    }
    assert Run(c, WritingRequest, t.input) == Run(c, ReadingResponse(0, []), t.input);
    t.SendFrame(RequestFrame(c));
    result := CollectPeers(t, c);
  }

  // ---- What a successful call means ---------------------------------------------------------

  function Decoded(codec: Codec, frame: ByteString): Option<RpcResponse> {
    match DecodeCanonical(frame)
    case Err(_) => None
    case Ok(bytes) => codec.getResponse(bytes)
  }

  /** The peers a frame adds if it carries a response with zero status and a readable payload. */
  function Gift(codec: Codec, frame: ByteString): Option<seq<PeerInfo>> {
    match Decoded(codec, frame)
    case None => None
    case Some(r) =>
      if r.status != 0 then None
      else if r.payload == [] then Some([])
      else
        match codec.getPeer(r.payload)
        case None => None
        case Some(peer) => Some(if peer.Some? then [peer.value] else [])
  }

  predicate Finishes(codec: Codec, frame: ByteString) {
    Decoded(codec, frame).Some? && Decoded(codec, frame).value.flags % 2 == 1
  }

  /** Responses with zero status and readable payloads of which the last, and no other, carries the FIN flag. */
  predicate IsCompleteStream(codec: Codec, frames: seq<ByteString>) {
    && frames != []
    && (forall k :: 0 <= k < |frames| ==> Gift(codec, frames[k]).Some?)
    && (forall k :: 0 <= k < |frames| ==> (Finishes(codec, frames[k]) <==> k == |frames| - 1))
  }

  /** The peers of all payloads, in order. */
  function PeersIn(codec: Codec, frames: seq<ByteString>): seq<PeerInfo> {
    if frames == [] then []
    else
      var first := Gift(codec, frames[0]);
      (if first.Some? then first.value else []) + PeersIn(codec, frames[1..])
  }

  lemma ReactionToGift(codec: Codec, i: nat, peers: seq<PeerInfo>, frame: ByteString)
    ensures Gift(codec, frame).Some? ==>
              var all := peers + Gift(codec, frame).value;
              GotResponse(codec, i, peers, frame)
              == (if Finishes(codec, frame) then Done(Ok(all))
                  else if i + 1 >= MAX_RESPONSES then Done(Err(TooManyResponses))
                  else ReadingResponse(i + 1, all))
    ensures Gift(codec, frame).None? ==>
              var next := GotResponse(codec, i, peers, frame);
              && next.Done? && next.result.Err?
              && next.result.error != ReceiveFailed && next.result.error != TooManyResponses
  {
  }

  lemma RunStep(c: Call, i: nat, peers: seq<PeerInfo>, frame: ByteString, tail: ByteString)
    requires IsFrame(Canonical, frame)
    ensures Run(c, ReadingResponse(i, peers), frame + tail) == Run(c, GotResponse(c.codec, i, peers, frame), tail)
  {
    CutOfFrame(Canonical, frame, tail);
    hide CutFrame, GotResponse;
    AfterAfter([], [], Run(c, GotResponse(c.codec, i, peers, frame), tail));
  }

  lemma StreamTail(codec: Codec, frames: seq<ByteString>)
    requires IsCompleteStream(codec, frames) && |frames| > 1
    ensures IsCompleteStream(codec, frames[1..])
  {
    hide Gift, Finishes;
    assert forall k :: 0 <= k < |frames| - 1 ==> frames[1..][k] == frames[k + 1];
  }

  lemma StreamCons(codec: Codec, frame: ByteString, others: seq<ByteString>)
    requires IsCompleteStream(codec, others) && Gift(codec, frame).Some? && !Finishes(codec, frame)
    ensures IsCompleteStream(codec, [frame] + others)
    ensures PeersIn(codec, [frame] + others) == Gift(codec, frame).value + PeersIn(codec, others)
  {
    hide Gift, Finishes;
    var frames := [frame] + others;
    assert frames[1..] == others;
    assert forall k :: 0 < k < |frames| ==> frames[k] == others[k - 1];
  }

  /** A complete stream that is short enough is collected, and nothing after it is read. */
  lemma {:induction false} CompleteStreamIsCollected(c: Call, i: nat, peers: seq<PeerInfo>,
                                                     frames: seq<ByteString>, rest: ByteString)
    requires AreFrames(Canonical, frames) && IsCompleteStream(c.codec, frames)
    requires i + |frames| <= MAX_RESPONSES
    ensures Run(c, ReadingResponse(i, peers), Concat(frames) + rest)
         == Outcome(Ok(peers + PeersIn(c.codec, frames)), [], rest)
    decreases |frames|
  {
    hide Run, IsFrame, Gift, Finishes, GotResponse;
    var frame, tail := frames[0], Concat(frames[1..]) + rest;
    assert Concat(frames) + rest == frame + tail;
    RunStep(c, i, peers, frame, tail);
    ReactionToGift(c.codec, i, peers, frame);
    var more := Gift(c.codec, frame).value;
    if |frames| == 1 {
      assert frames[1..] == [] && tail == rest;
      assert PeersIn(c.codec, frames) == more + [] == more;
      RunDone(c, Done(Ok(peers + more)), rest);
    } else {
      StreamTail(c.codec, frames);
      CompleteStreamIsCollected(c, i + 1, peers + more, frames[1..], rest);
      assert peers + more + PeersIn(c.codec, frames[1..]) == peers + (more + PeersIn(c.codec, frames[1..]));
    }
  }

  /**
    What reading from response i on has come to: the frames read, at most so many that all responses
    are no more than 100000, and what lies behind them, which the program leaves unread unless it ran
    into the end of the stream there.
   */
  ghost predicate Explains(codec: Codec, i: nat, peers: seq<PeerInfo>, input: ByteString,
                           frames: seq<ByteString>, tail: ByteString, o: Outcome<seq<PeerInfo>>) {
    && i + |frames| <= MAX_RESPONSES
    && AreFrames(Canonical, frames)
    && Concat(frames) + tail == input
    && (if o.result == Err(ReceiveFailed) then
          i + |frames| < MAX_RESPONSES && CutFrame(Canonical, tail).None? && o.rest == []
        else o.rest == tail)
    && (o.result == Err(TooManyResponses) ==> i + |frames| == MAX_RESPONSES)
    && (o.result.Ok? ==> IsCompleteStream(codec, frames))
    && (o.result.Ok? ==> o.result.value == peers + PeersIn(codec, frames))
  }

  lemma ExplainsCons(codec: Codec, i: nat, peers: seq<PeerInfo>, frame: ByteString, input: ByteString,
                     others: seq<ByteString>, tail: ByteString, o: Outcome<seq<PeerInfo>>)
    requires IsFrame(Canonical, frame) && Gift(codec, frame).Some? && !Finishes(codec, frame)
    requires Explains(codec, i + 1, peers + Gift(codec, frame).value, input, others, tail, o)
    ensures Explains(codec, i, peers, frame + input, [frame] + others, tail, o)
  {
    hide IsFrame, Gift, Finishes, CutFrame;
    var frames := [frame] + others;
    assert frames[1..] == others;
    assert Concat(frames) + tail == frame + (Concat(others) + tail);
    if o.result.Ok? {
      StreamCons(codec, frame, others);
      var more := Gift(codec, frame).value;
      assert peers + more + PeersIn(codec, others) == peers + (more + PeersIn(codec, others));
    }
  }

  lemma ExplainsLast(codec: Codec, i: nat, peers: seq<PeerInfo>, frame: ByteString, rest: ByteString)
    requires IsFrame(Canonical, frame) && i < MAX_RESPONSES
    requires GotResponse(codec, i, peers, frame).Done?
    ensures Explains(codec, i, peers, frame + rest, [frame], rest,
                     Outcome(GotResponse(codec, i, peers, frame).result, [], rest))
  {
    hide IsFrame, GotResponse, Gift, Finishes, CutFrame;
    ReactionToGift(codec, i, peers, frame);
    var frames := [frame];
    assert frames[1..] == [];
    assert Concat(frames) == frame;
    if Gift(codec, frame).Some? {
      var more := Gift(codec, frame).value;
      assert PeersIn(codec, frames) == more + [] == more;
    }
  }

  /**
    Conversely, on any input at all, at most 100000 frames are read off its beginning, and a call that
    succeeds has read a complete stream and returns its peers.
   */
  lemma {:induction false} CollectedIsCompleteStream(c: Call, i: nat, peers: seq<PeerInfo>, input: ByteString)
    returns (frames: seq<ByteString>, tail: ByteString)
    requires i < MAX_RESPONSES
    ensures Explains(c.codec, i, peers, input, frames, tail, Run(c, ReadingResponse(i, peers), input))
    decreases |input|
  {
    hide GotResponse, Gift, Finishes;
    if CutFrame(Canonical, input).None? {
      frames, tail := [], input;
    } else {
      var cut := CutFrame(Canonical, input).value;
      hide Run, CutFrame, Explains;
      var next := GotResponse(c.codec, i, peers, cut.frame);
      RunStep(c, i, peers, cut.frame, cut.rest);
      ReactionToGift(c.codec, i, peers, cut.frame);
      if next.ReadingResponse? {
        frames, tail := CollectedIsCompleteStream(c, next.i, next.peers, cut.rest);
        ExplainsCons(c.codec, i, peers, cut.frame, cut.rest, frames, tail, Run(c, next, cut.rest));
        frames := [cut.frame] + frames;
      } else {
        ExplainsLast(c.codec, i, peers, cut.frame, cut.rest);
        RunDone(c, next, cut.rest);
        frames, tail := [cut.frame], cut.rest;
      }
    }
  }
}
