/**
  get_peers end to end: `GetPeers` against `ServeGetPeers` over a two-way pipe of any capacity, the
  unbuffered rendezvous included, under every interleaving and every chunking of reads.
 */
module GetPeersProtocol {
  import opened Bytes
  import opened Frames
  import opened Reactions
  import opened RpcMessages
  import opened Pipe
  import C = GetPeersClient
  import S = GetPeersServer

  datatype System = System(call: C.Call, service: S.Service, capacity: Capacity)

  /**
    `up` carries bytes to the responder, `down` to the caller. The counters are history: frames read
    by either side, and frames the responder has started to write.
   */
  datatype State = State(client: C.Pc, server: S.Pc, up: Flow, down: Flow,
                         clientRead: nat, serverRead: nat, serverSent: nat)

  function Init(sys: System): State {
    var first := C.Began(sys.call);
    State(first.pc, S.ReadingNegotiation, Flow(first.out, [], []), IDLE, 0, 0, 0)
  }

  datatype Step = Up(m: Move) | Down(m: Move) | ClientWrote | ClientGot | ServerWrote | ServerGot

  /** How many bytes a side waits for; none unless it is reading. */
  function ClientWants(s: State): nat {
    if s.client.IsReading() then Missing(s.client.Mode(), s.down.acc) else 0
  }

  function ServerWants(s: State): nat {
    if s.server.IsReading() then Missing(s.server.Mode(), s.up.acc) else 0
  }

  predicate Enabled(sys: System, s: State, step: Step) {
    match step
    case Up(m) => CanMove(sys.capacity, ServerWants(s), s.up, m)
    case Down(m) => CanMove(sys.capacity, ClientWants(s), s.down, m)
    case ClientWrote => s.client.IsWriting() && s.up.pending == []
    case ClientGot => s.client.IsReading() && ClientWants(s) == 0
    case ServerWrote => s.server.IsWriting() && s.down.pending == []
    case ServerGot => s.server.IsReading() && ServerWants(s) == 0
  }

  function Next(sys: System, s: State, step: Step): State
    requires Enabled(sys, s, step)
  {
    match step
    case Up(m) => s.(up := Moved(s.up, m))
    case Down(m) => s.(down := Moved(s.down, m))
    case ClientWrote => s.(client := C.Wrote(s.client))
    case ClientGot =>
      var r := C.Got(sys.call, s.client, s.down.acc);
      s.(client := r.pc, up := s.up.(pending := s.up.pending + r.out), down := s.down.(acc := []),
         clientRead := s.clientRead + 1)
    case ServerWrote =>
      var r := S.Wrote(sys.service, s.server);
      s.(server := r.pc, down := s.down.(pending := r.out),
         serverSent := s.serverSent + (if r.out == [] then 0 else 1))
    case ServerGot =>
      var r := S.Got(sys.service, s.server, s.up.acc);
      s.(server := r.pc, up := s.up.(acc := []), down := s.down.(pending := s.down.pending + r.out),
         serverRead := s.serverRead + 1, serverSent := s.serverSent + (if r.out == [] then 0 else 1))
  }

  /** A finite run: the states from the start, and the step taken from each to the next. */
  ghost predicate IsRun(sys: System, states: seq<State>, steps: seq<Step>) {
    && |states| == |steps| + 1
    && states[0] == Init(sys)
    && forall i :: 0 <= i < |steps| ==>
         Enabled(sys, states[i], steps[i]) && states[i + 1] == Next(sys, states[i], steps[i])
  }

  ghost predicate Stuck(sys: System, s: State) {
    forall step :: !Enabled(sys, s, step)
  }

  // ---- The conversation ---------------------------------------------------------------------

  /** Whether the responder supports the protocol asked for. */
  function Agreed(sys: System): bool {
    sys.call.protocolId in sys.service.supported
  }

  function Bounded(sys: System): seq<Option<PeerInfo>> {
    S.BoundPeers(sys.service.peers, sys.call.request)
  }

  /** The peers that are not nil, as they arrive. */
  function Delivered(peers: seq<Option<PeerInfo>>): seq<PeerInfo> {
    if peers == [] then []
    else
      var last := peers[|peers| - 1];
      Delivered(peers[..|peers| - 1]) + (if last.Some? then [OnWire(last.value)] else [])
  }

  function ResponseCount(sys: System): (n: nat)
    ensures n >= 1
  {
    if Bounded(sys) == [] then 1 else |Bounded(sys)|
  }

  function UpFrame(sys: System, k: nat): ByteString {
    if k == 0 then [|sys.call.protocolId| % 256, FLAG_NONE] + sys.call.protocolId
    else if k == 1 then C.SessionFrame(sys.call)
    else C.RequestFrame(sys.call)
  }

  function UpCount(sys: System): nat { if Agreed(sys) then 3 else 1 }

  function DownFrame(sys: System, k: nat): ByteString {
    if k == 0 then (if Agreed(sys) then UpFrame(sys, 0) else [0, FLAG_NOT_SUPPORTED])
    else if k == 1 then S.AcceptanceFrame(sys.service)
    else S.ResponseFrame(sys.call.codec, DEFAULT_REQUEST_ID, Bounded(sys), k - 2)
  }

  function DownCount(sys: System): nat { if Agreed(sys) then 2 + ResponseCount(sys) else 1 }

  function KindOf(k: nat): Kind { if k == 0 then Negotiation else Canonical }

  /** One codec on both sides, a protocol id that fits its frame, and no message of 2^32 bytes or more. */
  ghost predicate WellFormed(sys: System) {
    && Faithful(sys.call.codec)
    && sys.service.codec == sys.call.codec
    && |sys.call.protocolId| <= MAX_PROTOCOL_ID_LEN
    && (forall k :: 0 < k < UpCount(sys) ==> |UpFrame(sys, k)| < LIMIT32 + 4)
    && (forall k :: 0 < k < DownCount(sys) ==> |DownFrame(sys, k)| < LIMIT32 + 4)
  }

  /** The frames numbered from `from` up to, but not including, `end`. */
  function UpBytes(sys: System, from: nat, end: nat): ByteString
    decreases end - from
  {
    if from >= end then [] else UpFrame(sys, from) + UpBytes(sys, from + 1, end)
  }

  function DownBytes(sys: System, from: nat, end: nat): ByteString
    decreases end - from
  {
    if from >= end then [] else DownFrame(sys, from) + DownBytes(sys, from + 1, end)
  }

  // ---- What either side is doing when it has read so many frames ----------------------------

  function ReceivedSoFar(sys: System, i: nat): seq<PeerInfo> {
    Delivered(Bounded(sys)[..if i <= |Bounded(sys)| then i else |Bounded(sys)|])
  }

  ghost predicate ClientAt(sys: System, pc: C.Pc, u: nat) {
    match pc
    case WritingId => u == 0
    case ReadingId => u == 0
    case WritingSession => u == 1 && Agreed(sys)
    case ReadingReply => u == 1 && Agreed(sys)
    case WritingRequest => u == 2 && Agreed(sys)
    case ReadingResponse(i, peers) =>
      && Agreed(sys) && u == 2 + i && i < MAX_RESPONSES && i < ResponseCount(sys)
      && peers == ReceivedSoFar(sys, i)
    case Done(result) => ClientDoneAt(sys, result, u)
  }

  ghost predicate ClientDoneAt(sys: System, result: Result<seq<PeerInfo>, RpcError>, u: nat) {
    if !Agreed(sys) then u == 1 && result == Err(NotSupported)
    else if ResponseCount(sys) <= MAX_RESPONSES then
      u == 2 + ResponseCount(sys) && result == Ok(Delivered(Bounded(sys)))
    else u == 2 + MAX_RESPONSES && result == Err(TooManyResponses)
  }

  /** Frames the caller has started to write by then. */
  function ClientSent(sys: System, u: nat): nat {
    if !Agreed(sys) then 1 else if u < 2 then u + 1 else 3
  }

  ghost predicate ServerAt(sys: System, pc: S.Pc, w: nat, v: nat) {
    match pc
    case ReadingNegotiation => w == 0 && v == 0
    case WritingVerdict(supported) => w == 1 && v == 1 && supported == Agreed(sys)
    case ReadingSession => w == 1 && v == 1 && Agreed(sys)
    case WritingAcceptance => w == 2 && v == 2 && Agreed(sys)
    case ReadingRequest => w == 2 && v == 2 && Agreed(sys)
    case WritingResponse(requestId, bounded, j) =>
      && Agreed(sys) && w == 3 && v == 3 + j && j < ResponseCount(sys)
      && requestId == DEFAULT_REQUEST_ID && bounded == Bounded(sys)
    case Done(result) =>
      if Agreed(sys) then w == 3 && v == DownCount(sys) && result == Ok(())
      else w == 1 && v == 1 && result == Err(NotSupported)
  }

  // ---- The reactions follow the conversation ------------------------------------------------

  function SessionPayload(sys: System): ByteString {
    sys.call.codec.putSession(RpcSession([SUPPORTED_RPC_VERSION]))
  }

  function AcceptancePayload(sys: System): ByteString {
    sys.service.codec.putReply(RpcSessionReply(AcceptedVersion(SUPPORTED_RPC_VERSION), 0))
  }

  function RequestPayload(sys: System): ByteString {
    var codec := sys.call.codec;
    codec.putRequest(RpcRequest(DEFAULT_REQUEST_ID, GET_PEERS_METHOD, 0, DEFAULT_DEADLINE,
                                codec.putGetPeers(sys.call.request)))
  }

  function Response(sys: System, j: nat): RpcResponse {
    var bounded := Bounded(sys);
    RpcResponse(DEFAULT_REQUEST_ID, 0, if j + 1 >= |bounded| then FIN else 0,
                if j < |bounded| then sys.call.codec.putPeer(bounded[j]) else [])
  }

  /** Every frame of the conversation is whole, of the kind its place calls for, and decodes to what was put in. */
  lemma UpFrameDecodes(sys: System, k: nat)
    requires WellFormed(sys) && k < UpCount(sys)
    ensures IsFrame(KindOf(k), UpFrame(sys, k))
    ensures k == 0 ==> DecodeNegotiation(UpFrame(sys, k)) == Ok(NegotiationFrame(FLAG_NONE, sys.call.protocolId))
    ensures k == 1 ==> DecodeCanonical(UpFrame(sys, k)) == Ok(SessionPayload(sys))
    ensures k == 2 ==> DecodeCanonical(UpFrame(sys, k)) == Ok(RequestPayload(sys))
  {
    hide *;
    var f := UpFrame(sys, k);
    UpFrameIs(sys, k);
    if k == 0 {
      NegotiationRoundTrip(FLAG_NONE, sys.call.protocolId);
    } else {
      CanonicalRoundTrip(if k == 1 then SessionPayload(sys) else RequestPayload(sys));
    }
  }

  lemma UpFrameIs(sys: System, k: nat)
    requires WellFormed(sys) && k < UpCount(sys)
    ensures k == 0 ==> Ok(UpFrame(sys, k)) == EncodeNegotiation(FLAG_NONE, sys.call.protocolId)
    ensures k < 3 && KindOf(k) == if k == 0 then Negotiation else Canonical
    ensures |sys.call.protocolId| <= MAX_PROTOCOL_ID_LEN
    ensures k == 1 ==> UpFrame(sys, k) == EncodeCanonical(SessionPayload(sys)) && |SessionPayload(sys)| < LIMIT32
    ensures k == 2 ==> UpFrame(sys, k) == EncodeCanonical(RequestPayload(sys)) && |RequestPayload(sys)| < LIMIT32
  {
    assert k > 0 ==> |UpFrame(sys, k)| < LIMIT32 + 4;
  }

  lemma DownFrameDecodes(sys: System, k: nat)
    requires WellFormed(sys) && k < DownCount(sys)
    ensures IsFrame(KindOf(k), DownFrame(sys, k))
    ensures k == 0 && Agreed(sys) ==>
              DecodeNegotiation(DownFrame(sys, k)) == Ok(NegotiationFrame(FLAG_NONE, sys.call.protocolId))
    ensures k == 0 && !Agreed(sys) ==>
              DecodeNegotiation(DownFrame(sys, k)) == Ok(NegotiationFrame(FLAG_NOT_SUPPORTED, []))
    ensures k == 1 ==> DecodeCanonical(DownFrame(sys, k)) == Ok(AcceptancePayload(sys))
    ensures k >= 2 ==> DecodeCanonical(DownFrame(sys, k)) == Ok(sys.call.codec.putResponse(Response(sys, k - 2)))
  {
    hide *;
    var f := DownFrame(sys, k);
    DownFrameIs(sys, k);
    if k == 0 {
      NegotiationRoundTrip(FLAG_NONE, sys.call.protocolId);
      NegotiationRoundTrip(FLAG_NOT_SUPPORTED, []);
    } else {
      CanonicalRoundTrip(if k == 1 then AcceptancePayload(sys) else sys.call.codec.putResponse(Response(sys, k - 2)));
    }
  }

  lemma DownFrameIs(sys: System, k: nat)
    requires WellFormed(sys) && k < DownCount(sys)
    ensures |sys.call.protocolId| <= MAX_PROTOCOL_ID_LEN && 0 <= MAX_PROTOCOL_ID_LEN
    ensures KindOf(k) == if k == 0 then Negotiation else Canonical
    ensures k == 0 && Agreed(sys) ==> Ok(DownFrame(sys, k)) == EncodeNegotiation(FLAG_NONE, sys.call.protocolId)
    ensures k == 0 && !Agreed(sys) ==> Ok(DownFrame(sys, k)) == EncodeNegotiation(FLAG_NOT_SUPPORTED, [])
    ensures k == 1 ==> DownFrame(sys, k) == EncodeCanonical(AcceptancePayload(sys)) && |AcceptancePayload(sys)| < LIMIT32
    ensures k >= 2 ==>
              var payload := sys.call.codec.putResponse(Response(sys, k - 2));
              DownFrame(sys, k) == EncodeCanonical(payload) && |payload| < LIMIT32
  {
    assert k > 0 ==> |DownFrame(sys, k)| < LIMIT32 + 4;
    assert [0, FLAG_NOT_SUPPORTED] == [0, FLAG_NOT_SUPPORTED] + [];
  }

  lemma DeliveredStep(peers: seq<Option<PeerInfo>>, i: nat)
    requires i < |peers|
    ensures Delivered(peers[..i + 1])
         == Delivered(peers[..i]) + (if peers[i].Some? then [OnWire(peers[i].value)] else [])
  {
    assert peers[..i + 1][..i] == peers[..i];
  }

  /** The caller, given the next frame of the conversation, moves to the next place and starts the next frame. */
  lemma ClientFollows(sys: System, pc: C.Pc, u: nat)
    requires WellFormed(sys) && pc.IsReading() && ClientAt(sys, pc, u) && u < DownCount(sys)
    ensures var r := C.Got(sys.call, pc, DownFrame(sys, u));
            && ClientAt(sys, r.pc, u + 1)
            && (r.pc.IsWriting() <==> ClientSent(sys, u) < ClientSent(sys, u + 1))
            && r.out == (if r.pc.IsWriting() then UpFrame(sys, ClientSent(sys, u)) else [])
  {
    hide C.GotId, C.GotReply, C.GotResponse, UpFrame, DownFrame, ReceivedSoFar, ResponseCount, Bounded, WellFormed;
    if u >= 2 {
      ResponseFollows(sys, u - 2);
    } else if u == 1 {
      ReplyReaction(sys);
    } else {
      NoneReceived(sys);
      IdReaction(sys);
    }
  }

  lemma NoneReceived(sys: System)
    ensures ReceivedSoFar(sys, 0) == []
    ensures DownCount(sys) >= 1
  {
  }

  lemma IdReaction(sys: System)
    requires WellFormed(sys)
    ensures C.GotId(sys.call, DownFrame(sys, 0))
         == if Agreed(sys) then Reaction(C.WritingSession, UpFrame(sys, 1)) else C.Fail(NotSupported)
  {
    DownFrameDecodes(sys, 0);
    hide DecodeNegotiation, DownFrame, IsFrame, Bounded;
  }

  lemma ReplyReaction(sys: System)
    requires WellFormed(sys) && Agreed(sys)
    ensures C.GotReply(sys.call, DownFrame(sys, 1)) == Reaction(C.WritingRequest, UpFrame(sys, 2))
    ensures ReceivedSoFar(sys, 0) == []
  {
    DownFrameDecodes(sys, 1);
    hide DecodeCanonical, DownFrame, IsFrame, EncodeCanonical;
    assert sys.call.codec.getReply(AcceptancePayload(sys)).Some?;
  }

  /** The peer that response i brings, if any. */
  function GiftOf(sys: System, i: nat): seq<PeerInfo> {
    var bounded := Bounded(sys);
    if i < |bounded| && bounded[i].Some? then [OnWire(bounded[i].value)] else []
  }

  lemma ResponseDecodes(sys: System, i: nat)
    requires WellFormed(sys) && Agreed(sys) && i < ResponseCount(sys)
    ensures C.Decoded(sys.call.codec, DownFrame(sys, 2 + i)) == Some(Response(sys, i))
  {
    DownFrameDecodes(sys, 2 + i);
    hide DecodeCanonical, DecodeNegotiation, EncodeCanonical, DownFrame, IsFrame, Response;
    assert sys.call.codec.getResponse(sys.call.codec.putResponse(Response(sys, i))) == Some(Response(sys, i));
  }

  lemma ResponseCarries(sys: System, i: nat)
    requires WellFormed(sys) && Agreed(sys) && i < ResponseCount(sys)
    ensures C.Gift(sys.call.codec, DownFrame(sys, 2 + i)) == Some(GiftOf(sys, i))
    ensures C.Finishes(sys.call.codec, DownFrame(sys, 2 + i)) <==> i + 1 == ResponseCount(sys)
  {
    hide C.Decoded, Bounded, DownFrame;
    ResponseDecodes(sys, i);
    var codec, bounded := sys.call.codec, Bounded(sys);
    if i < |bounded| && bounded[i].Some? {
      assert codec.getPeer(codec.putPeer(Some(bounded[i].value))) == Some(Some(OnWire(bounded[i].value)));
    }
  }

  lemma ReceivedStep(sys: System, i: nat)
    requires i < ResponseCount(sys)
    ensures ReceivedSoFar(sys, i + 1) == ReceivedSoFar(sys, i) + GiftOf(sys, i)
    ensures i + 1 == ResponseCount(sys) ==> ReceivedSoFar(sys, i + 1) == Delivered(Bounded(sys))
  {
    var bounded := Bounded(sys);
    hide Bounded, OnWire;
    if i < |bounded| {
      DeliveredStep(bounded, i);
    }
    assert bounded[..|bounded|] == bounded;
    assert Delivered(bounded) + [] == Delivered(bounded);
  }

  lemma ResponseFollows(sys: System, i: nat)
    requires WellFormed(sys) && Agreed(sys) && i < ResponseCount(sys) && i < MAX_RESPONSES
    ensures ClientAt(sys, C.GotResponse(sys.call.codec, i, ReceivedSoFar(sys, i), DownFrame(sys, 2 + i)), 3 + i)
    ensures !C.GotResponse(sys.call.codec, i, ReceivedSoFar(sys, i), DownFrame(sys, 2 + i)).IsWriting()
  {
    hide C.GotResponse, C.Gift, C.Finishes, DownFrame, ReceivedSoFar, GiftOf, Delivered, Bounded, ResponseCount;
    ResponseCarries(sys, i);
    ReceivedStep(sys, i);
    C.ReactionToGift(sys.call.codec, i, ReceivedSoFar(sys, i), DownFrame(sys, 2 + i));
  }

  /** The responder, given the next frame of the conversation, moves to the next place and starts its reply. */
  lemma ServerFollows(sys: System, pc: S.Pc, w: nat)
    requires WellFormed(sys) && pc.IsReading() && ServerAt(sys, pc, w, w) && w < UpCount(sys)
    ensures var r := S.Got(sys.service, pc, UpFrame(sys, w));
            && r.pc.IsWriting() && ServerAt(sys, r.pc, w + 1, w + 1)
            && r.out == DownFrame(sys, w)
  {
    hide S.GotNegotiation, S.GotSession, S.GotRequest, UpFrame, DownFrame, S.BoundPeers, WellFormed, ResponseCount;
    if w == 0 {
      VerdictReaction(sys);
    } else if w == 1 {
      SessionReaction(sys);
    } else {
      RequestReaction(sys);
    }
  }

  lemma SessionReaction(sys: System)
    requires WellFormed(sys) && Agreed(sys)
    ensures S.GotSession(sys.service, UpFrame(sys, 1)) == Reaction(S.WritingAcceptance, DownFrame(sys, 1))
  {
    UpFrameDecodes(sys, 1);
    hide DecodeCanonical, EncodeCanonical, UpFrame, IsFrame;
    assert sys.call.codec.getSession(SessionPayload(sys)).Some?;
  }

  lemma RequestReaction(sys: System)
    requires WellFormed(sys) && Agreed(sys)
    ensures S.GotRequest(sys.service, UpFrame(sys, 2))
         == Reaction(S.WritingResponse(DEFAULT_REQUEST_ID, Bounded(sys), 0), DownFrame(sys, 2))
  {
    UpFrameDecodes(sys, 2);
    hide DecodeCanonical, EncodeCanonical, UpFrame, IsFrame, S.BoundPeers, S.ParseGetPeers;
    RequestIsRead(sys);
  }

  lemma VerdictReaction(sys: System)
    requires WellFormed(sys)
    ensures S.GotNegotiation(sys.service, UpFrame(sys, 0)) == Reaction(S.WritingVerdict(Agreed(sys)), DownFrame(sys, 0))
  {
    UpFrameDecodes(sys, 0);
    FirstReply(sys);
    hide DecodeNegotiation, EncodeNegotiation, UpFrame, DownFrame, IsFrame;
  }

  lemma FirstReply(sys: System)
    requires |sys.call.protocolId| <= MAX_PROTOCOL_ID_LEN
    ensures Agreed(sys) ==> EncodeNegotiation(FLAG_NONE, sys.call.protocolId) == Ok(DownFrame(sys, 0))
    ensures !Agreed(sys) ==> EncodeNegotiation(FLAG_NOT_SUPPORTED, []) == Ok(DownFrame(sys, 0))
  {
    assert [0, FLAG_NOT_SUPPORTED] == [0, FLAG_NOT_SUPPORTED] + [];
  }

  lemma RequestIsRead(sys: System)
    requires WellFormed(sys)
    ensures sys.call.codec.getRequest(RequestPayload(sys)).Some?
    ensures var request := sys.call.codec.getRequest(RequestPayload(sys)).value;
            && request.requestId == DEFAULT_REQUEST_ID
            && S.ParseGetPeers(sys.call.codec, request.payload) == Some(sys.call.request)
  {
    var codec, request := sys.call.codec, sys.call.request;
    assert codec.getGetPeers(codec.putGetPeers(request)) == Some(request);
  }

  /** After a write the responder reads, ends, or goes on to the next response. */
  lemma ServerWritesOn(sys: System, pc: S.Pc, w: nat, v: nat)
    requires WellFormed(sys) && pc.IsWriting() && ServerAt(sys, pc, w, v)
    ensures var r := S.Wrote(sys.service, pc);
            if r.pc.IsWriting() then
              v < DownCount(sys) && r.out == DownFrame(sys, v) && ServerAt(sys, r.pc, w, v + 1)
            else
              r.out == [] && ServerAt(sys, r.pc, w, v)
  {
    hide S.ResponseFrame, S.BoundPeers;
    if pc.WritingResponse? {
      assert DownFrame(sys, v) == S.ResponseFrame(sys.call.codec, DEFAULT_REQUEST_ID, Bounded(sys), v - 2);
    }
  }

  // ---- The invariant ------------------------------------------------------------------------

  /** Both sides are at matching places of the conversation, and what is unread is exactly what was sent and not read. */
  ghost predicate Inv(sys: System, s: State) {
    var c := ClientSent(sys, s.clientRead);
    && ClientAt(sys, s.client, s.clientRead)
    && ServerAt(sys, s.server, s.serverRead, s.serverSent)
    && s.serverRead <= c <= UpCount(sys)
    && s.clientRead <= s.serverSent <= DownCount(sys)
    && Unread(s.up) == UpBytes(sys, s.serverRead, c)
    && Unread(s.down) == DownBytes(sys, s.clientRead, s.serverSent)
    && (s.up.pending != [] ==> s.client.IsWriting())
    && (s.down.pending != [] ==> s.server.IsWriting())
    && |s.up.acc| <= (if s.server.IsReading() && s.serverRead < c then |UpFrame(sys, s.serverRead)| else 0)
    && |s.down.acc| <= (if s.client.IsReading() && s.clientRead < s.serverSent then |DownFrame(sys, s.clientRead)| else 0)
  }

  lemma {:induction false} UpBytesEnd(sys: System, from: nat, end: nat)
    requires from <= end
    ensures UpBytes(sys, from, end + 1) == UpBytes(sys, from, end) + UpFrame(sys, end)
    decreases end - from
  {
    hide UpFrame, DownFrame;
    if from < end {
      UpBytesEnd(sys, from + 1, end);
    } else {
      assert UpBytes(sys, end + 1, end + 1) == [];
    }
  }

  lemma {:induction false} DownBytesEnd(sys: System, from: nat, end: nat)
    requires from <= end
    ensures DownBytes(sys, from, end + 1) == DownBytes(sys, from, end) + DownFrame(sys, end)
    decreases end - from
  {
    hide UpFrame, DownFrame;
    if from < end {
      DownBytesEnd(sys, from + 1, end);
    } else {
      assert DownBytes(sys, end + 1, end + 1) == [];
    }
  }

  lemma InitInv(sys: System)
    requires WellFormed(sys)
    ensures Inv(sys, Init(sys))
  {
    assert UpBytes(sys, 0, 1) == UpFrame(sys, 0) + UpBytes(sys, 1, 1) == UpFrame(sys, 0);
  }

  /** A reading side has part of the next frame; it wants no more than the rest of that frame, and nothing only when it has it all. */
  lemma ServerReadsFrame(sys: System, s: State)
    requires WellFormed(sys) && Inv(sys, s) && s.server.IsReading()
    ensures s.serverRead < ClientSent(sys, s.clientRead) ==>
              && IsFrame(s.server.Mode(), UpFrame(sys, s.serverRead))
              && UpFrame(sys, s.serverRead) <= Unread(s.up)
              && s.up.acc <= UpFrame(sys, s.serverRead)
              && |s.up.acc| + ServerWants(s) <= |UpFrame(sys, s.serverRead)|
              && (ServerWants(s) == 0 <==> s.up.acc == UpFrame(sys, s.serverRead))
    ensures s.serverRead == ClientSent(sys, s.clientRead) ==> s.up == IDLE && ServerWants(s) > 0
  {
    var w := s.serverRead;
    hide UpFrame, DownFrame, DownBytes, IsFrame, Missing;
    if w < ClientSent(sys, s.clientRead) {
      var f := UpFrame(sys, w);
      UpFrameDecodes(sys, w);
      assert s.server.Mode() == KindOf(w);
      assert UpBytes(sys, w, ClientSent(sys, s.clientRead)) == f + UpBytes(sys, w + 1, ClientSent(sys, s.clientRead));
      assert s.up.acc == Unread(s.up)[..|s.up.acc|] == f[..|s.up.acc|];
      MissingOfPrefix(KindOf(w), f, |s.up.acc|);
    } else {
      assert Unread(s.up) == [];
      EmptyHeader(s.server.Mode());
    }
  }

  lemma ClientReadsFrame(sys: System, s: State)
    requires WellFormed(sys) && Inv(sys, s) && s.client.IsReading()
    ensures s.clientRead < s.serverSent ==>
              && IsFrame(s.client.Mode(), DownFrame(sys, s.clientRead))
              && DownFrame(sys, s.clientRead) <= Unread(s.down)
              && s.down.acc <= DownFrame(sys, s.clientRead)
              && |s.down.acc| + ClientWants(s) <= |DownFrame(sys, s.clientRead)|
              && (ClientWants(s) == 0 <==> s.down.acc == DownFrame(sys, s.clientRead))
    ensures s.clientRead == s.serverSent ==> s.down == IDLE && ClientWants(s) > 0
  {
    var u := s.clientRead;
    hide UpFrame, DownFrame, UpBytes, IsFrame, Missing;
    if u < s.serverSent {
      var f := DownFrame(sys, u);
      DownFrameDecodes(sys, u);
      assert s.client.Mode() == KindOf(u);
      assert DownBytes(sys, u, s.serverSent) == f + DownBytes(sys, u + 1, s.serverSent);
      assert s.down.acc == Unread(s.down)[..|s.down.acc|] == f[..|s.down.acc|];
      MissingOfPrefix(KindOf(u), f, |s.down.acc|);
    } else {
      assert Unread(s.down) == [];
      EmptyHeader(s.client.Mode());
    }
  }

  lemma EmptyHeader(kind: Kind)
    ensures Missing(kind, []) > 0
  {
  }

  // ---- Every step keeps the invariant -------------------------------------------------------

  lemma TransferKeepsInv(sys: System, s: State, step: Step)
    requires WellFormed(sys) && Inv(sys, s) && Enabled(sys, s, step) && (step.Up? || step.Down?)
    ensures Inv(sys, Next(sys, s, step))
  {
    hide UpFrame, DownFrame, UpBytes, DownBytes, IsFrame, Missing, ClientAt, ServerAt;
    if step.Up? {
      hide CanMove, Moved, Unread, Weight;
      MoveKeepsBytes(sys.capacity, ServerWants(s), s.up, step.m);
      if s.server.IsReading() {
        ServerReadsFrame(sys, s);
      }
    } else {
      hide CanMove, Moved, Unread, Weight;
      MoveKeepsBytes(sys.capacity, ClientWants(s), s.down, step.m);
      if s.client.IsReading() {
        ClientReadsFrame(sys, s);
      }
    }
  }

  /** Reading a whole frame takes it off the unread bytes. */
  lemma AfterReading(f: Flow, frame: ByteString, rest: ByteString)
    requires f.acc == frame && Unread(f) == frame + rest
    ensures Unread(f.(acc := [])) == rest
  {
    assert Unread(f) == frame + Unread(f.(acc := []));
    assert Unread(f)[|frame|..] == rest;
  }

  /** Starting to write a frame adds it to the unread bytes. */
  lemma AfterIssuing(f: Flow, frame: ByteString)
    requires f.pending == []
    ensures Unread(f.(pending := frame)) == Unread(f) + frame
    ensures Weight(f.(pending := frame)) == Weight(f) + 3 * |frame|
  {
  }

  lemma ClientGotKeepsInv(sys: System, s: State)
    requires WellFormed(sys) && Inv(sys, s) && Enabled(sys, s, ClientGot)
    ensures Inv(sys, Next(sys, s, ClientGot))
    ensures s.down.acc == DownFrame(sys, s.clientRead) && s.clientRead < s.serverSent
    ensures s.up.pending == [] && s.server == Next(sys, s, ClientGot).server
  {
    hide UpFrame, DownFrame, IsFrame, Missing, ServerAt, ClientAt, C.Got, UpBytes, DownBytes, UpCount, DownCount, ClientSent, Unread;
    var u, c := s.clientRead, ClientSent(sys, s.clientRead);
    ClientReadsFrame(sys, s);
    ClientFollows(sys, s.client, u);
    ClientSentStep(sys, u);
    DownBytesStart(sys, u, s.serverSent);
    AfterReading(s.down, DownFrame(sys, u), DownBytes(sys, u + 1, s.serverSent));
    var r := C.Got(sys.call, s.client, s.down.acc);
    assert s.up.pending == [];
    assert s.up.pending + r.out == r.out;
    if r.pc.IsWriting() {
      UpBytesEnd(sys, s.serverRead, c);
      AfterIssuing(s.up, UpFrame(sys, c));
    } else {
      assert s.up.(pending := []) == s.up;
    }
  }

  lemma ServerGotKeepsInv(sys: System, s: State)
    requires WellFormed(sys) && Inv(sys, s) && Enabled(sys, s, ServerGot)
    ensures Inv(sys, Next(sys, s, ServerGot))
    ensures s.up.acc == UpFrame(sys, s.serverRead) && s.serverRead < ClientSent(sys, s.clientRead)
    ensures s.down.pending == [] && Next(sys, s, ServerGot).down.pending == DownFrame(sys, s.serverSent)
    ensures s.serverSent < DownCount(sys) && Next(sys, s, ServerGot).serverSent == s.serverSent + 1
  {
    hide UpFrame, DownFrame, IsFrame, Missing, ClientAt, ServerAt, S.Got, UpBytes, DownBytes, UpCount, DownCount, Unread, Agreed;
    var w, c := s.serverRead, ClientSent(sys, s.clientRead);
    ServerReadsFrame(sys, s);
    ServerReadingAt(sys, s);
    ServerFollows(sys, s.server, w);
    DownFrameDecodes(sys, w);
    FrameNotEmpty(KindOf(w), DownFrame(sys, w));
    UpBytesStart(sys, w, c);
    AfterReading(s.up, UpFrame(sys, w), UpBytes(sys, w + 1, c));
    DownBytesEnd(sys, s.clientRead, w);
    AfterIssuing(s.down, DownFrame(sys, w));
    assert s.down.pending + DownFrame(sys, w) == DownFrame(sys, w);
  }

  /** While it reads, the responder has answered as many frames as it has read, and more can follow. */
  lemma ServerReadingAt(sys: System, s: State)
    requires Inv(sys, s) && s.server.IsReading()
    ensures s.serverSent == s.serverRead && s.down.pending == []
    ensures s.serverRead < UpCount(sys) && s.serverSent < DownCount(sys)
    ensures ServerAt(sys, s.server, s.serverRead, s.serverRead)
    ensures !s.server.WritingResponse? && !s.server.IsWriting()
  {
    hide UpFrame, DownFrame, UpBytes, DownBytes, ClientAt, Bounded, Unread, ClientSent;
  }

  lemma FrameNotEmpty(kind: Kind, f: ByteString)
    requires IsFrame(kind, f)
    ensures |f| >= 2
  {
  }

  lemma ServerWroteKeepsInv(sys: System, s: State)
    requires WellFormed(sys) && Inv(sys, s) && Enabled(sys, s, ServerWrote)
    ensures Inv(sys, Next(sys, s, ServerWrote))
  {
    hide UpFrame, DownFrame, IsFrame, Missing, ClientAt, ServerAt, S.Wrote, UpBytes, DownBytes, UpCount, DownCount, Agreed;
    ServerWroteIssues(sys, s);
    var v := s.serverSent;
    ServerWritesOn(sys, s.server, s.serverRead, v);
    if Next(sys, s, ServerWrote).server.IsWriting() {
      DownBytesEnd(sys, s.clientRead, v);
      AfterIssuing(s.down, DownFrame(sys, v));
    }
    hide Unread;
  }

  lemma ServerWroteIssues(sys: System, s: State)
    requires WellFormed(sys) && Inv(sys, s) && Enabled(sys, s, ServerWrote)
    ensures var s', v := Next(sys, s, ServerWrote), s.serverSent;
            if s'.server.IsWriting() then
              && v < DownCount(sys) && |DownFrame(sys, v)| >= 2
              && s' == s.(server := s'.server, serverSent := v + 1, down := s.down.(pending := DownFrame(sys, v)))
            else s' == s.(server := s'.server)
  {
    hide UpFrame, DownFrame, IsFrame, Missing, ClientAt, ServerAt, S.Wrote, UpBytes, DownBytes, UpCount, DownCount, Agreed;
    var v := s.serverSent;
    ServerWritesOn(sys, s.server, s.serverRead, v);
    if S.Wrote(sys.service, s.server).pc.IsWriting() {
      DownFrameDecodes(sys, v);
      FrameNotEmpty(KindOf(v), DownFrame(sys, v));
    }
  }

  lemma ClientWroteKeepsInv(sys: System, s: State)
    requires Inv(sys, s) && Enabled(sys, s, ClientWrote)
    ensures Inv(sys, Next(sys, s, ClientWrote))
  {
    hide UpFrame, DownFrame, UpBytes, DownBytes, ServerAt;
  }

  lemma StepKeepsInv(sys: System, s: State, step: Step)
    requires WellFormed(sys) && Inv(sys, s) && Enabled(sys, s, step)
    ensures Inv(sys, Next(sys, s, step))
  {
    hide *;
    match step
    case Up(m) => TransferKeepsInv(sys, s, step);
    case Down(m) => TransferKeepsInv(sys, s, step);
    case ClientWrote => ClientWroteKeepsInv(sys, s);
    case ClientGot => ClientGotKeepsInv(sys, s);
    case ServerWrote => ServerWroteKeepsInv(sys, s);
    case ServerGot => ServerGotKeepsInv(sys, s);
  }

  // ---- Every step makes progress ------------------------------------------------------------

  /** Bytes still to be written, under way and read, and writes still to be noticed as finished. */
  ghost function Measure(sys: System, s: State): nat {
    4 * |UpBytes(sys, ClientSent(sys, s.clientRead), UpCount(sys))|
    + 4 * |DownBytes(sys, s.serverSent, DownCount(sys))|
    + Weight(s.up) + Weight(s.down)
    + (if s.client.IsWriting() then 1 else 0) + (if s.server.IsWriting() then 1 else 0)
  }

  lemma StepDecreasesMeasure(sys: System, s: State, step: Step)
    requires WellFormed(sys) && Inv(sys, s) && Enabled(sys, s, step)
    ensures Measure(sys, Next(sys, s, step)) < Measure(sys, s)
  {
    match step
    case Up(m) =>
      hide *;
      UpDecreases(sys, s, m);
    case Down(m) =>
      hide *;
      DownDecreases(sys, s, m);
    case ClientWrote =>
      hide UpFrame, DownFrame, UpBytes, DownBytes, ClientAt, ServerAt, Agreed, UpCount, DownCount;
    case ClientGot =>
      hide *;
      ClientGotDecreases(sys, s);
    case ServerWrote =>
      hide *;
      ServerWroteDecreases(sys, s);
    case ServerGot =>
      hide *;
      ServerGotDecreases(sys, s);
  }

  lemma UpDecreases(sys: System, s: State, m: Move)
    requires Enabled(sys, s, Up(m))
    ensures Measure(sys, Next(sys, s, Up(m))) < Measure(sys, s)
  {
    hide CanMove, Moved, Weight, UpFrame, DownFrame, UpBytes, DownBytes, Agreed, UpCount, DownCount;
    MoveKeepsBytes(sys.capacity, ServerWants(s), s.up, m);
  }

  lemma DownDecreases(sys: System, s: State, m: Move)
    requires Enabled(sys, s, Down(m))
    ensures Measure(sys, Next(sys, s, Down(m))) < Measure(sys, s)
  {
    hide CanMove, Moved, Weight, UpFrame, DownFrame, UpBytes, DownBytes, Agreed, UpCount, DownCount;
    MoveKeepsBytes(sys.capacity, ClientWants(s), s.down, m);
  }

  lemma ClientGotDecreases(sys: System, s: State)
    requires WellFormed(sys) && Inv(sys, s) && Enabled(sys, s, ClientGot)
    ensures Measure(sys, Next(sys, s, ClientGot)) < Measure(sys, s)
  {
    hide UpFrame, DownFrame, UpBytes, DownBytes, ClientAt, ServerAt, UpCount, DownCount, C.Got, IsFrame, Missing, Agreed, Unread;
    var u, c := s.clientRead, ClientSent(sys, s.clientRead);
    ClientGotKeepsInv(sys, s);
    DownFrameDecodes(sys, u);
    FrameNotEmpty(KindOf(u), DownFrame(sys, u));
    ClientFollows(sys, s.client, u);
    ClientSentStep(sys, u);
    if c < ClientSent(sys, u + 1) {
      UpBytesStart(sys, c, UpCount(sys));
    }
  }

  lemma ClientSentStep(sys: System, u: nat)
    ensures ClientSent(sys, u) <= ClientSent(sys, u + 1) <= ClientSent(sys, u) + 1
    ensures ClientSent(sys, u + 1) <= UpCount(sys)
  {
  }

  lemma ServerGotDecreases(sys: System, s: State)
    requires WellFormed(sys) && Inv(sys, s) && Enabled(sys, s, ServerGot)
    ensures Measure(sys, Next(sys, s, ServerGot)) < Measure(sys, s)
  {
    hide UpFrame, DownFrame, UpBytes, DownBytes, ClientAt, ServerAt, UpCount, DownCount, S.Got, IsFrame, Missing, Agreed, Unread;
    ServerGotKeepsInv(sys, s);
    UpFrameDecodes(sys, s.serverRead);
    FrameNotEmpty(KindOf(s.serverRead), UpFrame(sys, s.serverRead));
    DownBytesStart(sys, s.serverSent, DownCount(sys));
  }

  lemma ServerWroteDecreases(sys: System, s: State)
    requires WellFormed(sys) && Inv(sys, s) && Enabled(sys, s, ServerWrote)
    ensures Measure(sys, Next(sys, s, ServerWrote)) < Measure(sys, s)
  {
    hide UpFrame, DownFrame, UpBytes, DownBytes, ClientAt, ServerAt, UpCount, DownCount, S.Wrote, IsFrame, Missing, Agreed, Unread, Weight;
    ServerWroteIssues(sys, s);
    if Next(sys, s, ServerWrote).server.IsWriting() {
      DownBytesStart(sys, s.serverSent, DownCount(sys));
      AfterIssuing(s.down, DownFrame(sys, s.serverSent));
    }
  }

  lemma DownBytesStart(sys: System, from: nat, end: nat)
    requires from < end
    ensures DownBytes(sys, from, end) == DownFrame(sys, from) + DownBytes(sys, from + 1, end)
  {
    hide DownFrame;
  }

  lemma UpBytesStart(sys: System, from: nat, end: nat)
    requires from < end
    ensures UpBytes(sys, from, end) == UpFrame(sys, from) + UpBytes(sys, from + 1, end)
  {
    hide UpFrame;
  }

  // ---- No state is stuck before the end -----------------------------------------------------

  predicate Ended(s: State) {
    s.client.Done? && s.server.Done?
  }

  /** With at most 100000 responses to send, as long as one side has not returned some step can be taken. */
  lemma NoDeadlock(sys: System, s: State) returns (step: Step)
    requires WellFormed(sys) && Inv(sys, s) && !Ended(s)
    requires Agreed(sys) ==> ResponseCount(sys) <= MAX_RESPONSES
    ensures Enabled(sys, s, step)
  {
    if s.client.IsWriting() {
      step := ClientWritingMoves(sys, s);
    } else if s.client.IsReading() {
      step := ClientReadingMoves(sys, s);
    } else {
      step := ServerFinishes(sys, s);
    }
  }

  lemma ClientWritingMoves(sys: System, s: State) returns (step: Step)
    requires WellFormed(sys) && Inv(sys, s) && s.client.IsWriting()
    ensures Enabled(sys, s, step)
  {
    if s.up.pending == [] {
      return ClientWrote;
    }
    ResponderIsBehind(sys, s);
    hide WellFormed, Inv, ClientSent;
    if s.server.IsReading() {
      step := ServerReadingMoves(sys, s);
    } else {
      step := ServerWrote;
    }
  }

  /** While a frame of the caller's is being written the responder has it to read, or has just finished a write. */
  lemma ResponderIsBehind(sys: System, s: State)
    requires Inv(sys, s) && s.client.IsWriting() && s.up.pending != []
    ensures s.server.IsReading() ==> s.serverRead < ClientSent(sys, s.clientRead)
    ensures !s.server.IsReading() ==> s.server.IsWriting() && s.down.pending == []
  {
    var w, u := s.serverRead, s.clientRead;
    assert UpBytes(sys, w, w) == [];
    assert w <= u <= s.serverSent;
    hide UpFrame, DownFrame, UpBytes;
    if !s.server.IsReading() {
      // the responder has answered no more than the caller has read
      assert s.serverSent == u;
      assert Unread(s.down) == [];
    }
  }

  lemma ServerReadingMoves(sys: System, s: State) returns (step: Step)
    requires WellFormed(sys) && Inv(sys, s) && s.server.IsReading()
    requires s.serverRead < ClientSent(sys, s.clientRead)
    ensures Enabled(sys, s, step)
  {
    hide WellFormed, Inv, UpFrame, IsFrame, Missing, ClientSent, CanMove, Unread;
    ServerReadsFrame(sys, s);
    if ServerWants(s) == 0 {
      step := ServerGot;
    } else {
      MoreIsComing(s.up, UpFrame(sys, s.serverRead));
      var m := SomeMove(sys.capacity, ServerWants(s), s.up);
      step := Up(m);
    }
  }

  /** Of a frame that has been sent and not been read whole, bytes are still on their way. */
  lemma MoreIsComing(f: Flow, frame: ByteString)
    requires frame <= Unread(f) && f.acc <= frame && f.acc != frame
    ensures f.channel + f.pending != []
  {
    assert |f.acc| < |frame|;
  }

  lemma ClientReadingMoves(sys: System, s: State) returns (step: Step)
    requires WellFormed(sys) && Inv(sys, s) && s.client.IsReading()
    ensures Enabled(sys, s, step)
  {
    hide UpFrame, DownFrame, UpBytes, DownBytes, IsFrame, Missing;
    ClientReadsFrame(sys, s);
    if ClientWants(s) == 0 {
      step := ClientGot;
    } else if s.clientRead < s.serverSent {
      MoreIsComing(s.down, DownFrame(sys, s.clientRead));
      var m := SomeMove(sys.capacity, ClientWants(s), s.down);
      step := Down(m);
    } else {
      // nothing is on its way: the responder owes the next frame
      ResponderOwes(sys, s);
      if s.server.IsReading() {
        step := ServerReadingMoves(sys, s);
      } else {
        step := ServerWrote;
      }
    }
  }

  lemma ResponderOwes(sys: System, s: State)
    requires WellFormed(sys) && Inv(sys, s) && s.client.IsReading() && s.clientRead == s.serverSent
    ensures s.server.IsReading() ==> s.serverRead < ClientSent(sys, s.clientRead)
    ensures s.server.IsReading() || s.server.IsWriting()
  {
    hide UpFrame, DownFrame, UpBytes, DownBytes, Unread;
  }

  lemma ServerFinishes(sys: System, s: State) returns (step: Step)
    requires WellFormed(sys) && Inv(sys, s) && s.client.Done? && !s.server.Done?
    requires Agreed(sys) ==> ResponseCount(sys) <= MAX_RESPONSES
    ensures Enabled(sys, s, step)
  {
    // everything was read, so the last write is over
    assert s.serverSent == s.clientRead == DownCount(sys);
    assert DownBytes(sys, s.clientRead, s.serverSent) == [];
    assert Unread(s.down) == [];
    step := ServerWrote;
  }

  // ---- The theorems about whole runs --------------------------------------------------------

  /** Every state of every run satisfies the invariant. */
  lemma {:induction false} RunKeepsInv(sys: System, states: seq<State>, steps: seq<Step>, i: nat)
    requires WellFormed(sys) && IsRun(sys, states, steps) && i < |states|
    ensures Inv(sys, states[i])
  {
    hide Inv, WellFormed, Next, Enabled, Init;
    if i == 0 {
      InitInv(sys);
    } else {
      RunKeepsInv(sys, states, steps, i - 1);
      StepKeepsInv(sys, states[i - 1], steps[i - 1]);
    }
  }

  /** No run is longer than the measure of the start, so every run can be prolonged only so often. */
  lemma {:induction false} RunsAreBounded(sys: System, states: seq<State>, steps: seq<Step>, i: nat)
    requires WellFormed(sys) && IsRun(sys, states, steps) && i < |states|
    ensures Measure(sys, states[i]) + i <= Measure(sys, Init(sys))
  {
    hide Inv, WellFormed, Next, Enabled, Init, Measure;
    if i > 0 {
      RunsAreBounded(sys, states, steps, i - 1);
      RunKeepsInv(sys, states, steps, i - 1);
      StepDecreasesMeasure(sys, states[i - 1], steps[i - 1]);
    }
  }

  /**
    In every reachable state a side that is reading is in the mode of the next frame addressed to
    it, which is the next one of the conversation.
   */
  lemma ModesMatchFrames(sys: System, states: seq<State>, steps: seq<Step>, i: nat)
    requires WellFormed(sys) && IsRun(sys, states, steps) && i < |states|
    ensures var s := states[i];
            && (s.client.IsReading() && Unread(s.down) != [] ==>
                  && IsFrame(s.client.Mode(), DownFrame(sys, s.clientRead))
                  && DownFrame(sys, s.clientRead) <= Unread(s.down))
            && (s.server.IsReading() && Unread(s.up) != [] ==>
                  && IsFrame(s.server.Mode(), UpFrame(sys, s.serverRead))
                  && UpFrame(sys, s.serverRead) <= Unread(s.up))
  {
    hide UpFrame, DownFrame, IsFrame, IsRun;
    RunKeepsInv(sys, states, steps, i);
    var s := states[i];
    if s.client.IsReading() {
      ClientReadsFrame(sys, s);
    }
    if s.server.IsReading() {
      ServerReadsFrame(sys, s);
    }
  }

  /**
    Counting also the sides that are not reading: as long as a side has not returned, its mode is
    the kind of the next unread frame, except for a responder whose verdict is still being written
    when the caller, who has it already, has gone on to its first canonical frame.
   */
  lemma ModesMatchExactly(sys: System, states: seq<State>, steps: seq<Step>, i: nat)
    requires WellFormed(sys) && IsRun(sys, states, steps) && i < |states|
    ensures var s := states[i];
            && (!s.client.Done? && Unread(s.down) != [] ==> s.client.Mode() == KindOf(s.clientRead))
            && (!s.server.Done? && Unread(s.up) != [] ==>
                  (s.server.Mode() == KindOf(s.serverRead) <==> !s.server.WritingVerdict?))
  {
    hide UpFrame, DownFrame, IsRun;
    RunKeepsInv(sys, states, steps, i);
  }

  /** A negotiation frame passes in two reads, header and protocol id. */
  lemma TwoReads(capacity: Capacity, id: ByteString)
    requires 0 < |id| <= MAX_PROTOCOL_ID_LEN
    ensures var frame: ByteString := [|id|, FLAG_NONE] + id;
            var f0, f1 := Flow(frame, [], []), Flow(id, [], [|id|, FLAG_NONE]);
            && Missing(Negotiation, []) == 2 && Missing(Negotiation, f1.acc) == |id| && Missing(Negotiation, frame) == 0
            && CanMove(capacity, 2, f0, Hand(2)) && Moved(f0, Hand(2)) == f1
            && CanMove(capacity, |id|, f1, Hand(|id|)) && Moved(f1, Hand(|id|)) == Flow([], [], frame)
  {
    var header: ByteString := [|id|, FLAG_NONE];
    var frame := header + id;
    assert frame[..2] == header && frame[2..] == id;
    assert [] + frame[..2] == header && id[..|id|] == id;
  }

  /** Steps that take the protocol id to the responder. */
  lemma IdArrives(sys: System) returns (states: seq<State>)
    requires WellFormed(sys) && Agreed(sys) && sys.call.protocolId != []
    ensures |states| == 5 && states[0] == Init(sys)
    ensures var steps := [Up(Hand(2)), Up(Hand(|sys.call.protocolId|)), ClientWrote, ServerGot];
            forall i :: 0 <= i < 4 ==> Enabled(sys, states[i], steps[i]) && states[i + 1] == Next(sys, states[i], steps[i])
    ensures states[4] == State(C.ReadingId, S.WritingVerdict(true), IDLE, Flow(UpFrame(sys, 0), [], []), 0, 1, 1)
  {
    var id, frame := sys.call.protocolId, UpFrame(sys, 0);
    assert |id| <= MAX_PROTOCOL_ID_LEN && frame == [|id|, FLAG_NONE] + id;
    assert DownFrame(sys, 0) == frame && Ok(frame) == EncodeNegotiation(FLAG_NONE, id);
    hide WellFormed, UpFrame, DownFrame, CanMove, Moved, Missing, S.GotNegotiation, Agreed, EncodeNegotiation;
    TwoReads(sys.capacity, id);
    VerdictReaction(sys);
    var s0 := Init(sys);
    var s1 := s0.(up := Flow(id, [], [|id|, FLAG_NONE]));
    var s2 := s0.(up := Flow([], [], frame));
    var s3 := s2.(client := C.ReadingId);
    states := [s0, s1, s2, s3, Next(sys, s3, ServerGot)];
  }

  /** Steps that take the verdict to the caller, which goes on at once. */
  lemma VerdictArrives(sys: System, s: State) returns (states: seq<State>)
    requires WellFormed(sys) && Agreed(sys) && sys.call.protocolId != []
    requires s == State(C.ReadingId, S.WritingVerdict(true), IDLE, Flow(UpFrame(sys, 0), [], []), 0, 1, 1)
    ensures |states| == 4 && states[0] == s
    ensures var steps := [Down(Hand(2)), Down(Hand(|sys.call.protocolId|)), ClientGot];
            forall i :: 0 <= i < 3 ==> Enabled(sys, states[i], steps[i]) && states[i + 1] == Next(sys, states[i], steps[i])
    ensures states[3].server == s.server && states[3].serverRead == 1 && states[3].up.pending == UpFrame(sys, 1)
  {
    var id, frame := sys.call.protocolId, UpFrame(sys, 0);
    assert |id| <= MAX_PROTOCOL_ID_LEN && frame == [|id|, FLAG_NONE] + id;
    assert DownFrame(sys, 0) == frame;
    hide WellFormed, UpFrame, DownFrame, CanMove, Moved, Missing, C.GotId, Agreed;
    TwoReads(sys.capacity, id);
    IdReaction(sys);
    var s1 := s.(down := Flow(id, [], [|id|, FLAG_NONE]));
    var s2 := s.(down := Flow([], [], frame));
    states := [s, s1, s2, Next(sys, s2, ClientGot)];
  }

  /** The exception happens: seven steps lead to it over a pipe of any capacity. */
  lemma ModesCanDiffer(sys: System) returns (states: seq<State>, steps: seq<Step>)
    requires WellFormed(sys) && Agreed(sys) && sys.call.protocolId != []
    ensures IsRun(sys, states, steps) && |steps| == 7
    ensures var s := states[7];
            && Unread(s.up) != [] && !s.server.Done?
            && s.server.Mode() == Negotiation && KindOf(s.serverRead) == Canonical
  {
    UpFrameDecodes(sys, 1);
    FrameNotEmpty(Canonical, UpFrame(sys, 1));
    hide Init, Next, Enabled, WellFormed, UpFrame, DownFrame, Agreed;
    var first := IdArrives(sys);
    var second := VerdictArrives(sys, first[4]);
    var id := sys.call.protocolId;
    states := first + second[1..];
    steps := [Up(Hand(2)), Up(Hand(|id|)), ClientWrote, ServerGot, Down(Hand(2)), Down(Hand(|id|)), ClientGot];
    assert states[4] == second[0] && states[7] == second[3];
    assert Unread(states[7].up) != [];
  }

  /** Whatever has been returned at any point of any run: what either side returns is settled by the conversation alone. */
  lemma ResultsAreSettled(sys: System, states: seq<State>, steps: seq<Step>, i: nat)
    requires WellFormed(sys) && IsRun(sys, states, steps) && i < |states|
    ensures var s := states[i];
            && (s.client.Done? ==>
                  s.client.result == (if !Agreed(sys) then Err(NotSupported)
                                      else if ResponseCount(sys) <= MAX_RESPONSES then Ok(Delivered(Bounded(sys)))
                                      else Err(TooManyResponses)))
            && (s.server.Done? ==> s.server.result == if Agreed(sys) then Ok(()) else Err(NotSupported))
  {
    hide IsRun, UpBytes, DownBytes, Unread, Delivered;
    RunKeepsInv(sys, states, steps, i);
  }

  /**
    A run that cannot go on has come to the end on both sides, over a pipe of any capacity: the
    caller holds exactly the bounded peers that are not nil, in order, if the protocol is supported;
    otherwise both report that it is not. All bytes have been read.
   */
  lemma MaximalRunsComplete(sys: System, states: seq<State>, steps: seq<Step>)
    requires WellFormed(sys) && IsRun(sys, states, steps)
    requires Agreed(sys) ==> ResponseCount(sys) <= MAX_RESPONSES
    requires Stuck(sys, states[|steps|])
    ensures var s := states[|steps|];
            && s.client == C.Done(if Agreed(sys) then Ok(Delivered(Bounded(sys))) else Err(NotSupported))
            && s.server == S.Done(if Agreed(sys) then Ok(()) else Err(NotSupported))
            && s.up == IDLE && s.down == IDLE
  {
    var s := states[|steps|];
    RunKeepsInv(sys, states, steps, |steps|);
    ResultsAreSettled(sys, states, steps, |steps|);
    hide IsRun, UpFrame, DownFrame, Delivered, Bounded, Missing, CanMove;
    if !Ended(s) {
      var step := NoDeadlock(sys, s);
    }
    EndIsIdle(sys, s);
  }

  /** Any run can be prolonged to one that cannot go on. */
  lemma {:induction false} CanBeFinished(sys: System, states: seq<State>, steps: seq<Step>)
    returns (states': seq<State>, steps': seq<Step>)
    requires WellFormed(sys) && IsRun(sys, states, steps)
    ensures IsRun(sys, states', steps') && states <= states' && Stuck(sys, states'[|steps'|])
    decreases Measure(sys, states[|steps|])
  {
    hide WellFormed, Inv, Init, Enabled, Next, Measure;
    var s := states[|steps|];
    if Stuck(sys, s) {
      states', steps' := states, steps;
    } else {
      var step :| Enabled(sys, s, step);
      RunKeepsInv(sys, states, steps, |steps|);
      StepDecreasesMeasure(sys, s, step);
      states', steps' := CanBeFinished(sys, states + [Next(sys, s, step)], steps + [step]);
    }
  }

  lemma EndIsIdle(sys: System, s: State)
    requires Inv(sys, s) && Ended(s)
    requires Agreed(sys) ==> ResponseCount(sys) <= MAX_RESPONSES
    ensures s.up == IDLE && s.down == IDLE
  {
    assert s.clientRead == s.serverSent && s.serverRead == ClientSent(sys, s.clientRead);
    assert UpBytes(sys, s.serverRead, s.serverRead) == [] && DownBytes(sys, s.clientRead, s.clientRead) == [];
    assert Unread(s.up) == [] && Unread(s.down) == [];
  }

  /** Whatever the number of responses, in a run that cannot go on the caller has returned, with the settled result. */
  lemma CallerReturns(sys: System, states: seq<State>, steps: seq<Step>)
    requires WellFormed(sys) && IsRun(sys, states, steps)
    requires Stuck(sys, states[|steps|])
    ensures states[|steps|].client
         == C.Done(if !Agreed(sys) then Err(NotSupported)
                   else if ResponseCount(sys) <= MAX_RESPONSES then Ok(Delivered(Bounded(sys)))
                   else Err(TooManyResponses))
  {
    var s := states[|steps|];
    hide Enabled, Inv, WellFormed, Delivered, Bounded, ResponseCount, Agreed;
    RunKeepsInv(sys, states, steps, |steps|);
    ResultsAreSettled(sys, states, steps, |steps|);
    hide IsRun;
    if s.client.IsWriting() {
      var step := ClientWritingMoves(sys, s);
    } else if s.client.IsReading() {
      var step := ClientReadingMoves(sys, s);
    }
  }

  lemma {:induction false} ChannelsFit(sys: System, states: seq<State>, steps: seq<Step>, i: nat)
    requires IsRun(sys, states, steps) && i < |states|
    ensures Fits(sys.capacity, |states[i].down.channel|)
  {
    hide Moved, CanMove, Fits, C.Got, S.Got, S.Wrote, C.Wrote;
    if i == 0 {
      NothingFits(sys.capacity);
    } else {
      ChannelsFit(sys, states, steps, i - 1);
      var s, step := states[i - 1], steps[i - 1];
      if step.Down? {
        MoveKeepsBytes(sys.capacity, ClientWants(s), s.down, step.m);
      }
    }
  }

  lemma NothingFits(capacity: Capacity)
    ensures Fits(capacity, |IDLE.channel|)
  {
  }

  /** The responses that the caller does not read once it has given up. */
  function Surplus(sys: System): ByteString {
    DownBytes(sys, 2 + MAX_RESPONSES, DownCount(sys))
  }

  /**
    Beyond 100000 responses the caller gives up, and the responder returns exactly if the pipe itself
    can hold all that is left; otherwise its write goes on for ever.
   */
  lemma ResponderBeyondCap(sys: System, states: seq<State>, steps: seq<Step>)
    requires WellFormed(sys) && IsRun(sys, states, steps)
    requires Stuck(sys, states[|steps|])
    requires Agreed(sys) && ResponseCount(sys) > MAX_RESPONSES
    ensures states[|steps|].client == C.Done(Err(TooManyResponses))
    ensures states[|steps|].server.Done? <==> Fits(sys.capacity, |Surplus(sys)|)
  {
    assert |steps| < |states|;
    hide IsRun, Inv, WellFormed, Enabled, Fits, Surplus, Agreed, ResponseCount, Delivered, Bounded;
    var s := states[|steps|];
    CallerReturns(sys, states, steps);
    RunKeepsInv(sys, states, steps, |steps|);
    ChannelsFit(sys, states, steps, |steps|);
    GivenUp(sys, s);
    if !s.server.Done? {
      WriterIsStuck(sys, s);
      FitsLess(sys.capacity, |s.down.channel| + 1, |Surplus(sys)|);
    }
  }

  lemma FitsLess(capacity: Capacity, m: nat, n: nat)
    requires m <= n
    ensures Fits(capacity, n) ==> Fits(capacity, m)
  {
  }

  /** A write that neither ends nor goes on has filled the pipe. */
  lemma WriterIsStuck(sys: System, s: State)
    requires s.server.IsWriting() && !Enabled(sys, s, ServerWrote) && !Enabled(sys, s, Down(Push(1)))
    ensures s.down.pending != [] && !Fits(sys.capacity, |s.down.channel| + 1)
  {
  }

  /** After the caller has given up, what is unread is all in the channel or in the write in progress. */
  lemma GivenUp(sys: System, s: State)
    requires Inv(sys, s) && s.client == C.Done(Err(TooManyResponses))
    requires Agreed(sys) && ResponseCount(sys) > MAX_RESPONSES
    ensures |s.down.channel| + |s.down.pending| <= |Surplus(sys)|
    ensures s.server.Done? ==> |s.down.channel| == |Surplus(sys)|
    ensures !s.server.Done? ==> s.server.IsWriting()
  {
    hide UpFrame, DownFrame, Bounded;
    assert s.clientRead == 2 + MAX_RESPONSES && s.down.acc == [];
    DownBytesSplit(sys, s.clientRead, s.serverSent, DownCount(sys));
    assert |Unread(s.down)| == |s.down.channel| + |s.down.pending|;
  }

  lemma {:induction false} DownBytesSplit(sys: System, from: nat, mid: nat, end: nat)
    requires from <= mid <= end
    ensures DownBytes(sys, from, end) == DownBytes(sys, from, mid) + DownBytes(sys, mid, end)
    decreases end - from
  {
    hide DownFrame;
    if from < mid {
      DownBytesSplit(sys, from + 1, mid, end);
    } else {
      assert DownBytes(sys, from, mid) == [];
    }
  }

  /** The calls the program makes: one protocol id, supported, so the caller's result depends on the cap alone. */
  lemma DhtCallSucceedsWithinCap(sys: System, states: seq<State>, steps: seq<Step>)
    requires sys.call.protocolId == DHT_PROTOCOL_ID && sys.service.supported == [DHT_PROTOCOL_ID]
    requires WellFormed(sys) && IsRun(sys, states, steps)
    requires states[|steps|].client.Done? || Stuck(sys, states[|steps|])
    ensures states[|steps|].client
         == C.Done(if |Bounded(sys)| <= MAX_RESPONSES then Ok(Delivered(Bounded(sys))) else Err(TooManyResponses))
  {
    assert |steps| < |states|;
    hide IsRun, Delivered, Bounded, WellFormed, Enabled;
    ResultsAreSettled(sys, states, steps, |steps|);
    if !states[|steps|].client.Done? {
      CallerReturns(sys, states, steps);
    }
  }
}
