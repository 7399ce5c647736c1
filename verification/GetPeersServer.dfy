/**
  The answering side of get_peers (p2p/rpc/dht_getpeers_responder.go, negotiation.go, handshake.go),
  as reactions between waits and as the sequential program built from them.
 */
module GetPeersServer {
  import opened Bytes
  import opened Frames
  import opened Reactions
  import opened RpcMessages
  import T = StreamTransport

  /** What the responder was started with: the protocols it supports and the peers it knows; peers may be nil. */
  datatype Service = Service(codec: Codec, supported: seq<ByteString>, peers: seq<Option<PeerInfo>>)

  // ---- Bounding the peers against the request -----------------------------------------------

  /** The length after truncation; 0 means no bound. The comparison casts the length to 32 bits. */
  function Limit(length: nat, max: UInt32): (n: nat)
    ensures n <= length
    ensures length < LIMIT32 ==> n == if max > 0 && length > max then max else length
  {
    if max > 0 && length % LIMIT32 > max then max else length
  }

  function BoundClaim(claim: Option<Claim>, maxAddresses: UInt32): Option<Claim> {
    match claim
    case None => None
    case Some(c) => Some(c.(addresses := c.addresses[..Limit(|c.addresses|, maxAddresses)]))
  }

  function BoundPeer(peer: Option<PeerInfo>, maxClaims: UInt32, maxAddresses: UInt32): Option<PeerInfo> {
    match peer
    case None => None
    case Some(p) =>
      Some(PeerInfo(p.publicKey, seq(Limit(|p.claims|, maxClaims), i requires 0 <= i < |p.claims| =>
        BoundClaim(p.claims[i], maxAddresses))))
  }

  function BoundPeers(peers: seq<Option<PeerInfo>>, r: GetPeersRequest): seq<Option<PeerInfo>> {
    seq(Limit(|peers|, r.n), i requires 0 <= i < |peers| =>
      BoundPeer(peers[i], r.maxClaims, r.maxAddressesPerClaim))
  }

  method BoundClaimAddresses(claim: Option<Claim>, maxAddresses: UInt32) returns (bounded: Option<Claim>)
    ensures bounded == BoundClaim(claim, maxAddresses)
  {
    if claim.None? {
      return None;
    }
    var numAddresses := |claim.value.addresses|;
    if maxAddresses > 0 && numAddresses % LIMIT32 > maxAddresses {
      numAddresses := maxAddresses;
    }
    bounded := Some(Claim(claim.value.addresses[..numAddresses], claim.value.features, claim.value.signature));
  }

  method BoundPeerClaims(peer: Option<PeerInfo>, maxClaims: UInt32, maxAddresses: UInt32)
    returns (bounded: Option<PeerInfo>)
    ensures bounded == BoundPeer(peer, maxClaims, maxAddresses)
  {
    if peer.None? {
      return None;
    }
    var claims := peer.value.claims;
    var numClaims := |claims|;
    if maxClaims > 0 && numClaims % LIMIT32 > maxClaims {
      numClaims := maxClaims;
    }
    var boundedClaims: seq<Option<Claim>> := [];
    for i := 0 to numClaims
      invariant |boundedClaims| == i
      invariant forall k :: 0 <= k < i ==> boundedClaims[k] == BoundClaim(claims[k], maxAddresses)
    {
      var claim := BoundClaimAddresses(claims[i], maxAddresses);
      boundedClaims := boundedClaims + [claim];
    }
    assert BoundPeer(peer, maxClaims, maxAddresses).value.claims == boundedClaims;
    bounded := Some(PeerInfo(peer.value.publicKey, boundedClaims));
  }

  method BoundPeersForRequest(peers: seq<Option<PeerInfo>>, r: GetPeersRequest)
    returns (bounded: seq<Option<PeerInfo>>)
    ensures bounded == BoundPeers(peers, r)
  {
    var n := |peers|;
    if r.n > 0 && n % LIMIT32 > r.n {
      n := r.n;
    }
    bounded := [];
    for i := 0 to n
      invariant bounded == seq(i, k requires 0 <= k < |peers| =>
                                    BoundPeer(peers[k], r.maxClaims, r.maxAddressesPerClaim))
    {
      var peer := BoundPeerClaims(peers[i], r.maxClaims, r.maxAddressesPerClaim);
      bounded := bounded + [peer];
    }
  }

  /** The smaller of a length and a bound, of which 0 means none. */
  function Least(length: nat, bound: UInt32): nat {
    if bound > 0 && bound < length then bound else length
  }

  /** A bounded claim differs only in its addresses, the first ones up to the bound. */
  ghost predicate IsClaimBounded(claim: Option<Claim>, bounded: Option<Claim>, maxAddresses: UInt32) {
    if claim.None? then bounded.None?
    else
      && bounded.Some?
      && |bounded.value.addresses| == Least(|claim.value.addresses|, maxAddresses)
      && bounded.value.addresses <= claim.value.addresses
      && bounded.value.features == claim.value.features && bounded.value.signature == claim.value.signature
  }

  /** A bounded peer differs only in its claims: the first ones up to the bound, each bounded in its place. */
  ghost predicate IsPeerBounded(peer: Option<PeerInfo>, bounded: Option<PeerInfo>, r: GetPeersRequest) {
    if peer.None? then bounded.None?
    else
      && bounded.Some? && bounded.value.publicKey == peer.value.publicKey
      && |bounded.value.claims| == Least(|peer.value.claims|, r.maxClaims)
      && forall j :: 0 <= j < |bounded.value.claims| ==>
           IsClaimBounded(peer.value.claims[j], bounded.value.claims[j], r.maxAddressesPerClaim)
  }

  /** No list in it has 2^32 entries, the size at which the program's comparisons wrap around. */
  predicate IsCountablePeer(peer: Option<PeerInfo>) {
    peer.Some? ==>
      && |peer.value.claims| < LIMIT32
      && forall j :: 0 <= j < |peer.value.claims| && peer.value.claims[j].Some? ==>
           |peer.value.claims[j].value.addresses| < LIMIT32
  }

  predicate IsCountable(peers: seq<Option<PeerInfo>>) {
    |peers| < LIMIT32 && forall i :: 0 <= i < |peers| ==> IsCountablePeer(peers[i])
  }

  /** The first peers up to the bound, each bounded in its place. */
  lemma BoundsAreKept(peers: seq<Option<PeerInfo>>, r: GetPeersRequest)
    requires IsCountable(peers)
    ensures |BoundPeers(peers, r)| == Least(|peers|, r.n)
    ensures forall i :: 0 <= i < |BoundPeers(peers, r)| ==> IsPeerBounded(peers[i], BoundPeers(peers, r)[i], r)
  {
    forall i | 0 <= i < |BoundPeers(peers, r)|
      ensures IsPeerBounded(peers[i], BoundPeers(peers, r)[i], r)
    {
      PeerIsBounded(peers[i], r);
    }
  }

  lemma PeerIsBounded(peer: Option<PeerInfo>, r: GetPeersRequest)
    requires IsCountablePeer(peer)
    ensures IsPeerBounded(peer, BoundPeer(peer, r.maxClaims, r.maxAddressesPerClaim), r)
  {
  }

  /** Only one list is as the request bounds it: the one the program sends. */
  lemma BoundedIsUnique(peers: seq<Option<PeerInfo>>, r: GetPeersRequest, bounded: seq<Option<PeerInfo>>)
    requires IsCountable(peers)
    requires |bounded| == Least(|peers|, r.n)
    requires forall i :: 0 <= i < |bounded| ==> IsPeerBounded(peers[i], bounded[i], r)
    ensures bounded == BoundPeers(peers, r)
  {
    BoundsAreKept(peers, r);
    forall i | 0 <= i < |bounded|
      ensures bounded[i] == BoundPeers(peers, r)[i]
    {
      SameBoundedPeer(peers[i], bounded[i], BoundPeers(peers, r)[i], r);
    }
  }

  lemma SameBoundedClaim(claim: Option<Claim>, x: Option<Claim>, y: Option<Claim>, maxAddresses: UInt32)
    requires IsClaimBounded(claim, x, maxAddresses) && IsClaimBounded(claim, y, maxAddresses)
    ensures x == y
  {
    if claim.Some? {
      assert x.value.addresses == claim.value.addresses[..|x.value.addresses|];
      assert y.value.addresses == claim.value.addresses[..|y.value.addresses|];
    }
  }

  lemma SameBoundedPeer(peer: Option<PeerInfo>, x: Option<PeerInfo>, y: Option<PeerInfo>, r: GetPeersRequest)
    requires IsPeerBounded(peer, x, r) && IsPeerBounded(peer, y, r)
    ensures x == y
  {
    if peer.Some? {
      forall j | 0 <= j < |x.value.claims|
        ensures x.value.claims[j] == y.value.claims[j]
      {
        SameBoundedClaim(peer.value.claims[j], x.value.claims[j], y.value.claims[j], r.maxAddressesPerClaim);
      }
      assert x.value.claims == y.value.claims;
    }
  }

  /** Bounding what is bounded already changes nothing. */
  lemma BoundingTwice(peers: seq<Option<PeerInfo>>, r: GetPeersRequest)
    requires IsCountable(peers)
    ensures BoundPeers(BoundPeers(peers, r), r) == BoundPeers(peers, r)
  {
    var once := BoundPeers(peers, r);
    BoundsAreKept(peers, r);
    hide BoundPeers, IsPeerBounded, IsCountablePeer;
    forall i | 0 <= i < |once|
      ensures IsPeerBounded(once[i], once[i], r) && IsCountablePeer(once[i])
    {
      BoundedOnce(peers[i], once[i], r);
    }
    BoundedIsUnique(once, r, once);
  }

  lemma BoundedOnce(peer: Option<PeerInfo>, once: Option<PeerInfo>, r: GetPeersRequest)
    requires IsCountablePeer(peer) && IsPeerBounded(peer, once, r)
    ensures IsPeerBounded(once, once, r) && IsCountablePeer(once)
  {
    if peer.Some? {
      forall j | 0 <= j < |once.value.claims|
        ensures IsClaimBounded(once.value.claims[j], once.value.claims[j], r.maxAddressesPerClaim)
        ensures once.value.claims[j].Some? ==> |once.value.claims[j].value.addresses| < LIMIT32
      {
        assert IsClaimBounded(peer.value.claims[j], once.value.claims[j], r.maxAddressesPerClaim);
      }
    }
  }

  // ---- Reactions ----------------------------------------------------------------------------

  datatype Pc =
    | ReadingNegotiation | WritingVerdict(supported: bool)
    | ReadingSession | WritingAcceptance
    | ReadingRequest | WritingResponse(requestId: UInt32, bounded: seq<Option<PeerInfo>>, j: nat)
    | Done(result: Result<(), RpcError>)
  {
    predicate IsReading() { ReadingNegotiation? || ReadingSession? || ReadingRequest? }
    predicate IsWriting() { WritingVerdict? || WritingAcceptance? || WritingResponse? }

    /** The framing in force: canonical once the positive verdict has been written. */
    function Mode(): Kind { if ReadingNegotiation? || WritingVerdict? then Negotiation else Canonical }
  }

  function Fail(e: RpcError): Reaction<Pc> { Reaction(Done(Err(e)), []) }

  function GotNegotiation(s: Service, frame: ByteString): Reaction<Pc> {
    match DecodeNegotiation(frame)
    case Err(_) => Fail(BadFrame)
    case Ok(f) =>
      if f.id in s.supported then
        match EncodeNegotiation(FLAG_NONE, f.id)
        case Err(_) => Fail(ProtocolIdTooLong)
        case Ok(reply) => Reaction(WritingVerdict(true), reply)
      else
        match EncodeNegotiation(FLAG_NOT_SUPPORTED, [])
        case Err(_) => Fail(ProtocolIdTooLong)
        case Ok(reply) => Reaction(WritingVerdict(false), reply)
  }

  function AcceptanceFrame(s: Service): ByteString {
    EncodeCanonical(s.codec.putReply(RpcSessionReply(AcceptedVersion(SUPPORTED_RPC_VERSION), 0)))
  }

  /** Every well-formed session is accepted. */
  function GotSession(s: Service, frame: ByteString): Reaction<Pc> {
    match DecodeCanonical(frame)
    case Err(_) => Fail(BadFrame)
    case Ok(bytes) =>
      if s.codec.getSession(bytes).None? then Fail(BadMessage)
      else Reaction(WritingAcceptance, AcceptanceFrame(s))
  }

  /** Response j: one peer each, FIN on the last; a single empty one if there is no peer. */
  function ResponseFrame(codec: Codec, requestId: UInt32, bounded: seq<Option<PeerInfo>>, j: nat): ByteString {
    var payload := if j < |bounded| then codec.putPeer(bounded[j]) else [];
    var flags: UInt32 := if j + 1 >= |bounded| then FIN else 0;
    EncodeCanonical(codec.putResponse(RpcResponse(requestId, 0, flags, payload)))
  }

  function ParseGetPeers(codec: Codec, payload: ByteString): Option<GetPeersRequest> {
    if payload == [] then Some(DEFAULT_REQUEST) else codec.getGetPeers(payload)
  }

  /** Neither the method number nor the deadline is looked at. */
  function GotRequest(s: Service, frame: ByteString): Reaction<Pc> {
    match DecodeCanonical(frame)
    case Err(_) => Fail(BadFrame)
    case Ok(bytes) =>
      match s.codec.getRequest(bytes)
      case None => Fail(BadMessage)
      case Some(request) =>
        match ParseGetPeers(s.codec, request.payload)
        case None => Fail(BadMessage)
        case Some(r) =>
          var bounded := BoundPeers(s.peers, r);
          Reaction(WritingResponse(request.requestId, bounded, 0),
                   ResponseFrame(s.codec, request.requestId, bounded, 0))
  }

  function Got(s: Service, pc: Pc, frame: ByteString): Reaction<Pc>
    requires pc.IsReading()
  {
    match pc
    case ReadingNegotiation => GotNegotiation(s, frame)
    case ReadingSession => GotSession(s, frame)
    case ReadingRequest => GotRequest(s, frame)
  }

  function Wrote(s: Service, pc: Pc): Reaction<Pc>
    requires pc.IsWriting()
  {
    match pc
    case WritingVerdict(supported) => if supported then Reaction(ReadingSession, []) else Fail(NotSupported)
    case WritingAcceptance => Reaction(ReadingRequest, [])
    case WritingResponse(requestId, bounded, j) =>
      if j + 1 < |bounded| then
        Reaction(WritingResponse(requestId, bounded, j + 1), ResponseFrame(s.codec, requestId, bounded, j + 1))
      else Reaction(Done(Ok(())), [])
  }

  // ---- The sequential program ---------------------------------------------------------------

  function Steps(pc: Pc): nat {
    if pc.WritingResponse? then (if pc.j < |pc.bounded| then |pc.bounded| - pc.j else 0) + 1
    else if pc.IsWriting() then 2
    else if pc.IsReading() then 1
    else 0
  }

  /** The machine on its own: reactions chained over the frames of the input. */
  function Run(s: Service, pc: Pc, input: ByteString): Outcome<()>
    decreases |input|, Steps(pc)
  {
    if pc.Done? then Outcome(pc.result, [], input)
    else if pc.IsWriting() then
      var next := Wrote(s, pc);
      After(next.out, Run(s, next.pc, input))
    else
      match CutFrame(pc.Mode(), input)
      case None => Outcome(Err(ReceiveFailed), [], [])
      case Some(cut) =>
        var next := Got(s, pc, cut.frame);
        After(next.out, Run(s, next.pc, cut.rest))
  }

  /** The answering side of protocol negotiation, with its search through the supported protocols. */
  method NegotiateProtocolInbound(t: T.StreamTransport, s: Service) returns (failure: Option<RpcError>)
    requires !t.canonical
    modifies t
    ensures !t.canonical
    ensures failure.Some? ==>
              Outcome(Err(failure.value), t.output, t.input)
              == After(old(t.output), Run(s, ReadingNegotiation, old(t.input)))
    ensures failure.None? ==>
              After(old(t.output), Run(s, ReadingNegotiation, old(t.input)))
              == After(t.output, Run(s, ReadingSession, t.input))
  {
    ghost var out, input := t.output, t.input;
    var inFrame := t.ReceiveFrame();
    if inFrame.Err? {
      return Some(ReceiveFailed);
    }
    ghost var next := GotNegotiation(s, inFrame.value);
    assert Run(s, ReadingNegotiation, input) == After(next.out, Run(s, next.pc, t.input));
    AfterAfter(out, next.out, Run(s, next.pc, t.input));
    var requested := DecodeNegotiation(inFrame.value);
    if requested.Err? {
      return Some(BadFrame);
    }
    var supported := false;
    for i := 0 to |s.supported|
      invariant !supported && requested.value.id !in s.supported[..i]
    {
      if s.supported[i] == requested.value.id {
        supported := true;
        break;
      }
    }
    assert s.supported[..|s.supported|] == s.supported;
    assert supported <==> requested.value.id in s.supported;
    if !supported {
      var reply := EncodeNegotiation(FLAG_NOT_SUPPORTED, []);
      t.SendFrame(reply.value);
      assert Run(s, WritingVerdict(false), t.input) == After([], Outcome(Err(NotSupported), [], t.input));
      return Some(NotSupported);
    }
    var reply := EncodeNegotiation(FLAG_NONE, requested.value.id);
    if reply.Err? {
      return Some(ProtocolIdTooLong);
    }
    t.SendFrame(reply.value);
    assert Run(s, WritingVerdict(true), t.input) == After([], Run(s, ReadingSession, t.input));
    AfterAfter(t.output, [], Run(s, ReadingSession, t.input));
    failure := None;
  }

  /** The answering side of the session handshake. */
  method PerformSessionHandshakeResponder(t: T.StreamTransport, s: Service) returns (failure: Option<RpcError>)
    requires t.canonical
    modifies t
    ensures t.canonical
    ensures failure.Some? ==>
              Outcome(Err(failure.value), t.output, t.input)
              == After(old(t.output), Run(s, ReadingSession, old(t.input)))
    ensures failure.None? ==>
              After(old(t.output), Run(s, ReadingSession, old(t.input)))
              == After(t.output, Run(s, ReadingRequest, t.input))
  {
    ghost var out, input := t.output, t.input;
    var inFrame := t.ReceiveFrame();
    if inFrame.Err? {
      return Some(ReceiveFailed);
    }
    ghost var next := GotSession(s, inFrame.value);
    assert Run(s, ReadingSession, input) == After(next.out, Run(s, next.pc, t.input));
    AfterAfter(out, next.out, Run(s, next.pc, t.input));
    var bytes := DecodeCanonical(inFrame.value);
    if bytes.Err? {
      return Some(BadFrame);
    }
    if s.codec.getSession(bytes.value).None? {
      return Some(BadMessage);
    }
    t.SendFrame(AcceptanceFrame(s));
    assert Run(s, WritingAcceptance, t.input) == After([], Run(s, ReadingRequest, t.input));
    AfterAfter(t.output, [], Run(s, ReadingRequest, t.input));
    failure := None;
  }

  /** After a response comes the next one, or the end. */
  lemma WriteStep(s: Service, requestId: UInt32, bounded: seq<Option<PeerInfo>>, j: nat, input: ByteString)
    ensures j + 1 < |bounded| ==>
              Run(s, WritingResponse(requestId, bounded, j), input)
              == After(ResponseFrame(s.codec, requestId, bounded, j + 1),
                       Run(s, WritingResponse(requestId, bounded, j + 1), input))
    ensures j + 1 >= |bounded| ==> Run(s, WritingResponse(requestId, bounded, j), input) == Outcome(Ok(()), [], input)
  {
    hide ResponseFrame;
    if j + 1 >= |bounded| {
      assert Run(s, Done(Ok(())), input) == Outcome(Ok(()), [], input);
    }
  }

  /** Streaming the bounded list: one response a peer, the flag changing to FIN on the last. */
  method SendPeers(t: T.StreamTransport, s: Service, requestId: UInt32, bounded: seq<Option<PeerInfo>>)
    modifies t`output
    ensures var first := ResponseFrame(s.codec, requestId, bounded, 0);
            Outcome(Ok(()), t.output, t.input)
            == After(old(t.output) + first, Run(s, WritingResponse(requestId, bounded, 0), t.input))
  {
    hide Run, EncodeCanonical;
    ghost var whole := After(t.output + ResponseFrame(s.codec, requestId, bounded, 0),
                             Run(s, WritingResponse(requestId, bounded, 0), t.input));
    if |bounded| == 0 {
      WriteStep(s, requestId, bounded, 0, t.input);
      t.SendFrame(EncodeCanonical(s.codec.putResponse(RpcResponse(requestId, 0, FIN, []))));
      assert t.output + [] == t.output;
      return;
    }
    for i := 0 to |bounded|
      invariant i < |bounded| ==>
                  After(t.output + ResponseFrame(s.codec, requestId, bounded, i),
                        Run(s, WritingResponse(requestId, bounded, i), t.input)) == whole
      invariant i == |bounded| ==> Outcome(Ok(()), t.output, t.input) == whole
    {
      var payload := s.codec.putPeer(bounded[i]);
      var flags: UInt32 := 0;
      if i == |bounded| - 1 {
        flags := FIN;
      }
      WriteStep(s, requestId, bounded, i, t.input);
      t.SendFrame(EncodeCanonical(s.codec.putResponse(RpcResponse(requestId, 0, flags, payload))));
      if i + 1 < |bounded| {
        AfterAfter(t.output, ResponseFrame(s.codec, requestId, bounded, i + 1),
                   Run(s, WritingResponse(requestId, bounded, i + 1), t.input));
      } else {
        assert t.output + [] == t.output;
      }
    }
  }

  /** The responder as the program runs it: the machine `Run`, from start to finish. */
  method ServeGetPeers(t: T.StreamTransport, s: Service) returns (result: Result<(), RpcError>)
    requires !t.canonical
    modifies t
    ensures Outcome(result, t.output, t.input) == After(old(t.output), Run(s, ReadingNegotiation, old(t.input)))
  {
    var failure := NegotiateProtocolInbound(t, s);
    if failure.Some? {
      return Err(failure.value);
    }
    t.BeginCanonicalFraming();
    failure := PerformSessionHandshakeResponder(t, s);
    if failure.Some? {
      return Err(failure.value);
    }
    ghost var out, input := t.output, t.input;
    var inFrame := t.ReceiveFrame();
    if inFrame.Err? {
      return Err(ReceiveFailed);
    }
    ghost var next := GotRequest(s, inFrame.value);
    assert Run(s, ReadingRequest, input) == After(next.out, Run(s, next.pc, t.input));
    AfterAfter(out, next.out, Run(s, next.pc, t.input));
    var bytes := DecodeCanonical(inFrame.value);
    if bytes.Err? {
      return Err(BadFrame);
    }
    var request := s.codec.getRequest(bytes.value);
    if request.None? {
      return Err(BadMessage);
    }
    var getPeers: Option<GetPeersRequest> := Some(DEFAULT_REQUEST);
    if request.value.payload != [] {
      getPeers := s.codec.getGetPeers(request.value.payload);
      if getPeers.None? {
        return Err(BadMessage);
      }
    }
    var bounded := BoundPeersForRequest(s.peers, getPeers.value);
    SendPeers(t, s, request.value.requestId, bounded);
    result := Ok(());
  }
}
