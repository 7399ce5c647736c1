/** The messages of the get_peers call and the codec that turns them into bytes (p2p/proto/rpc.proto, dht_rpc.proto). */
module RpcMessages {
  import opened Bytes

  datatype RpcSession = RpcSession(supportedVersions: seq<UInt32>)

  datatype SessionResult = AcceptedVersion(version: UInt32) | Rejected(rejected: bool) | Unset

  datatype RpcSessionReply = RpcSessionReply(result: SessionResult, reason: UInt32)

  datatype RpcRequest = RpcRequest(requestId: UInt32, methodNumber: UInt32, flags: UInt32, deadline: nat, payload: ByteString)

  datatype RpcResponse = RpcResponse(requestId: UInt32, status: UInt32, flags: UInt32, payload: ByteString) {
    predicate IsFin() { flags % 2 == 1 }
  }

  const FIN: UInt32 := 1

  datatype GetPeersRequest =
    GetPeersRequest(n: UInt32, includeClients: bool, maxClaims: UInt32, maxAddressesPerClaim: UInt32)

  const DEFAULT_REQUEST := GetPeersRequest(0, false, 0, 0)

  datatype Claim = Claim(addresses: seq<ByteString>, features: UInt32, signature: Option<ByteString>)

  /** Claims may be nil. */
  datatype PeerInfo = PeerInfo(publicKey: ByteString, claims: seq<Option<Claim>>)

  const NO_CLAIM := Claim([], 0, None)

  /** A nil claim has no wire form of its own: it is sent as an empty one. */
  function OnWire(p: PeerInfo): PeerInfo {
    PeerInfo(p.publicKey, seq(|p.claims|, i requires 0 <= i < |p.claims| =>
      Some(if p.claims[i].None? then NO_CLAIM else p.claims[i].value)))
  }

  /** Nothing changes but nil claims, and so nothing at all if there are none. */
  lemma OnWireKeeps(p: PeerInfo)
    ensures OnWire(p).publicKey == p.publicKey && |OnWire(p).claims| == |p.claims|
    ensures forall i :: 0 <= i < |p.claims| ==>
              OnWire(p).claims[i] == if p.claims[i].Some? then p.claims[i] else Some(Claim([], 0, None))
    ensures (forall i :: 0 <= i < |p.claims| ==> p.claims[i].Some?) <==> OnWire(p) == p
  {
    if forall i :: 0 <= i < |p.claims| ==> p.claims[i].Some? {
      assert OnWire(p).claims == p.claims;
    } else {
      var i :| 0 <= i < |p.claims| && p.claims[i].None?;
      assert OnWire(p).claims[i] != p.claims[i];
    }
  }

  /** Protocol Buffers, as far as the protocol relies on it. The payload of a response is a peer or nil. */
  datatype Codec = Codec(
    putSession: RpcSession -> ByteString,
    getSession: ByteString -> Option<RpcSession>,
    putReply: RpcSessionReply -> ByteString,
    getReply: ByteString -> Option<RpcSessionReply>,
    putRequest: RpcRequest -> ByteString,
    getRequest: ByteString -> Option<RpcRequest>,
    putGetPeers: GetPeersRequest -> ByteString,
    getGetPeers: ByteString -> Option<GetPeersRequest>,
    putResponse: RpcResponse -> ByteString,
    getResponse: ByteString -> Option<RpcResponse>,
    putPeer: Option<PeerInfo> -> ByteString,
    getPeer: ByteString -> Option<Option<PeerInfo>>)

  /** Every message is read back, and the empty payload stands for the nil peer and the default request. */
  ghost predicate Faithful(c: Codec) {
    && (forall m :: c.getSession(c.putSession(m)) == Some(m))
    && (forall m :: c.getReply(c.putReply(m)) == Some(m))
    && (forall m :: c.getRequest(c.putRequest(m)) == Some(m))
    && (forall m :: c.getGetPeers(c.putGetPeers(m)) == Some(m))
    && (forall m :: c.getResponse(c.putResponse(m)) == Some(m))
    && (forall p :: c.getPeer(c.putPeer(Some(p))) == Some(Some(OnWire(p))))
    && (forall p :: c.putPeer(Some(p)) != [])
    && c.putPeer(None) == []
    && c.getGetPeers([]) == Some(DEFAULT_REQUEST)
  }

  datatype RpcError =
    | ProtocolIdTooLong | ReceiveFailed | BadFrame | NotSupported | Terminated
    | BadMessage | HandshakeRejected(reason: UInt32) | InvalidHandshake
    | StatusError(status: UInt32) | TooManyResponses

  const MAX_RESPONSES := 100000
  const SUPPORTED_RPC_VERSION: UInt32 := 0
  const GET_PEERS_METHOD: UInt32 := 10
  const DEFAULT_REQUEST_ID: UInt32 := 1
  const DEFAULT_DEADLINE: nat := 20

  /** "t/dht/1" */
  const DHT_PROTOCOL_ID: ByteString := [0x74, 0x2F, 0x64, 0x68, 0x74, 0x2F, 0x31]

  lemma DhtProtocolId()
    ensures var text := "t/dht/1";
            |DHT_PROTOCOL_ID| == |text| && forall i :: 0 <= i < |text| ==> DHT_PROTOCOL_ID[i] == text[i] as int
  {
  }
}
