/** A codec with all the laws that the protocol asks of Protocol Buffers: they can be met together. */
module RpcCodec {
  import opened Bytes
  import opened RpcMessages

  // ---- Lists of fields ----------------------------------------------------------------------

  /** A number in unary. */
  function Num(n: nat): (b: ByteString)
    ensures |b| == n
  {
    if n == 0 then [] else [1] + Num(n - 1)
  }

  /** Every field behind its length: so many ones and a zero. */
  function Fields(s: seq<ByteString>): ByteString {
    if s == [] then [] else Num(|s[0]|) + [0] + s[0] + Fields(s[1..])
  }

  lemma {:induction false} NumsAgree(m: nat, n: nat, x: ByteString, y: ByteString)
    requires Num(m) + [0] + x == Num(n) + [0] + y
    ensures m == n && x == y
  {
    var s, t := Num(m) + [0] + x, Num(n) + [0] + y;
    if m == 0 || n == 0 {
      assert s[0] == (if m == 0 then 0 else 1) && t[0] == (if n == 0 then 0 else 1);
      assert s[1..] == x || m > 0;
      assert t[1..] == y || n > 0;
    } else {
      assert s[1..] == Num(m - 1) + [0] + x && t[1..] == Num(n - 1) + [0] + y;
      NumsAgree(m - 1, n - 1, x, y);
    }
  }

  lemma {:induction false} FieldsInjective(s: seq<ByteString>, t: seq<ByteString>)
    requires Fields(s) == Fields(t)
    ensures s == t
  {
    if s != [] && t != [] {
      var x, y := s[0] + Fields(s[1..]), t[0] + Fields(t[1..]);
      hide Num;
      assert Num(|s[0]|) + [0] + x == Fields(s) && Num(|t[0]|) + [0] + y == Fields(t);
      NumsAgree(|s[0]|, |t[0]|, x, y);
      assert s[0] == x[..|s[0]|] && t[0] == y[..|t[0]|];
      assert Fields(s[1..]) == x[|s[0]|..] && Fields(t[1..]) == y[|t[0]|..];
      FieldsInjective(s[1..], t[1..]);
      assert s == [s[0]] + s[1..] && t == [t[0]] + t[1..];
    }
  }

  lemma NumInjective(m: nat, n: nat)
    requires Num(m) == Num(n)
    ensures m == n
  {
    assert |Num(m)| == m && |Num(n)| == n;
  }

  function Bit(b: bool): nat { if b then 1 else 0 }

  // ---- The messages as fields ---------------------------------------------------------------

  function SessionFields(m: RpcSession): seq<ByteString> {
    seq(|m.supportedVersions|, i requires 0 <= i < |m.supportedVersions| => Num(m.supportedVersions[i]))
  }

  function ReplyFields(m: RpcSessionReply): seq<ByteString> {
    var result := match m.result
      case AcceptedVersion(v) => [Num(0), Num(v)]
      case Rejected(b) => [Num(1), Num(Bit(b))]
      case Unset => [Num(2), Num(0)];
    result + [Num(m.reason)]
  }

  function RequestFields(m: RpcRequest): seq<ByteString> {
    [Num(m.requestId), Num(m.methodNumber), Num(m.flags), Num(m.deadline), m.payload]
  }

  function GetPeersFields(m: GetPeersRequest): seq<ByteString> {
    [Num(m.n), Num(Bit(m.includeClients)), Num(m.maxClaims), Num(m.maxAddressesPerClaim)]
  }

  function ResponseFields(m: RpcResponse): seq<ByteString> {
    [Num(m.requestId), Num(m.status), Num(m.flags), m.payload]
  }

  function ClaimFields(c: Claim): seq<ByteString> {
    [Num(c.features), if c.signature.None? then [] else [1] + c.signature.value] + c.addresses
  }

  /** A nil claim as an empty one. */
  function PeerFields(p: PeerInfo): seq<ByteString> {
    [p.publicKey] + seq(|p.claims|, i requires 0 <= i < |p.claims| =>
      Fields(ClaimFields(if p.claims[i].None? then NO_CLAIM else p.claims[i].value)))
  }

  lemma SessionInjective(a: RpcSession, b: RpcSession)
    requires SessionFields(a) == SessionFields(b)
    ensures a == b
  {
    var v, w := a.supportedVersions, b.supportedVersions;
    assert |v| == |SessionFields(a)| == |w|;
    forall i | 0 <= i < |v|
      ensures v[i] == w[i]
    {
      assert SessionFields(a)[i] == Num(v[i]) && SessionFields(b)[i] == Num(w[i]);
      NumInjective(v[i], w[i]);
    }
  }

  lemma ReplyInjective(a: RpcSessionReply, b: RpcSessionReply)
    requires ReplyFields(a) == ReplyFields(b)
    ensures a == b
  {
    var s, t := ReplyFields(a), ReplyFields(b);
    hide Num;
    assert |s[0]| == |t[0]| && |s[1]| == |t[1]| && |s[2]| == |t[2]|;
  }

  lemma RequestInjective(a: RpcRequest, b: RpcRequest)
    requires RequestFields(a) == RequestFields(b)
    ensures a == b
  {
    var s, t := RequestFields(a), RequestFields(b);
    hide Num;
    assert |s[0]| == |t[0]| && |s[1]| == |t[1]| && |s[2]| == |t[2]| && |s[3]| == |t[3]| && s[4] == t[4];
  }

  lemma GetPeersInjective(a: GetPeersRequest, b: GetPeersRequest)
    requires GetPeersFields(a) == GetPeersFields(b)
    ensures a == b
  {
    var s, t := GetPeersFields(a), GetPeersFields(b);
    hide Num;
    assert |s[0]| == |t[0]| && |s[1]| == |t[1]| && |s[2]| == |t[2]| && |s[3]| == |t[3]|;
  }

  lemma ResponseInjective(a: RpcResponse, b: RpcResponse)
    requires ResponseFields(a) == ResponseFields(b)
    ensures a == b
  {
    var s, t := ResponseFields(a), ResponseFields(b);
    hide Num;
    assert |s[0]| == |t[0]| && |s[1]| == |t[1]| && |s[2]| == |t[2]| && s[3] == t[3];
  }

  lemma ClaimInjective(a: Claim, b: Claim)
    requires ClaimFields(a) == ClaimFields(b)
    ensures a == b
  {
    var s, t := ClaimFields(a), ClaimFields(b);
    hide Num;
    assert |s[0]| == |t[0]| && s[1] == t[1] && s[2..] == t[2..];
    assert s[2..] == a.addresses && t[2..] == b.addresses;
    if a.signature.Some? && b.signature.Some? {
      assert s[1][1..] == a.signature.value && t[1][1..] == b.signature.value;
    }
  }

  lemma PeerInjective(a: PeerInfo, b: PeerInfo)
    requires PeerFields(a) == PeerFields(b)
    ensures OnWire(a) == OnWire(b)
  {
    var s, t := PeerFields(a), PeerFields(b);
    hide Fields, ClaimFields;
    assert s[0] == a.publicKey && t[0] == b.publicKey;
    assert |a.claims| == |s| - 1 == |b.claims|;
    forall i | 0 <= i < |a.claims|
      ensures OnWire(a).claims[i] == OnWire(b).claims[i]
    {
      var c, d := OnWire(a).claims[i].value, OnWire(b).claims[i].value;
      assert s[i + 1] == Fields(ClaimFields(c)) && t[i + 1] == Fields(ClaimFields(d));
      FieldsInjective(ClaimFields(c), ClaimFields(d));
      ClaimInjective(c, d);
    }
    assert OnWire(a).claims == OnWire(b).claims;
  }

  // ---- The codec ----------------------------------------------------------------------------

  /** What was put in, if these bytes came of anything. */
  ghost function Inverse<T(!new)>(put: T -> ByteString, b: ByteString): Option<T> {
    if m: T :| put(m) == b then Some(m) else None
  }

  ghost predicate Injective<T(!new)>(put: T -> ByteString) {
    forall a, b :: put(a) == put(b) ==> a == b
  }

  lemma InverseOf<T(!new)>(put: T -> ByteString, m: T)
    requires Injective(put)
    ensures Inverse(put, put(m)) == Some(m)
  {
  }

  function PutSession(m: RpcSession): ByteString { Fields(SessionFields(m)) }

  function PutReply(m: RpcSessionReply): ByteString { Fields(ReplyFields(m)) }

  function PutRequest(m: RpcRequest): ByteString { Fields(RequestFields(m)) }

  function PutResponse(m: RpcResponse): ByteString { Fields(ResponseFields(m)) }

  function PutGetPeers(m: GetPeersRequest): ByteString {
    if m == DEFAULT_REQUEST then [] else Fields(GetPeersFields(m))
  }

  function PutPeer(p: Option<PeerInfo>): ByteString {
    if p.None? then [] else Fields(PeerFields(p.value))
  }

  ghost function GetPeer(b: ByteString): Option<Option<PeerInfo>> {
    if p: PeerInfo :| PutPeer(Some(p)) == b then Some(Some(OnWire(p))) else None
  }

  ghost function FieldCodec(): Codec {
    Codec(PutSession, b => Inverse(PutSession, b), PutReply, b => Inverse(PutReply, b),
          PutRequest, b => Inverse(PutRequest, b), PutGetPeers, b => Inverse(PutGetPeers, b),
          PutResponse, b => Inverse(PutResponse, b), PutPeer, b => GetPeer(b))
  }

  lemma PutsAreInjective()
    ensures Injective(PutSession) && Injective(PutReply) && Injective(PutRequest) && Injective(PutResponse)
    ensures Injective(PutGetPeers)
  {
    hide Fields, SessionFields, ReplyFields, RequestFields, ResponseFields;
    forall a, b | PutSession(a) == PutSession(b)
      ensures a == b
    {
      FieldsInjective(SessionFields(a), SessionFields(b));
      SessionInjective(a, b);
    }
    forall a, b | PutReply(a) == PutReply(b)
      ensures a == b
    {
      FieldsInjective(ReplyFields(a), ReplyFields(b));
      ReplyInjective(a, b);
    }
    forall a, b | PutRequest(a) == PutRequest(b)
      ensures a == b
    {
      FieldsInjective(RequestFields(a), RequestFields(b));
      RequestInjective(a, b);
    }
    forall a, b | PutResponse(a) == PutResponse(b)
      ensures a == b
    {
      FieldsInjective(ResponseFields(a), ResponseFields(b));
      ResponseInjective(a, b);
    }
    forall a, b | PutGetPeers(a) == PutGetPeers(b)
      ensures a == b
    {
      SomeFields(GetPeersFields(a));
      SomeFields(GetPeersFields(b));
      if a != DEFAULT_REQUEST && b != DEFAULT_REQUEST {
        FieldsInjective(GetPeersFields(a), GetPeersFields(b));
        GetPeersInjective(a, b);
      }
    }
  }

  lemma SomeFields(s: seq<ByteString>)
    ensures s != [] ==> Fields(s) != []
  {
    if s != [] {
      assert |Fields(s)| >= |Num(|s[0]|) + [0]|;
    }
  }

  lemma PeerIsReadBack(p: PeerInfo)
    ensures PutPeer(Some(p)) != []
    ensures GetPeer(PutPeer(Some(p))) == Some(Some(OnWire(p)))
  {
    hide Fields;
    SomeFields(PeerFields(p));
    forall q | PutPeer(Some(q)) == PutPeer(Some(p))
      ensures OnWire(q) == OnWire(p)
    {
      FieldsInjective(PeerFields(q), PeerFields(p));
      PeerInjective(q, p);
    }
  }

  lemma LawsCanBeMet()
    ensures Faithful(FieldCodec())
  {
    hide PutSession, PutReply, PutRequest, PutResponse, Inverse, Injective, GetPeer;
    PutsAreInjective();
    var c := FieldCodec();
    forall m ensures c.getSession(c.putSession(m)) == Some(m) { InverseOf(PutSession, m); }
    forall m ensures c.getReply(c.putReply(m)) == Some(m) { InverseOf(PutReply, m); }
    forall m ensures c.getRequest(c.putRequest(m)) == Some(m) { InverseOf(PutRequest, m); }
    forall m ensures c.getGetPeers(c.putGetPeers(m)) == Some(m) { InverseOf(PutGetPeers, m); }
    forall m ensures c.getResponse(c.putResponse(m)) == Some(m) { InverseOf(PutResponse, m); }
    forall p: PeerInfo
      ensures c.getPeer(c.putPeer(Some(p))) == Some(Some(OnWire(p))) && c.putPeer(Some(p)) != []
    {
      PeerIsReadBack(p);
    }
    assert c.putGetPeers(DEFAULT_REQUEST) == [];
  }
}
