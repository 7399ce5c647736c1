/** The store of recently seen peers a responder serves from (cmd/p2p-responder-spike/main.go). */
module PeerStore {
  import opened Bytes
  import opened Hex
  import opened RpcMessages

  /** Times are in nanoseconds. */
  const SEEN_PEER_WINDOW := 3_600_000_000_000
  const MAX_SERVED_PEERS := 200

  datatype SeenPeer = SeenPeer(info: PeerInfo, seenAt: int)

  type Peers = map<ByteString, SeenPeer>

  predicate IsStale(p: SeenPeer, now: int) {
    now - p.seenAt > SEEN_PEER_WINDOW
  }

  function Seen(key: ByteString, addresses: seq<ByteString>, features: UInt32, now: int): SeenPeer {
    SeenPeer(PeerInfo(key, [Some(Claim(addresses, features, None))]), now)
  }

  // ---- The program --------------------------------------------------------------------------

  function Pruned(peers: Peers, now: int): Peers {
    map h | h in peers && !IsStale(peers[h], now) :: peers[h]
  }

  predicate Distinct<T(==)>(s: seq<T>) {
    forall i, j :: 0 <= i < j < |s| ==> s[i] != s[j]
  }

  /** Entries of the store under different keys, in any order, and no fewer than the cap allows. */
  predicate Lists(peers: Peers, keys: seq<ByteString>, out: seq<PeerInfo>) {
    && |keys| == |out| && Distinct(keys)
    && (forall i :: 0 <= i < |keys| ==> keys[i] in peers && out[i] == peers[keys[i]].info)
    && |out| == if |peers| < MAX_SERVED_PEERS then |peers| else MAX_SERVED_PEERS
  }

  ghost predicate IsListing(peers: Peers, out: seq<PeerInfo>) {
    exists keys :: Lists(peers, keys, out)
  }

  class Store {
    /** By hexadecimal static key. */
    var peers: Peers

    constructor ()
      ensures peers == map[]
    {
      peers := map[];
    }

    method Record(key: ByteString, addresses: seq<ByteString>, features: UInt32, now: int)
      modifies this
      ensures peers == old(peers)[ToHex(key) := Seen(key, addresses, features, now)]
    {
      var claim := Claim(addresses, features, None);
      peers := peers[ToHex(key) := SeenPeer(PeerInfo(key, [Some(claim)]), now)];
    }

    /** Both loops take the entries in whatever order the map gives them. */
    method List(now: int) returns (out: seq<PeerInfo>)
      modifies this
      ensures peers == Pruned(old(peers), now)
      ensures IsListing(peers, out)
    {
      Prune(now);
      out := [];
      var todo := peers.Keys;
      ghost var keys: seq<ByteString> := [];
      while todo != {}
        invariant todo <= peers.Keys && |out| + |todo| == |peers.Keys| && |out| < MAX_SERVED_PEERS
        invariant |keys| == |out| && Distinct(keys)
        invariant forall i :: 0 <= i < |keys| ==>
          keys[i] in peers && keys[i] !in todo && out[i] == peers[keys[i]].info
        decreases todo
      {
        var h :| h in todo;
        todo := todo - {h};
        out := out + [peers[h].info];
        keys := keys + [h];
        if |out| >= MAX_SERVED_PEERS {
          break;
        }
      }
      assert |peers| == |peers.Keys|;
      assert Lists(peers, keys, out);
    }

    /** The first loop of List. */
    method Prune(now: int)
      modifies this
      ensures peers == Pruned(old(peers), now)
    {
      var todo := peers.Keys;
      while todo != {}
        invariant todo <= old(peers).Keys
        invariant forall h :: h in peers <==> h in old(peers) && (h in todo || !IsStale(old(peers)[h], now))
        invariant forall h :: h in peers ==> peers[h] == old(peers)[h]
        decreases todo
      {
        var h :| h in todo;
        todo := todo - {h};
        if IsStale(peers[h], now) {
          peers := peers - {h};
        }
      }
    }
  }

  // ---- Over any run of calls ----------------------------------------------------------------

  datatype Call =
    | Recording(key: ByteString, addresses: seq<ByteString>, features: UInt32, at: int)
    | Listing(at: int)

  /** The store after a run of calls on an empty one. */
  function After(calls: seq<Call>): Peers {
    if calls == [] then map[]
    else
      var before := After(calls[..|calls| - 1]);
      match calls[|calls| - 1]
      case Recording(key, addresses, features, at) => before[ToHex(key) := Seen(key, addresses, features, at)]
      case Listing(at) => Pruned(before, at)
  }

  /** The clock never goes back. */
  predicate IsTimely(calls: seq<Call>) {
    forall i, j :: 0 <= i < j < |calls| ==> calls[i].at <= calls[j].at
  }

  /** The last thing recorded for a key, however long ago. */
  function Latest(calls: seq<Call>, key: ByteString): Option<SeenPeer> {
    if calls == [] then None
    else
      var last := calls[|calls| - 1];
      if last.Recording? && last.key == key then Some(Seen(key, last.addresses, last.features, last.at))
      else Latest(calls[..|calls| - 1], key)
  }

  predicate IsRecent(calls: seq<Call>, key: ByteString, now: int) {
    var latest := Latest(calls, key);
    latest.Some? && !IsStale(latest.value, now)
  }

  function RecentKeys(calls: seq<Call>, now: int): set<ByteString> {
    set c | c in calls && c.Recording? && IsRecent(calls, c.key, now) :: c.key
  }

  lemma {:induction false} LatestWasRecorded(calls: seq<Call>, key: ByteString)
    requires Latest(calls, key).Some?
    ensures exists c :: c in calls && c.Recording? && c.key == key
    ensures Latest(calls, key).value.info.publicKey == key
  {
    var last := calls[|calls| - 1];
    if !(last.Recording? && last.key == key) {
      LatestWasRecorded(calls[..|calls| - 1], key);
    }
  }

  /** Every entry is the latest record of its key, and the latest record of a key is there unless it has expired. */
  ghost predicate Follows(peers: Peers, calls: seq<Call>, now: int) {
    && (forall h :: h in peers ==> h == ToHex(peers[h].info.publicKey)
                                   && Latest(calls, peers[h].info.publicKey) == Some(peers[h]))
    && (forall key :: IsRecent(calls, key, now) ==> ToHex(key) in peers)
  }

  lemma {:induction false} StoreFollowsCalls(calls: seq<Call>, now: int)
    requires IsTimely(calls) && (calls != [] ==> calls[|calls| - 1].at <= now)
    ensures Follows(After(calls), calls, now)
  {
    if calls != [] {
      var n := |calls| - 1;
      var before, last := After(calls[..n]), calls[n];
      StoreFollowsCalls(calls[..n], last.at);
      forall h | h in After(calls)
        ensures h == ToHex(After(calls)[h].info.publicKey)
        ensures Latest(calls, After(calls)[h].info.publicKey) == Some(After(calls)[h])
      {
        if last.Recording? && h != ToHex(last.key) {
          assert h in before;
        }
      }
      forall key | IsRecent(calls, key, now)
        ensures ToHex(key) in After(calls)
      {
        if last.Recording? && last.key == key {
        } else {
          assert IsRecent(calls[..n], key, last.at);
          assert ToHex(key) in before;
          KeyOf(before, calls[..n], last.at, key);
        }
      }
    }
  }

  lemma KeyOf(peers: Peers, calls: seq<Call>, now: int, key: ByteString)
    requires Follows(peers, calls, now) && ToHex(key) in peers
    ensures peers[ToHex(key)].info.publicKey == key && Latest(calls, key) == Some(peers[ToHex(key)])
  {
    ToHexInjective(key, peers[ToHex(key)].info.publicKey);
  }

  lemma {:induction false} DistinctSize<T>(s: seq<T>)
    requires Distinct(s)
    ensures |set x | x in s| == |s|
  {
    if s != [] {
      var t := s[..|s| - 1];
      DistinctSize(t);
      assert (set x | x in s) == (set x | x in t) + {s[|s| - 1]};
    }
  }

  lemma SameSize<T>(a: set<T>, b: set<T>)
    requires a <= b && |a| == |b|
    ensures a == b
  {
    assert |b - a| == |b| - |a|;
    assert b - a == {};
  }

  /** After pruning, the store holds exactly the recent keys. */
  lemma PrunedIsRecent(calls: seq<Call>, now: int)
    requires IsTimely(calls + [Listing(now)])
    ensures Pruned(After(calls), now).Keys == set key | key in RecentKeys(calls, now) :: ToHex(key)
    ensures |Pruned(After(calls), now)| == |RecentKeys(calls, now)|
  {
    Timely(calls, now);
    StoreFollowsCalls(calls, now);
    var peers := Pruned(After(calls), now);
    var recent := RecentKeys(calls, now);
    forall h | h in peers.Keys
      ensures peers[h].info.publicKey in recent && h == ToHex(peers[h].info.publicKey)
    {
      LatestWasRecorded(calls, peers[h].info.publicKey);
    }
    forall key | key in recent
      ensures ToHex(key) in peers.Keys
    {
      KeyOf(After(calls), calls, now, key);
    }
    var image := set key | key in recent :: ToHex(key);
    assert peers.Keys == image;
    HexImageSize(recent, image);
  }

  lemma Timely(calls: seq<Call>, now: int)
    requires IsTimely(calls + [Listing(now)])
    ensures IsTimely(calls) && (calls != [] ==> calls[|calls| - 1].at <= now)
  {
    var all := calls + [Listing(now)];
    assert all[|calls|].at == now;
    forall i, j | 0 <= i < j < |calls|
      ensures calls[i].at <= calls[j].at
    {
      assert all[i] == calls[i] && all[j] == calls[j];
    }
    if calls != [] {
      assert all[|calls| - 1] == calls[|calls| - 1];
    }
  }

  lemma {:induction false} HexImageSize(keys: set<ByteString>, image: set<ByteString>)
    requires image == set key | key in keys :: ToHex(key)
    ensures |image| == |keys|
  {
    if keys != {} {
      var k :| k in keys;
      var rest := keys - {k};
      var restImage := set key | key in rest :: ToHex(key);
      HexImageSize(rest, restImage);
      if ToHex(k) in restImage {
        var other :| other in rest && ToHex(other) == ToHex(k);
        ToHexInjective(other, k);
      }
      assert image == restImage + {ToHex(k)};
    }
  }

  /**
    What a call of List gives at the end of any run with a clock that never goes back: at most 200
    peers with distinct static keys, each as recorded last and at most an hour ago; as many as the
    cap allows, so all of them if there are no more than 200.
   */
  lemma ListGivesRecentPeers(calls: seq<Call>, now: int, out: seq<PeerInfo>)
    requires IsTimely(calls + [Listing(now)])
    requires IsListing(Pruned(After(calls), now), out)
    ensures var n := |RecentKeys(calls, now)|; |out| == if n < MAX_SERVED_PEERS then n else MAX_SERVED_PEERS
    ensures forall i, j :: 0 <= i < j < |out| ==> out[i].publicKey != out[j].publicKey
    ensures forall i :: 0 <= i < |out| ==>
      IsRecent(calls, out[i].publicKey, now) && out[i] == Latest(calls, out[i].publicKey).value.info
    ensures |RecentKeys(calls, now)| <= MAX_SERVED_PEERS ==>
      forall key :: IsRecent(calls, key, now) ==> exists i :: 0 <= i < |out| && out[i].publicKey == key
  {
    PrunedIsRecent(calls, now);
    Timely(calls, now);
    StoreFollowsCalls(calls, now);
    hide After, RecentKeys, Latest, ToHex;
    var peers := Pruned(After(calls), now);
    var keys :| Lists(peers, keys, out);
    assert forall i :: 0 <= i < |out| ==> keys[i] == ToHex(out[i].publicKey);
    if |RecentKeys(calls, now)| <= MAX_SERVED_PEERS {
      forall key | IsRecent(calls, key, now)
        ensures exists i :: 0 <= i < |out| && out[i].publicKey == key
      {
        KeyOf(After(calls), calls, now, key);
        var i := EveryKeyIsListed(peers, keys, out, ToHex(key));
        ToHexInjective(out[i].publicKey, key);
      }
    }
  }

  /** Distinct keys that are as many as the entries leave none out. */
  lemma EveryKeyIsListed(peers: Peers, keys: seq<ByteString>, out: seq<PeerInfo>, h: ByteString) returns (i: nat)
    requires Lists(peers, keys, out) && |peers| <= MAX_SERVED_PEERS && h in peers
    ensures i < |keys| && keys[i] == h
  {
    DistinctSize(keys);
    assert |peers| == |peers.Keys|;
    SameSize((set k | k in keys), peers.Keys);
    assert h in peers.Keys;
    i :| i < |keys| && keys[i] == h;
  }

  // ---- The same in terms of the calls alone -------------------------------------------------

  /** Call i is a recording, and no later one is of the same key. */
  predicate IsLast(calls: seq<Call>, i: int) {
    && 0 <= i < |calls| && calls[i].Recording?
    && forall j :: i < j < |calls| && calls[j].Recording? ==> calls[j].key != calls[i].key
  }

  /** Not more than an hour before. */
  predicate WithinHour(at: int, now: int) {
    now - at <= 3_600_000_000_000
  }

  function KeysWithinHour(calls: seq<Call>, now: int): set<ByteString> {
    set i | 0 <= i < |calls| && IsLast(calls, i) && WithinHour(calls[i].at, now) :: calls[i].key
  }

  /** The peer that a recording leaves: its key, and one unsigned claim with its addresses and features. */
  function Recorded(call: Call): PeerInfo
    requires call.Recording?
  {
    PeerInfo(call.key, [Some(Claim(call.addresses, call.features, None))])
  }

  lemma {:induction false} LatestIsLast(calls: seq<Call>, i: int)
    requires IsLast(calls, i)
    ensures Latest(calls, calls[i].key) == Some(SeenPeer(Recorded(calls[i]), calls[i].at))
  {
    var n := |calls| - 1;
    if i < n {
      assert IsLast(calls[..n], i);
      LatestIsLast(calls[..n], i);
    }
  }

  lemma {:induction false} LastOf(calls: seq<Call>, key: ByteString) returns (i: nat)
    requires Latest(calls, key).Some?
    ensures IsLast(calls, i) && calls[i].key == key
  {
    var n := |calls| - 1;
    if calls[n].Recording? && calls[n].key == key {
      i := n;
    } else {
      i := LastOf(calls[..n], key);
    }
  }

  lemma RecentIsWithinHour(calls: seq<Call>, now: int)
    ensures RecentKeys(calls, now) == KeysWithinHour(calls, now)
    ensures forall i :: IsLast(calls, i) ==> (IsRecent(calls, calls[i].key, now) <==> WithinHour(calls[i].at, now))
  {
    forall i | IsLast(calls, i)
      ensures IsRecent(calls, calls[i].key, now) <==> WithinHour(calls[i].at, now)
      ensures calls[i] in calls
    {
      LatestIsLast(calls, i);
    }
    forall key | key in RecentKeys(calls, now)
      ensures key in KeysWithinHour(calls, now)
    {
      var i := LastOf(calls, key);
    }
  }

  /**
    What a call of List gives at the end of any run with a clock that never goes back: of the keys
    recorded last within the hour before, all if they are at most 200 and otherwise 200, each once and
    exactly as it was recorded last.
   */
  lemma ListByCalls(calls: seq<Call>, now: int, out: seq<PeerInfo>)
    requires IsTimely(calls + [Listing(now)])
    requires IsListing(Pruned(After(calls), now), out)
    ensures var n := |KeysWithinHour(calls, now)|; |out| == if n < 200 then n else 200
    ensures forall j, k :: 0 <= j < k < |out| ==> out[j].publicKey != out[k].publicKey
    ensures forall j :: 0 <= j < |out| ==>
              exists i :: IsLast(calls, i) && WithinHour(calls[i].at, now) && out[j] == Recorded(calls[i])
    ensures |KeysWithinHour(calls, now)| <= 200 ==>
              forall i :: IsLast(calls, i) ==> (WithinHour(calls[i].at, now) <==> Recorded(calls[i]) in out)
  {
    ListGivesRecentPeers(calls, now, out);
    RecentIsWithinHour(calls, now);
    hide After, RecentKeys, IsListing, IsRecent, Latest, IsLast, Recorded, KeysWithinHour, IsTimely;
    forall j | 0 <= j < |out|
      ensures exists i :: IsLast(calls, i) && WithinHour(calls[i].at, now) && out[j] == Recorded(calls[i])
    {
      var i := ListedIsRecorded(calls, now, out[j]);
    }
    if |KeysWithinHour(calls, now)| <= 200 {
      forall i | IsLast(calls, i)
        ensures WithinHour(calls[i].at, now) <==> Recorded(calls[i]) in out
      {
        LastIsListed(calls, now, out, i);
      }
    }
  }

  lemma ListedIsRecorded(calls: seq<Call>, now: int, p: PeerInfo) returns (i: int)
    requires IsRecent(calls, p.publicKey, now) && p == Latest(calls, p.publicKey).value.info
    ensures IsLast(calls, i) && WithinHour(calls[i].at, now) && p == Recorded(calls[i])
  {
    hide Latest;
    i := LastOf(calls, p.publicKey);
    LatestIsLast(calls, i);
  }

  lemma LastIsListed(calls: seq<Call>, now: int, out: seq<PeerInfo>, i: int)
    requires IsLast(calls, i)
    requires forall j :: 0 <= j < |out| ==>
      IsRecent(calls, out[j].publicKey, now) && out[j] == Latest(calls, out[j].publicKey).value.info
    requires forall key :: IsRecent(calls, key, now) ==> exists j :: 0 <= j < |out| && out[j].publicKey == key
    ensures WithinHour(calls[i].at, now) <==> Recorded(calls[i]) in out
  {
    LatestIsLast(calls, i);
    var key := calls[i].key;
    assert IsRecent(calls, key, now) <==> WithinHour(calls[i].at, now);
    hide Latest, IsRecent;
    if IsRecent(calls, key, now) {
      var j :| 0 <= j < |out| && out[j].publicKey == key;
      assert out[j] == Recorded(calls[i]);
    }
    if Recorded(calls[i]) in out {
      var j :| 0 <= j < |out| && out[j] == Recorded(calls[i]);
      assert out[j].publicKey == key;
    }
  }
}
