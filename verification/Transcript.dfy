/** The bytes an identity signature commits to (p2p/hashing.go, identity_signature.go). */
module Transcript {
  import opened Bytes
  import opened Positional

  // ---- Little-endian words ------------------------------------------------------------------

  const LIMIT64: nat := 0x1_0000_0000_0000_0000

  /** n in w bytes, least significant first, dropping what does not fit. */
  function Le(n: nat, w: nat): (b: ByteString)
    ensures |b| == w
  {
    if w == 0 then [] else [n % 256] + Le(n / 256, w - 1)
  }

  function LeValue(b: ByteString): nat {
    if b == [] then 0 else b[0] as nat + 256 * LeValue(b[1..])
  }

  lemma {:induction false} LeRoundTrip(n: nat, w: nat)
    requires n < Pow(256, w)
    ensures LeValue(Le(n, w)) == n
  {
    if w > 0 {
      LeRoundTrip(n / 256, w - 1);
    }
  }

  lemma {:induction false} LeValueRoundTrip(b: ByteString)
    ensures Le(LeValue(b), |b|) == b
  {
    if b != [] {
      LeValueRoundTrip(b[1..]);
      DivMod(LeValue(b[1..]), b[0], 256);
      assert b == [b[0]] + b[1..];
    }
  }

  lemma {:induction false} LeValueIs(b: ByteString)
    ensures LeValue(b) == LittleEndian(b)
  {
    if b != [] {
      LeValueIs(b[1..]);
      assert Reversed(b) == Reversed(b[1..]) + [b[0]];
      ValueSnoc(Reversed(b[1..]), b[0], 256);
    }
  }

  lemma Word64Is(n: nat)
    requires n < LIMIT64
    ensures LittleEndian(Word64(n)) == n
  {
    assert Pow(256, 8) == LIMIT64;
    hide Pow, Le, LeValue;
    LeRoundTrip(n, 8);
    LeValueIs(Le(n, 8));
  }

  lemma Word32Is(n: nat)
    requires n < 0x1_0000_0000
    ensures LittleEndian(Word32(n)) == n
  {
    assert Pow(256, 4) == 0x1_0000_0000;
    hide Pow, Le, LeValue;
    LeRoundTrip(n, 4);
    LeValueIs(Le(n, 4));
  }

  lemma {:induction false} LeValueBound(b: ByteString)
    ensures LeValue(b) < Pow(256, |b|)
  {
    if b != [] {
      LeValueBound(b[1..]);
    }
  }

  function Word64(n: nat): (b: ByteString)
    ensures |b| == 8
  {
    Le(n, 8)
  }

  function Word32(n: nat): (b: ByteString)
    ensures |b| == 4
  {
    Le(n, 4)
  }

  lemma Word64Injective(m: nat, n: nat)
    requires m < LIMIT64 && n < LIMIT64 && Word64(m) == Word64(n)
    ensures m == n
  {
    assert Pow(256, 8) == LIMIT64;
    hide Pow, Le;
    LeInjective(m, n, 8);
  }

  lemma Word32Injective(m: nat, n: nat)
    requires m < 0x1_0000_0000 && n < 0x1_0000_0000 && Word32(m) == Word32(n)
    ensures m == n
  {
    assert Pow(256, 4) == 0x1_0000_0000;
    hide Pow, Le;
    LeInjective(m, n, 4);
  }

  lemma LeInjective(m: nat, n: nat, w: nat)
    requires m < Pow(256, w) && n < Pow(256, w) && Le(m, w) == Le(n, w)
    ensures m == n
  {
    LeRoundTrip(m, w);
    LeRoundTrip(n, w);
  }

  // ---- The domain-separated hasher ----------------------------------------------------------

  predicate IsAscii(s: string) {
    forall i :: 0 <= i < |s| ==> s[i] as int < 128
  }

  function Ascii(s: string): (b: ByteString)
    requires IsAscii(s)
    ensures |b| == |s| && forall i :: 0 <= i < |s| ==> b[i] == s[i] as int
  {
    seq(|s|, i requires 0 <= i < |s| => s[i] as int)
  }

  /** The number in decimal, without leading zeros. */
  function Decimal(n: nat): (b: ByteString)
    ensures |b| >= 1
  {
    (if n < 10 then [] else Decimal(n / 10)) + ['0' as int + n % 10]
  }

  /** "{domain}.v{version}.{purpose}", without the last part for an empty purpose. */
  function DomainSeparationTag(domain: ByteString, version: nat, purpose: ByteString): ByteString {
    var tag := domain + ['.' as int, 'v' as int] + Decimal(version);
    if purpose == [] then tag else tag + ['.' as int] + purpose
  }

  /** | length (8, little-endian) | data | */
  function LengthPrefixed(data: ByteString): ByteString {
    Word64(|data|) + data
  }

  function AllPrefixed(chunks: seq<ByteString>): ByteString {
    if chunks == [] then [] else LengthPrefixed(chunks[0]) + AllPrefixed(chunks[1..])
  }

  lemma {:induction false} AllPrefixedSnoc(chunks: seq<ByteString>, chunk: ByteString)
    ensures AllPrefixed(chunks + [chunk]) == AllPrefixed(chunks) + LengthPrefixed(chunk)
  {
    if chunks == [] {
      assert (chunks + [chunk])[1..] == [];
    } else {
      assert (chunks + [chunk])[1..] == chunks[1..] + [chunk];
      AllPrefixedSnoc(chunks[1..], chunk);
    }
  }

  /** The digest is a function of all the bytes fed to it, which are those of the chunks so far. */
  class Hasher {
    var fed: ByteString
    ghost var chunks: seq<ByteString>

    ghost predicate Valid()
      reads this
    {
      fed == AllPrefixed(chunks)
    }

    constructor (domain: ByteString, version: nat, purpose: ByteString)
      ensures Valid() && chunks == [DomainSeparationTag(domain, version, purpose)]
    {
      var tag := DomainSeparationTag(domain, version, purpose);
      fed := LengthPrefixed(tag);
      chunks := [tag];
    }

    method Chain(data: ByteString)
      requires Valid()
      modifies this
      ensures Valid() && chunks == old(chunks) + [data]
      ensures fed == old(fed) + LengthPrefixed(data)
    {
      AllPrefixedSnoc(chunks, data);
      fed := fed + Word64(|data|);
      fed := fed + data;
      assert fed == old(fed) + (Word64(|data|) + data);
      chunks := chunks + [data];
    }
  }

  // ---- The challenge ------------------------------------------------------------------------

  type Int64 = x: int | -0x8000_0000_0000_0000 <= x < 0x8000_0000_0000_0000

  datatype Claim = Claim(key: ByteString, nonce: ByteString, version: Byte, updatedAt: Int64,
                         features: UInt32, addresses: seq<ByteString>)

  const DOMAIN := Ascii("com.tari.comms.core.peer_manager")
  const DOMAIN_VERSION := 1
  const PURPOSE := Ascii("identity_signature")

  function Tag(): ByteString { DomainSeparationTag(DOMAIN, DOMAIN_VERSION, PURPOSE) }

  /** Conversion of a signed 64-bit number to an unsigned one. */
  function Unsigned64(x: Int64): nat {
    if x < 0 then x + LIMIT64 else x
  }

  function Header(c: Claim): seq<ByteString> {
    [Tag(), c.key, c.nonce, [c.version], Word64(Unsigned64(c.updatedAt)), Word32(c.features)]
  }

  /** Everything fed to the hash, in order; each address is a chunk of its own. */
  function Chunks(c: Claim): seq<ByteString> {
    Header(c) + c.addresses
  }

  function TranscriptOf(c: Claim): ByteString {
    AllPrefixed(Chunks(c))
  }

  method ConstructChallenge(hash: ByteString -> ByteString, c: Claim) returns (challenge: ByteString)
    ensures challenge == hash(TranscriptOf(c))
  {
    hide AllPrefixed, Word64, Word32, DomainSeparationTag, Ascii;
    var hasher := new Hasher(DOMAIN, DOMAIN_VERSION, PURPOSE);
    hasher.Chain(c.key);
    hasher.Chain(c.nonce);
    hasher.Chain([c.version]);
    hasher.Chain(Word64(Unsigned64(c.updatedAt)));
    hasher.Chain(Word32(c.features));
    assert hasher.chunks == Header(c) + c.addresses[..0];
    for i := 0 to |c.addresses|
      invariant hasher.Valid() && hasher.chunks == Header(c) + c.addresses[..i]
    {
      hasher.Chain(c.addresses[i]);
    }
    assert c.addresses[..|c.addresses|] == c.addresses;
    challenge := hash(hasher.fed);
  }

  // ---- The transcript determines the claim --------------------------------------------------

  predicate AreSmall(chunks: seq<ByteString>) {
    forall i :: 0 <= i < |chunks| ==> |chunks[i]| < LIMIT64
  }

  lemma PrefixIsReadable(a: ByteString, x: ByteString, b: ByteString, y: ByteString)
    requires |a| < LIMIT64 && |b| < LIMIT64
    requires LengthPrefixed(a) + x == LengthPrefixed(b) + y
    ensures a == b && x == y
  {
    var s, t := LengthPrefixed(a) + x, LengthPrefixed(b) + y;
    hide Word64;
    assert s[..8] == Word64(|a|) && t[..8] == Word64(|b|);
    Word64Injective(|a|, |b|);
    assert s[8..8 + |a|] == a && t[8..8 + |b|] == b;
    assert s[8 + |a|..] == x && t[8 + |b|..] == y;
  }

  /** Order, boundaries and number of the chunks can all be read back. */
  lemma {:induction false} ChunksAreReadable(s: seq<ByteString>, t: seq<ByteString>)
    requires AreSmall(s) && AreSmall(t) && AllPrefixed(s) == AllPrefixed(t)
    ensures s == t
  {
    if s != [] && t != [] {
      PrefixIsReadable(s[0], AllPrefixed(s[1..]), t[0], AllPrefixed(t[1..]));
      ChunksAreReadable(s[1..], t[1..]);
      assert s == [s[0]] + s[1..] && t == [t[0]] + t[1..];
    }
  }

  predicate IsSmall(c: Claim) {
    |c.key| < LIMIT64 && |c.nonce| < LIMIT64 && AreSmall(c.addresses)
  }

  lemma SmallChunks(c: Claim)
    requires IsSmall(c)
    ensures AreSmall(Chunks(c))
  {
    hide Word64, Word32, Tag;
    TagIsShort();
    forall i | 0 <= i < |Chunks(c)|
      ensures |Chunks(c)[i]| < LIMIT64
    {
      if i >= 6 {
        assert Chunks(c)[i] == c.addresses[i - 6];
      }
    }
  }

  lemma TagIsShort()
    ensures |Tag()| < LIMIT64
  {
    hide Ascii;
    assert |Decimal(1)| == 1;
  }

  /** Two claims with the same transcript are the same claim, down to the order and boundaries of the addresses. */
  lemma TranscriptDeterminesClaim(c: Claim, d: Claim)
    requires IsSmall(c) && IsSmall(d) && TranscriptOf(c) == TranscriptOf(d)
    ensures c == d
  {
    hide Word64, Word32, AllPrefixed, Tag;
    SmallChunks(c);
    SmallChunks(d);
    ChunksAreReadable(Chunks(c), Chunks(d));
    var s, t := Chunks(c), Chunks(d);
    assert s[1] == c.key && t[1] == d.key && s[2] == c.nonce && t[2] == d.nonce;
    assert s[3] == [c.version] && t[3] == [d.version];
    assert s[4] == Word64(Unsigned64(c.updatedAt)) && t[4] == Word64(Unsigned64(d.updatedAt));
    assert s[5] == Word32(c.features) && t[5] == Word32(d.features);
    assert s[6..] == c.addresses && t[6..] == d.addresses;
    assert [c.version][0] == [d.version][0];
    Word64Injective(Unsigned64(c.updatedAt), Unsigned64(d.updatedAt));
    Word32Injective(c.features, d.features);
  }

  // ---- Reading a transcript -----------------------------------------------------------------

  /** The chunks of a transcript: eight bytes of length, least significant first, and so many bytes. */
  function ReadChunks(t: ByteString): Option<seq<ByteString>> {
    if t == [] then Some([])
    else if |t| < 8 then None
    else
      var n := LittleEndian(t[..8]);
      if |t| - 8 < n then None
      else
        match ReadChunks(t[8 + n..])
        case None => None
        case Some(rest) => Some([t[8..8 + n]] + rest)
  }

  lemma {:induction false} ReadBack(chunks: seq<ByteString>)
    requires AreSmall(chunks)
    ensures ReadChunks(AllPrefixed(chunks)) == Some(chunks)
  {
    if chunks != [] {
      hide LittleEndian, Word64;
      var t, first, rest := AllPrefixed(chunks), chunks[0], AllPrefixed(chunks[1..]);
      assert t == LengthPrefixed(first) + rest;
      Word64Is(|first|);
      hide AllPrefixed;
      ReadBack(chunks[1..]);
      assert t[..8] == Word64(|first|);
      assert t[8..8 + |first|] == first && t[8 + |first|..] == rest;
      assert chunks == [first] + chunks[1..];
    }
  }

  /** The tag that an identity signature starts from. */
  lemma TagIs()
    ensures var text := "com.tari.comms.core.peer_manager.v1.identity_signature";
            |Tag()| == |text| && forall i :: 0 <= i < |text| ==> Tag()[i] == text[i] as int
  {
    hide Ascii;
    assert Decimal(1) == ['1' as int];
    var a, b := "com.tari.comms.core.peer_manager", "identity_signature";
    assert a + ".v1." + b == "com.tari.comms.core.peer_manager.v1.identity_signature";
  }

  /**
    Read chunk by chunk, a transcript is the tag, the key, the nonce, the version byte, the timestamp
    in eight bytes as a two's complement, the features in four, and then every address in order.
   */
  lemma TranscriptReadsBack(c: Claim) returns (tag: ByteString, time: ByteString, features: ByteString)
    requires IsSmall(c)
    ensures ReadChunks(TranscriptOf(c)) == Some([tag, c.key, c.nonce, [c.version], time, features] + c.addresses)
    ensures var text := "com.tari.comms.core.peer_manager.v1.identity_signature";
            |tag| == |text| && forall i :: 0 <= i < |text| ==> tag[i] == text[i] as int
    ensures |time| == 8 && LittleEndian(time) == if c.updatedAt >= 0 then c.updatedAt else c.updatedAt + 0x1_0000_0000_0000_0000
    ensures |features| == 4 && LittleEndian(features) == c.features
  {
    hide Word64, Word32, Tag, LittleEndian, AllPrefixed, ReadChunks;
    SmallChunks(c);
    ReadBack(Chunks(c));
    TagIs();
    Word64Is(Unsigned64(c.updatedAt));
    Word32Is(c.features);
    tag, time, features := Tag(), Word64(Unsigned64(c.updatedAt)), Word32(c.features);
  }
}
