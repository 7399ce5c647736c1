/**
  Identity signatures: a Schnorr signature over the claim's transcript (p2p/identity_signature.go,
  ristretto_dh.go). The hash is any function to 64 bytes, the group any group of prime order.
 */
module IdentitySignature {
  import opened Bytes
  import opened Group
  import opened Positional
  import opened Transcript

  // ---- Scalars and keys ---------------------------------------------------------------------

  function ScalarBytes(n: nat): ByteString {
    Le(n, 32)
  }

  /** Exactly 32 bytes, below the order. */
  function CanonicalScalar(order: nat, b: ByteString): Option<nat> {
    if |b| == 32 && LeValue(b) < order then Some(LeValue(b)) else None
  }

  /** Exactly 64 bytes, reduced. */
  function UniformScalar(order: nat, b: ByteString): Option<nat>
    requires order > 0
  {
    if |b| == 64 then Some(Reduce(order, LeValue(b))) else None
  }

  lemma ScalarRoundTrip(order: nat, n: nat)
    requires n < order <= Pow(256, 32)
    ensures CanonicalScalar(order, ScalarBytes(n)) == Some(n)
  {
    hide Pow, Le, LeValue;
    LeRoundTrip(n, 32);
  }

  /** Exactly the 32 bytes whose number, the least significant byte first, is below the order. */
  lemma CanonicalScalarIs(order: nat, b: ByteString)
    ensures CanonicalScalar(order, b)
         == if |b| == 32 && LittleEndian(b) < order then Some(LittleEndian(b)) else None
  {
    LeValueIs(b);
  }

  /** Any 64 bytes give the scalar congruent to their number, the least significant byte first. */
  lemma UniformScalarIs(order: nat, b: ByteString)
    requires order > 0
    ensures UniformScalar(order, b).Some? <==> |b| == 64
    ensures |b| == 64 ==>
              var v := UniformScalar(order, b).value;
              v < order && (v - LittleEndian(b)) % order == 0
  {
    LeValueIs(b);
    hide LeValue, LittleEndian;
    if |b| == 64 {
      var v := UniformScalar(order, b).value;
      RemainderUnique(v, 0, v, order);
      Congruent(v, LittleEndian(b), order);
    }
  }

  /** Two digests give the same scalar exactly if they are congruent as numbers. */
  lemma SameScalar(order: nat, b: ByteString, c: ByteString)
    requires order > 0 && |b| == 64 && |c| == 64
    ensures UniformScalar(order, b) == UniformScalar(order, c) <==> (LittleEndian(b) - LittleEndian(c)) % order == 0
  {
    LeValueIs(b);
    LeValueIs(c);
    hide LeValue, LittleEndian;
    Congruent(LittleEndian(b), LittleEndian(c), order);
  }

  datatype Keypair = Keypair(secret: ByteString, public: ByteString)

  type Hash = ByteString -> ByteString

  ghost predicate Digest(hash: Hash) {
    forall b :: |hash(b)| == 64
  }

  datatype Error = MissingSignature | BadChallenge | BadScalar | BadNonce | BadKey

  /** Fails only on a seed of the wrong size. */
  function GenerateKeypair<P>(g: Group<P>, seed: ByteString): Result<Keypair, Error>
    requires g.order > 0
  {
    match UniformScalar(g.order, seed)
    case None => Err(BadScalar)
    case Some(n) => Ok(Keypair(ScalarBytes(n), g.encode(Mul(g, n, g.base))))
  }

  ghost predicate Matches<P(!new)>(g: Group<P>, keys: Keypair) {
    var secret := CanonicalScalar(g.order, keys.secret);
    secret.Some? && keys.public == g.encode(Mul(g, secret.value, g.base))
  }

  /**
    The secret is the scalar congruent to the 64 random bytes as a number, in its canonical form, and
    the public key belongs to it. Seeds of any other size are refused.
   */
  lemma GeneratedKeypairMatches<P(!new)>(g: Group<P>, seed: ByteString)
    requires PrimeOrder(g)
    ensures GenerateKeypair(g, seed).Ok? <==> |seed| == 64
    ensures |seed| == 64 ==>
              var keys := GenerateKeypair(g, seed).value;
              && Matches(g, keys)
              && |keys.secret| == 32 && (LittleEndian(keys.secret) - LittleEndian(seed)) % g.order == 0
  {
    hide Pow, Le, LeValue, Mul, LittleEndian, IsPrime, Reduce;
    LawsAt(g, g.base, g.base, g.base);
    if |seed| == 64 {
      var v := UniformScalar(g.order, seed).value;
      ScalarRoundTrip(g.order, v);
      CanonicalScalarIs(g.order, ScalarBytes(v));
      UniformScalarIs(g.order, seed);
    }
  }

  // ---- Key agreement ------------------------------------------------------------------------

  /** The shared secret of one side's secret and the other's public key, put through a key derivation. */
  function Agree<P>(g: Group<P>, derive: ByteString -> ByteString, secret: ByteString, public: ByteString)
    : Result<ByteString, Error>
  {
    var scalar := CanonicalScalar(g.order, secret);
    var point := g.decode(public);
    if scalar.None? then Err(BadScalar)
    else if point.None? then Err(BadKey)
    else Ok(derive(g.encode(Mul(g, scalar.value, point.value))))
  }

  function Product(a: ByteString, b: ByteString): nat {
    LittleEndian(a) * LittleEndian(b)
  }

  /** Both sides of a handshake derive the same bytes: those of the product of their secrets times the base. */
  lemma BothSidesAgree<P(!new)>(g: Group<P>, derive: ByteString -> ByteString, mine: Keypair, theirs: Keypair)
    requires PrimeOrder(g) && Matches(g, mine) && Matches(g, theirs)
    ensures Agree(g, derive, mine.secret, theirs.public)
         == Ok(derive(g.encode(Mul(g, Product(mine.secret, theirs.secret), g.base))))
    ensures Agree(g, derive, mine.secret, theirs.public) == Agree(g, derive, theirs.secret, mine.public)
  {
    hide Mul, LeValue, Pow, IsPrime, LittleEndian;
    CanonicalScalarIs(g.order, mine.secret);
    CanonicalScalarIs(g.order, theirs.secret);
    var a, b := LittleEndian(mine.secret), LittleEndian(theirs.secret);
    DecodeEncode(g, Mul(g, a, g.base));
    DecodeEncode(g, Mul(g, b, g.base));
    hide PrimeOrder, CanonicalScalar;
    MulMul(g, a, b, g.base);
    MulMul(g, b, a, g.base);
    assert a * b == b * a;
  }

  /** A secret that is no canonical scalar is refused first, then a key that encodes no element. */
  lemma AgreeRefuses<P(!new)>(g: Group<P>, derive: ByteString -> ByteString, secret: ByteString, public: ByteString)
    ensures Agree(g, derive, secret, public) == Err(BadScalar) <==> !(|secret| == 32 && LittleEndian(secret) < g.order)
    ensures Agree(g, derive, secret, public) == Err(BadKey) <==>
              |secret| == 32 && LittleEndian(secret) < g.order && g.decode(public).None?
  {
    hide LeValue, LittleEndian, Mul;
    CanonicalScalarIs(g.order, secret);
  }

  lemma DecodeEncode<P(!new)>(g: Group<P>, x: P)
    requires PrimeOrder(g)
    ensures g.decode(g.encode(x)) == Some(x)
  {
    hide Mul, Pow, IsPrime;
  }

  // ---- Signing ------------------------------------------------------------------------------

  const VERSION := 0

  datatype Signature = Signature(version: UInt32, scalar: ByteString, publicNonce: ByteString, updatedAt: Int64)

  /** The fields of the claim a signature is about; the low byte of the version is all that is hashed. */
  function ClaimOf(key: ByteString, features: UInt32, addresses: seq<ByteString>, sig: Signature): Claim {
    Claim(key, sig.publicNonce, sig.version % 256, sig.updatedAt, features, addresses)
  }

  function ChallengeScalar<P>(g: Group<P>, hash: Hash, c: Claim): Option<nat>
    requires g.order > 0
  {
    UniformScalar(g.order, hash(TranscriptOf(c)))
  }

  function Verify<P>(g: Group<P>, hash: Hash, key: ByteString, features: UInt32, addresses: seq<ByteString>,
                     sig: Option<Signature>): Result<bool, Error>
    requires g.order > 0
  {
    if sig.None? then Err(MissingSignature)
    else
      var e := ChallengeScalar(g, hash, ClaimOf(key, features, addresses, sig.value));
      var s := CanonicalScalar(g.order, sig.value.scalar);
      var nonce := g.decode(sig.value.publicNonce);
      var public := g.decode(key);
      if e.None? then Err(BadChallenge)
      else if s.None? then Err(BadScalar)
      else if nonce.None? then Err(BadNonce)
      else if public.None? then Err(BadKey)
      else Ok(g.encode(Mul(g, s.value, g.base)) == g.encode(g.add(nonce.value, Mul(g, e.value, public.value))))
  }

  method VerifyIdentitySignature<P>(g: Group<P>, hash: Hash, key: ByteString, features: UInt32,
                                    addresses: seq<ByteString>, sig: Option<Signature>)
    returns (r: Result<bool, Error>)
    requires g.order > 0
    ensures r == Verify(g, hash, key, features, addresses, sig)
  {
    hide Mul, TranscriptOf, LeValue;
    if sig.None? {
      return Err(MissingSignature);
    }
    var claim := Claim(key, sig.value.publicNonce, sig.value.version % 256, sig.value.updatedAt, features, addresses);
    var challenge := ConstructChallenge(hash, claim);
    var e := UniformScalar(g.order, challenge);
    if e.None? {
      return Err(BadChallenge);
    }
    var s := CanonicalScalar(g.order, sig.value.scalar);
    if s.None? {
      return Err(BadScalar);
    }
    var nonce := g.decode(sig.value.publicNonce);
    if nonce.None? {
      return Err(BadNonce);
    }
    var public := g.decode(key);
    if public.None? {
      return Err(BadKey);
    }
    var left := Mul(g, s.value, g.base);
    var right := g.add(nonce.value, Mul(g, e.value, public.value));
    r := Ok(g.encode(left) == g.encode(right));
  }

  function ScalarMul(order: nat, a: nat, b: nat): nat {
    Reduce(order, a * b)
  }

  function ScalarAdd(order: nat, a: nat, b: nat): nat {
    Reduce(order, a + b)
  }

  /** The signing equation meets the verifying one. */
  lemma SigningEquation<P(!new)>(g: Group<P>, e: nat, secret: nat, k: nat)
    requires PrimeOrder(g)
    ensures Mul(g, ScalarAdd(g.order, ScalarMul(g.order, e, secret), k), g.base)
         == g.add(Mul(g, k, g.base), Mul(g, e, Mul(g, secret, g.base)))
  {
    hide PrimeOrder, Mul, Reduce;
    Distribute(e, secret);
    var product := ScalarMul(g.order, e, secret);
    MulReduce(g, e * secret, g.base);
    MulReduce(g, product + k, g.base);
    MulAdd(g, product, k, g.base);
    MulMul(g, e, secret, g.base);
    LawsAt(g, Mul(g, product, g.base), Mul(g, k, g.base), g.base);
  }

  /** What is built with a matching pair of keys verifies, and only a secret that is no scalar is refused. */
  method BuildIdentitySignature<P(!new)>(g: Group<P>, hash: Hash, keys: Keypair, nonceSeed: ByteString,
                                         now: Int64, features: UInt32, addresses: seq<ByteString>)
    returns (r: Result<Signature, Error>)
    requires PrimeOrder(g) && Digest(hash) && |nonceSeed| == 64
    ensures r.Ok? <==> CanonicalScalar(g.order, keys.secret).Some?
    ensures r.Err? ==> r.error == BadScalar
    ensures r.Ok? ==> r.value.version == 0 && r.value.updatedAt == now
                      && GenerateKeypair(g, nonceSeed).Ok?
                      && r.value.publicNonce == GenerateKeypair(g, nonceSeed).value.public
    ensures Matches(g, keys) ==> r.Ok? && Verify(g, hash, keys.public, features, addresses, Some(r.value)) == Ok(true)
  {
    hide Mul, TranscriptOf, LeValue, Le, Pow;
    var secret := CanonicalScalar(g.order, keys.secret);
    if secret.None? {
      return Err(BadScalar);
    }
    GeneratedKeypairMatches(g, nonceSeed);
    var nonce := GenerateKeypair(g, nonceSeed).value;
    var k := CanonicalScalar(g.order, nonce.secret);
    var claim := Claim(keys.public, nonce.public, VERSION, now, features, addresses);
    var challenge := ConstructChallenge(hash, claim);
    var e := UniformScalar(g.order, challenge).value;
    var s := ScalarMul(g.order, e, secret.value);
    s := ScalarAdd(g.order, s, k.value);
    SigningEquation(g, e, secret.value, k.value);
    ScalarRoundTrip(g.order, s);
    r := Ok(Signature(VERSION, ScalarBytes(s), nonce.public, now));
  }

  // ---- What a signature is good for ---------------------------------------------------------

  /** The number of the digest that a claim is signed through. */
  function DigestNumber(hash: Hash, key: ByteString, features: UInt32, addresses: seq<ByteString>, sig: Signature): nat {
    LittleEndian(hash(TranscriptOf(
      Claim(key, sig.publicNonce, sig.version % 256, sig.updatedAt, features, addresses))))
  }

  /** A signature that can be judged at all: a canonical scalar, and encodings of two elements. */
  predicate IsReadable<P>(g: Group<P>, key: ByteString, sig: Signature) {
    && |sig.scalar| == 32 && LittleEndian(sig.scalar) < g.order
    && g.decode(sig.publicNonce).Some? && g.decode(key).Some?
  }

  /**
    A readable signature is valid exactly if its scalar times the base is the nonce plus the digest,
    as a number, times the key. Of an unreadable one the first malformed part is reported.
   */
  lemma VerifyMeans<P(!new)>(g: Group<P>, hash: Hash, key: ByteString, features: UInt32, addresses: seq<ByteString>,
                             sig: Signature)
    requires PrimeOrder(g) && Digest(hash)
    ensures Verify(g, hash, key, features, addresses, None) == Err(MissingSignature)
    ensures var r := Verify(g, hash, key, features, addresses, Some(sig));
            if IsReadable(g, key, sig) then
              r == Ok(Mul(g, LittleEndian(sig.scalar), g.base)
                      == g.add(g.decode(sig.publicNonce).value,
                               Mul(g, DigestNumber(hash, key, features, addresses, sig), g.decode(key).value)))
            else
              r == Err(if !(|sig.scalar| == 32 && LittleEndian(sig.scalar) < g.order) then BadScalar
                       else if g.decode(sig.publicNonce).None? then BadNonce else BadKey)
  {
    hide Mul, TranscriptOf, LeValue, Le, Pow, IsPrime, Reduce, LittleEndian;
    CanonicalScalarIs(g.order, sig.scalar);
    var digest := hash(TranscriptOf(ClaimOf(key, features, addresses, sig)));
    LeValueIs(digest);
    if IsReadable(g, key, sig) {
      var nonce, public := g.decode(sig.publicNonce).value, g.decode(key).value;
      MulReduce(g, LittleEndian(digest), public);
      var left := Mul(g, LittleEndian(sig.scalar), g.base);
      var right := g.add(nonce, Mul(g, LittleEndian(digest), public));
      if g.encode(left) == g.encode(right) {
        EncodeInjective(g, left, right);
      }
    }
  }

  /** The same proof: versions and timestamps, which are part of the claim, may differ. */
  predicate SameProof(sig: Signature, sig': Signature) {
    sig.scalar == sig'.scalar && sig.publicNonce == sig'.publicNonce
  }

  /**
    A proof that is valid for one claim of a key other than zero is valid for another, in whichever of
    version, timestamp, features and addresses they differ, exactly when the two digests are congruent
    as numbers, modulo the order.
   */
  lemma ValidForBothIff<P(!new)>(g: Group<P>, hash: Hash, key: ByteString, sig: Signature, sig': Signature,
                                 features: UInt32, addresses: seq<ByteString>,
                                 features': UInt32, addresses': seq<ByteString>)
    requires PrimeOrder(g) && Digest(hash) && g.decode(key) != Some(g.zero)
    requires SameProof(sig, sig')
    requires Verify(g, hash, key, features, addresses, Some(sig)) == Ok(true)
    ensures Verify(g, hash, key, features', addresses', Some(sig')) == Ok(true)
       <==> (DigestNumber(hash, key, features, addresses, sig)
             - DigestNumber(hash, key, features', addresses', sig')) % g.order == 0
  {
    hide Mul, TranscriptOf, LeValue, Le, Pow, LittleEndian, Reduce, IsPrime;
    SameScalar(g.order, hash(TranscriptOf(ClaimOf(key, features, addresses, sig))),
               hash(TranscriptOf(ClaimOf(key, features', addresses', sig'))));
    var e := ChallengeScalar(g, hash, ClaimOf(key, features, addresses, sig)).value;
    var e' := ChallengeScalar(g, hash, ClaimOf(key, features', addresses', sig')).value;
    var nonce, public := g.decode(sig.publicNonce).value, g.decode(key).value;
    if Verify(g, hash, key, features', addresses', Some(sig')) == Ok(true) {
      EncodeInjective(g, g.add(nonce, Mul(g, e, public)), g.add(nonce, Mul(g, e', public)));
      Cancel(g, nonce, Mul(g, e, public), Mul(g, e', public));
      MulInjective(g, e, e', public);
    }
  }

  lemma EncodeInjective<P(!new)>(g: Group<P>, x: P, y: P)
    requires PrimeOrder(g) && g.encode(x) == g.encode(y)
    ensures x == y
  {
    hide *;
    DecodeEncode(g, x);
    DecodeEncode(g, y);
  }

  lemma KeysAreSmall<P(!new)>(g: Group<P>, b: ByteString)
    requires PrimeOrder(g) && g.decode(b).Some?
    ensures |b| == 32
  {
    hide Mul, Pow, IsPrime;
    assert g.encode(g.decode(b).value) == b;
  }

  /** One proof for two different claims is a collision: different transcripts with congruent digests. */
  lemma TwoClaimsAreACollision<P(!new)>(g: Group<P>, hash: Hash, key: ByteString, sig: Signature, sig': Signature,
                                        features: UInt32, addresses: seq<ByteString>,
                                        features': UInt32, addresses': seq<ByteString>)
    requires PrimeOrder(g) && Digest(hash) && g.decode(key) != Some(g.zero)
    requires SameProof(sig, sig')
    requires AreSmall(addresses) && AreSmall(addresses')
    requires Verify(g, hash, key, features, addresses, Some(sig)) == Ok(true)
    requires Verify(g, hash, key, features', addresses', Some(sig')) == Ok(true)
    requires (sig.version % 256, sig.updatedAt, features, addresses)
          != (sig'.version % 256, sig'.updatedAt, features', addresses')
    ensures var t := TranscriptOf(ClaimOf(key, features, addresses, sig));
            var t' := TranscriptOf(ClaimOf(key, features', addresses', sig'));
            t != t' && (LittleEndian(hash(t)) - LittleEndian(hash(t'))) % g.order == 0
  {
    hide Mul, TranscriptOf, LeValue, Le, Pow, IsPrime, Reduce, LittleEndian;
    ValidForBothIff(g, hash, key, sig, sig', features, addresses, features', addresses');
    var c, c' := ClaimOf(key, features, addresses, sig), ClaimOf(key, features', addresses', sig');
    KeysAreSmall(g, key);
    KeysAreSmall(g, sig.publicNonce);
    hide PrimeOrder;
    if TranscriptOf(c) == TranscriptOf(c') {
      TranscriptDeterminesClaim(c, c');
    }
  }

  /** The key zero is different: whatever verifies for one claim verifies for all. */
  lemma ZeroKeySignsEverything<P(!new)>(g: Group<P>, hash: Hash, key: ByteString, sig: Signature, sig': Signature,
                                        features: UInt32, addresses: seq<ByteString>,
                                        features': UInt32, addresses': seq<ByteString>)
    requires PrimeOrder(g) && Digest(hash) && g.decode(key) == Some(g.zero)
    requires SameProof(sig, sig')
    requires Verify(g, hash, key, features, addresses, Some(sig)) == Ok(true)
    ensures Verify(g, hash, key, features', addresses', Some(sig')) == Ok(true)
  {
    hide Mul, TranscriptOf, LeValue, Le, Pow;
    MulZero(g, ChallengeScalar(g, hash, ClaimOf(key, features, addresses, sig)).value);
    MulZero(g, ChallengeScalar(g, hash, ClaimOf(key, features', addresses', sig')).value);
  }

  /** For one nonce and one claim there is exactly one scalar that verifies. */
  lemma ScalarIsUnique<P(!new)>(g: Group<P>, hash: Hash, key: ByteString, features: UInt32,
                                addresses: seq<ByteString>, sig: Signature, scalar: ByteString)
    requires PrimeOrder(g) && Digest(hash)
    requires Verify(g, hash, key, features, addresses, Some(sig)) == Ok(true)
    requires Verify(g, hash, key, features, addresses, Some(sig.(scalar := scalar))) == Ok(true)
    ensures scalar == sig.scalar
  {
    hide Mul, TranscriptOf, LeValue, Le, Pow;
    var s, s' := CanonicalScalar(g.order, sig.scalar).value, CanonicalScalar(g.order, scalar).value;
    EncodeInjective(g, Mul(g, s, g.base), Mul(g, s', g.base));
    MulInjective(g, s, s', g.base);
    LeValueRoundTrip(sig.scalar);
    LeValueRoundTrip(scalar);
  }

  /**
    Only the version's low byte is signed: a change of version leaves the transcript as it is exactly
    if it leaves that byte as it is, and then the signature verifies as before.
   */
  lemma VersionHighBytesAreUnsigned<P(!new)>(g: Group<P>, hash: Hash, key: ByteString, features: UInt32,
                                             addresses: seq<ByteString>, sig: Signature, version: UInt32)
    requires g.order > 0
    ensures var c := ClaimOf(key, features, addresses, sig);
            var d := ClaimOf(key, features, addresses, sig.(version := version));
            IsSmall(c) ==> (TranscriptOf(d) == TranscriptOf(c) <==> version % 256 == sig.version % 256)
    ensures version % 256 == sig.version % 256 ==>
              Verify(g, hash, key, features, addresses, Some(sig.(version := version)))
              == Verify(g, hash, key, features, addresses, Some(sig))
  {
    hide Mul, TranscriptOf, LeValue, Le, Pow;
    var c := ClaimOf(key, features, addresses, sig);
    var d := ClaimOf(key, features, addresses, sig.(version := version));
    if IsSmall(c) && TranscriptOf(d) == TranscriptOf(c) {
      TranscriptDeterminesClaim(d, c);
    }
    assert version % 256 == sig.version % 256 ==> d == c;
  }
}
