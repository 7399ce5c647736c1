/** Tari addresses and their byte encoding (address/address.go, dual_address.go, single_address.go). */
module Address {
  import opened Bytes
  import DammSum

  // ---- Parts of an address ------------------------------------------------------------------

  datatype Network = MainNet | StageNet | NextNet | LocalNet | Igor | Esmeralda

  function NetworkByte(n: Network): (b: Byte)
    ensures b < 58
  {
    match n
    case MainNet => 0x00
    case StageNet => 0x01
    case NextNet => 0x02
    case LocalNet => 0x10
    case Igor => 0x24
    case Esmeralda => 0x26
  }

  function NetworkFromByte(b: Byte): Option<Network> {
    if b == 0x00 then Some(MainNet)
    else if b == 0x01 then Some(StageNet)
    else if b == 0x02 then Some(NextNet)
    else if b == 0x10 then Some(LocalNet)
    else if b == 0x24 then Some(Igor)
    else if b == 0x26 then Some(Esmeralda)
    else None
  }

  datatype Features = Features(paymentId: bool, interactive: bool, oneSided: bool) {
    /** Bits 2, 1 and 0. */
    function AsByte(): (b: Byte)
      ensures b < 8
    {
      (if paymentId then 4 else 0) + (if interactive then 2 else 0) + (if oneSided then 1 else 0)
    }

    function Combine(other: Features): Features {
      Features(paymentId || other.paymentId, interactive || other.interactive, oneSided || other.oneSided)
    }
  }

  const PAYMENT_ID := Features(true, false, false)

  /** Bytes with a bit outside the three flags are refused. */
  function FeaturesFromBits(b: Byte): Option<Features> {
    if b >= 8 then None else Some(Features(b / 4 == 1, b / 2 % 2 == 1, b % 2 == 1))
  }

  type Key = ByteString

  const PUBLIC_KEY_SIZE := 32

  /** Which 32-byte strings are canonical encodings of a Ristretto255 element (RFC 9496, section 4.3.1). */
  type Canonicity = ByteString -> bool

  function KeyFromCanonicalBytes(canonical: Canonicity, b: ByteString): Option<Key> {
    if |b| == PUBLIC_KEY_SIZE && canonical(b) then Some(b) else None
  }

  datatype Address =
    | Dual(network: Network, features: Features, viewKey: Key, spendKey: Key, memo: ByteString)
    | Single(network: Network, features: Features, spendKey: Key)

  const SINGLE_SIZE := 35
  const DUAL_SIZE := 67
  const MAX_MEMO_SIZE := 256

  predicate IsKey(canonical: Canonicity, k: Key) {
    |k| == PUBLIC_KEY_SIZE && canonical(k)
  }

  predicate Valid(canonical: Canonicity, a: Address) {
    && IsKey(canonical, a.spendKey)
    && (a.Dual? ==> IsKey(canonical, a.viewKey) && |a.memo| <= MAX_MEMO_SIZE)
  }

  datatype AddressError =
    | InvalidSize | InvalidNetwork | InvalidFeatures | InvalidChecksum | InvalidEmoji | InvalidCharacter
    | CannotRecoverPublicKey | CannotRecoverNetwork | CannotRecoverFeature | InvalidAddressString
    | PaymentIdTooLarge | PaymentIdNotSupported
    | KeysDoNotMatch | NetworksDoNotMatch | ViewKeysDoNotMatch

  // ---- Construction -------------------------------------------------------------------------

  /** A memo, even an empty one, sets the payment-id feature; no memo leaves the features alone. */
  function NewDual(viewKey: Key, spendKey: Key, network: Network, features: Features,
                   memo: Option<ByteString>): Result<Address, AddressError> {
    match memo
    case None => Ok(Dual(network, features, viewKey, spendKey, []))
    case Some(data) =>
      if |data| > MAX_MEMO_SIZE then Err(PaymentIdTooLarge)
      else Ok(Dual(network, features.Combine(PAYMENT_ID), viewKey, spendKey, data))
  }

  function WithMemo(a: Address, data: ByteString): Result<Address, AddressError> {
    if !a.Dual? then Err(PaymentIdNotSupported)
    else if |data| > MAX_MEMO_SIZE then Err(PaymentIdTooLarge)
    else Ok(a.(features := a.features.Combine(PAYMENT_ID), memo := data))
  }

  // ---- Bytes --------------------------------------------------------------------------------

  /** Everything but the check byte. */
  function Body(a: Address): ByteString {
    [NetworkByte(a.network), a.features.AsByte()]
    + (if a.Dual? then a.viewKey + a.spendKey + a.memo else a.spendKey)
  }

  function ToBytes(a: Address): ByteString {
    Body(a) + [DammSum.Checksum(Body(a))]
  }

  function SingleFromBytes(canonical: Canonicity, b: ByteString): Result<Address, AddressError> {
    if |b| != SINGLE_SIZE then Err(InvalidSize)
    else if DammSum.ValidateChecksum(b).Err? then Err(InvalidChecksum)
    else
      var network := NetworkFromByte(b[0]);
      if network.None? then Err(InvalidNetwork)
      else
        var features := FeaturesFromBits(b[1]);
        if features.None? then Err(InvalidFeatures)
        else
          var spendKey := KeyFromCanonicalBytes(canonical, b[2..34]);
          if spendKey.None? then Err(CannotRecoverPublicKey)
          else Ok(Single(network.value, features.value, spendKey.value))
  }

  function DualFromBytes(canonical: Canonicity, b: ByteString): Result<Address, AddressError> {
    if |b| < DUAL_SIZE || |b| > DUAL_SIZE + MAX_MEMO_SIZE then Err(InvalidSize)
    else if DammSum.ValidateChecksum(b).Err? then Err(InvalidChecksum)
    else
      var network := NetworkFromByte(b[0]);
      if network.None? then Err(InvalidNetwork)
      else
        var features := FeaturesFromBits(b[1]);
        if features.None? then Err(InvalidFeatures)
        else
          var viewKey := KeyFromCanonicalBytes(canonical, b[2..34]);
          var spendKey := KeyFromCanonicalBytes(canonical, b[34..66]);
          if viewKey.None? || spendKey.None? then Err(CannotRecoverPublicKey)
          else Ok(Dual(network.value, features.value, viewKey.value, spendKey.value, b[66..|b| - 1]))
  }

  function FromBytes(canonical: Canonicity, b: ByteString): Result<Address, AddressError> {
    if !(|b| == SINGLE_SIZE || DUAL_SIZE <= |b| <= DUAL_SIZE + MAX_MEMO_SIZE) then Err(InvalidSize)
    else if |b| == SINGLE_SIZE then SingleFromBytes(canonical, b)
    else DualFromBytes(canonical, b)
  }

  // ---- What makes up the bytes --------------------------------------------------------------

  /** The wire bytes, in the order MainNet, StageNet, NextNet, LocalNet, Igor, Esmeralda; there are no others. */
  lemma NetworkBytes(b: Byte)
    ensures NetworkFromByte(0x00) == Some(MainNet) && NetworkFromByte(0x01) == Some(StageNet)
    ensures NetworkFromByte(0x02) == Some(NextNet) && NetworkFromByte(0x10) == Some(LocalNet)
    ensures NetworkFromByte(0x24) == Some(Igor) && NetworkFromByte(0x26) == Some(Esmeralda)
    ensures NetworkFromByte(b).Some? <==> b in {0x00, 0x01, 0x02, 0x10, 0x24, 0x26}
  {
  }

  /** One-sided is bit 0, interactive bit 1 and payment id bit 2; combining is a bitwise or. */
  lemma FeatureBits(f: Features, g: Features, b: Byte)
    ensures f.oneSided <==> f.AsByte() % 2 == 1
    ensures f.interactive <==> f.AsByte() / 2 % 2 == 1
    ensures f.paymentId <==> f.AsByte() / 4 % 2 == 1
    ensures var c := f.Combine(g).AsByte();
            && (c % 2 == 1 <==> f.AsByte() % 2 == 1 || g.AsByte() % 2 == 1)
            && (c / 2 % 2 == 1 <==> f.AsByte() / 2 % 2 == 1 || g.AsByte() / 2 % 2 == 1)
            && (c / 4 % 2 == 1 <==> f.AsByte() / 4 % 2 == 1 || g.AsByte() / 4 % 2 == 1)
    ensures FeaturesFromBits(b).Some? <==> b < 8
  {
    ThreeBits(f);
    ThreeBits(g);
    ThreeBits(f.Combine(g));
  }

  lemma ThreeBits(f: Features)
    ensures f.oneSided <==> f.AsByte() % 2 == 1
    ensures f.interactive <==> f.AsByte() / 2 % 2 == 1
    ensures f.paymentId <==> f.AsByte() / 4 % 2 == 1
  {
  }

  /** Where everything is: network, features, then the view key of a dual address, the spend key, the memo, the check byte. */
  lemma Layout(canonical: Canonicity, a: Address)
    requires Valid(canonical, a)
    ensures var b := ToBytes(a);
            && |b| == (if a.Dual? then 67 + |a.memo| else 35)
            && NetworkFromByte(b[0]) == Some(a.network) && FeaturesFromBits(b[1]) == Some(a.features)
            && (a.Dual? ==> b[2..34] == a.viewKey && b[34..66] == a.spendKey && b[66..66 + |a.memo|] == a.memo)
            && (a.Single? ==> b[2..34] == a.spendKey)
            && b[|b| - 1] == DammSum.Checksum(b[..|b| - 1])
  {
    NetworkRoundTrip(a.network, 0);
    FeaturesRoundTrip(a.features, 0);
    hide NetworkByte, NetworkFromByte, FeaturesFromBits, Features.AsByte, DammSum.Checksum;
    var b := ToBytes(a);
    assert b[..|b| - 1] == Body(a);
  }

  /**
    Bytes are refused for their size, for their checksum, for their network, for their features and for
    their keys, whichever comes first, and only for these.
   */
  lemma WhyBytesAreRefused(canonical: Canonicity, b: ByteString)
    ensures FromBytes(canonical, b).Err? ==>
              FromBytes(canonical, b).error
              == if !(|b| == 35 || 67 <= |b| <= 67 + 256) then InvalidSize
                 else if DammSum.Checksum(b) != 0 then InvalidChecksum
                 else if NetworkFromByte(b[0]).None? then InvalidNetwork
                 else if b[1] >= 8 then InvalidFeatures
                 else CannotRecoverPublicKey
    ensures FromBytes(canonical, b).Ok? <==>
              && (|b| == 35 || 67 <= |b| <= 67 + 256)
              && DammSum.Checksum(b) == 0
              && NetworkFromByte(b[0]).Some? && b[1] < 8
              && canonical(b[2..34]) && (|b| != 35 ==> canonical(b[34..66]))
    ensures DualFromBytes(canonical, b) == if |b| == 35 then Err(InvalidSize) else FromBytes(canonical, b)
    ensures SingleFromBytes(canonical, b) == if |b| != 35 then Err(InvalidSize) else FromBytes(canonical, b)
  {
    hide DammSum.Checksum, NetworkFromByte;
  }

  // ---- Memos --------------------------------------------------------------------------------

  /**
    A dual address comes to be exactly with a memo that is not too long, and is then valid. It has the
    keys, the network and the flags given, and the payment-id flag if there is a memo, even an empty one.
   */
  lemma NewDualIsValid(canonical: Canonicity, viewKey: Key, spendKey: Key, network: Network, features: Features,
                       memo: Option<ByteString>)
    requires IsKey(canonical, viewKey) && IsKey(canonical, spendKey)
    ensures var r := NewDual(viewKey, spendKey, network, features, memo);
            if memo.Some? && |memo.value| > 256 then r == Err(PaymentIdTooLarge)
            else
              && r.Ok? && Valid(canonical, r.value) && r.value.Dual?
              && r.value.network == network && r.value.viewKey == viewKey && r.value.spendKey == spendKey
              && r.value.memo == (if memo.None? then [] else memo.value)
              && (r.value.features.paymentId <==> features.paymentId || memo.Some?)
              && (r.value.features.interactive <==> features.interactive)
              && (r.value.features.oneSided <==> features.oneSided)
  {
  }

  /**
    A memo goes with a dual address only. It gives a valid address, marked as carrying one and otherwise
    the same, which survives its byte form; a later memo replaces an earlier one.
   */
  lemma MemoSurvivesBytes(canonical: Canonicity, a: Address, data: ByteString, later: ByteString)
    requires Valid(canonical, a) && |later| <= 256
    ensures WithMemo(a, data).Ok? <==> a.Dual? && |data| <= 256
    ensures WithMemo(a, data) == Err(PaymentIdNotSupported) <==> a.Single?
    ensures WithMemo(a, data) == Err(PaymentIdTooLarge) <==> a.Dual? && |data| > 256
    ensures WithMemo(a, data).Ok? ==>
              var b := WithMemo(a, data).value;
              && Valid(canonical, b) && b.Dual? && b.memo == data
              && b.network == a.network && b.viewKey == a.viewKey && b.spendKey == a.spendKey
              && b.features.paymentId
              && (b.features.interactive <==> a.features.interactive)
              && (b.features.oneSided <==> a.features.oneSided)
              && FromBytes(canonical, ToBytes(b)) == Ok(b)
              && WithMemo(b, later) == WithMemo(a, later)
  {
    hide ToBytes, FromBytes;
    if WithMemo(a, data).Ok? {
      FromToBytes(canonical, WithMemo(a, data).value);
    }
  }

  lemma NetworkRoundTrip(n: Network, b: Byte)
    ensures NetworkFromByte(NetworkByte(n)) == Some(n)
    ensures NetworkFromByte(b).Some? ==> NetworkByte(NetworkFromByte(b).value) == b
  {
  }

  lemma FeaturesRoundTrip(f: Features, b: Byte)
    ensures FeaturesFromBits(f.AsByte()) == Some(f)
    ensures FeaturesFromBits(b).Some? ==> FeaturesFromBits(b).value.AsByte() == b
  {
  }

  lemma SizeOfBytes(canonical: Canonicity, a: Address)
    requires Valid(canonical, a)
    ensures |ToBytes(a)| == if a.Dual? then DUAL_SIZE + |a.memo| else SINGLE_SIZE
  {
  }

  /** Every valid address decodes from its own bytes, with its kind preserved. */
  lemma FromToBytes(canonical: Canonicity, a: Address)
    requires Valid(canonical, a)
    ensures FromBytes(canonical, ToBytes(a)) == Ok(a)
    ensures a.Single? ==> SingleFromBytes(canonical, ToBytes(a)) == Ok(a)
    ensures a.Dual? ==> DualFromBytes(canonical, ToBytes(a)) == Ok(a)
  {
    hide DammSum.Checksum;
    var b := ToBytes(a);
    DammSum.CheckByteUnique(Body(a), DammSum.Checksum(Body(a)));
    NetworkRoundTrip(a.network, 0);
    FeaturesRoundTrip(a.features, 0);
    assert b[0] == NetworkByte(a.network) && b[1] == a.features.AsByte();
    if a.Dual? {
      assert b[2..34] == a.viewKey && b[34..66] == a.spendKey && b[66..|b| - 1] == a.memo;
    } else {
      assert b[2..34] == a.spendKey;
    }
  }

  /** Every byte string that decodes is the encoding of its result, which is a valid address. */
  lemma ToFromBytes(canonical: Canonicity, b: ByteString)
    requires FromBytes(canonical, b).Ok?
    ensures Valid(canonical, FromBytes(canonical, b).value)
    ensures ToBytes(FromBytes(canonical, b).value) == b
  {
    hide DammSum.Checksum, DammSum.ValidateChecksum, NetworkByte;
    var a := FromBytes(canonical, b).value;
    var body := b[..|b| - 1];
    assert b == body + [b[|b| - 1]];
    NetworkRoundTrip(a.network, b[0]);
    FeaturesRoundTrip(a.features, b[1]);
    if a.Dual? {
      assert body == [b[0], b[1]] + (b[2..34] + b[34..66] + b[66..|b| - 1]);
    } else {
      assert body == [b[0], b[1]] + b[2..34];
    }
    DammSum.CheckByteUnique(body, b[|b| - 1]);
  }

  /** An address with one byte changed never decodes. */
  lemma ChangedByteRefused(canonical: Canonicity, a: Address, i: nat, v: Byte)
    requires Valid(canonical, a)
    requires i < |ToBytes(a)| && ToBytes(a)[i] != v
    ensures FromBytes(canonical, ToBytes(a)[i := v]).Err?
  {
    hide DammSum.Checksum, DammSum.ValidateChecksum;
    ChecksumHolds(canonical, a);
    DammSum.SubstitutionDetected(ToBytes(a), i, v);
  }

  /** A single address with two unequal bytes swapped never decodes; a dual one can only if they are 51 k apart. */
  lemma SwappedBytesRefused(canonical: Canonicity, a: Address, i: nat, j: nat)
    requires Valid(canonical, a)
    requires i < j < |ToBytes(a)| && ToBytes(a)[i] != ToBytes(a)[j]
    requires a.Single? || (j - i) % 51 != 0
    ensures FromBytes(canonical, DammSum.Swap(ToBytes(a), i, j)).Err?
  {
    hide DammSum.Checksum, DammSum.ValidateChecksum, DammSum.Swap;
    ChecksumHolds(canonical, a);
    SizeOfBytes(canonical, a);
    DammSum.SwapDetected(ToBytes(a), i, j);
  }

  lemma ChecksumHolds(canonical: Canonicity, a: Address)
    requires Valid(canonical, a)
    ensures DammSum.ValidateChecksum(ToBytes(a)) == Ok(Body(a))
  {
    hide DammSum.Checksum, DammSum.ValidateChecksum;
    DammSum.CheckByteUnique(Body(a), DammSum.Checksum(Body(a)));
  }
}
