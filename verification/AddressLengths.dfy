/** How long base58 addresses are, and which of them the size-checked parsers of each kind read back. */
module AddressLengths {
  import opened Bytes
  import opened Positional
  import opened Address
  import opened AddressText
  import Base58

  // ---- 58^j against 256^k -------------------------------------------------------------------

  lemma {:induction false} BothGrow(j: nat, k: nat, m: nat)
    requires Pow(58, j) <= Pow(256, k)
    ensures Pow(58, j + m) <= Pow(256, k + m)
  {
    PowSum(58, j, m);
    PowSum(256, k, m);
    Base58.Pow58Below256(m);
    hide Pow;
    MulMonotone(Pow(58, j), Pow(256, k), Pow(58, m));
    MulMonotone(Pow(58, m), Pow(256, m), Pow(256, k));
  }

  lemma Below(j: nat, k: nat, j': nat, k': nat)
    requires Pow(58, j) <= Pow(256, k) && Pow(58, j') <= Pow(256, k')
    ensures Pow(58, j + j') <= Pow(256, k + k')
  {
    PowSum(58, j, j');
    PowSum(256, k, k');
    hide Pow;
    MulMonotone(Pow(58, j), Pow(256, k), Pow(58, j'));
    MulMonotone(Pow(58, j'), Pow(256, k'), Pow(256, k));
  }

  lemma Above(j: nat, k: nat, j': nat, k': nat)
    requires Pow(256, k) <= Pow(58, j) && Pow(256, k') <= Pow(58, j')
    ensures Pow(256, k + k') <= Pow(58, j + j')
  {
    PowSum(58, j, j');
    PowSum(256, k, k');
    hide Pow;
    MulMonotone(Pow(256, k), Pow(58, j), Pow(256, k'));
    MulMonotone(Pow(256, k'), Pow(58, j'), Pow(58, j));
  }

  /** 8 bits are about 1.3657 base-58 digits; the convergents of that ratio give tight blocks. */
  lemma SmallPowers()
    ensures Pow(58, 8) <= Pow(256, 6)
    ensures Pow(256, 1) <= Pow(58, 2)
    ensures Pow(256, 5) <= Pow(58, 7)
    ensures Pow(256, 8) <= Pow(58, 11)
  {
  }

  lemma Block15()
    ensures Pow(58, 15) <= Pow(256, 11)
  {
    assert Pow(58, 5) == 656356768 && Pow(256, 1) == 256 && Pow(256, 5) == 0x100_0000_0000;
    hide Pow;
    PowSum(58, 5, 5);
    PowSum(58, 10, 5);
    PowSum(256, 5, 5);
    PowSum(256, 10, 1);
  }

  /** The tightest block: 240 bits against 240.18. */
  lemma Block41()
    ensures Pow(256, 30) <= Pow(58, 41)
  {
    assert Pow(58, 5) == 656356768 && Pow(58, 1) == 58 && Pow(256, 5) == 0x100_0000_0000;
    hide Pow;
    PowSum(58, 5, 5);
    assert Pow(58, 10) == 430804206899405824;
    PowSum(58, 10, 10);
    assert Pow(58, 20) == 185592264682226060569122324245118976;
    PowSum(58, 20, 20);
    PowSum(58, 40, 1);
    PowSum(256, 5, 5);
    PowSum(256, 10, 10);
    PowSum(256, 20, 10);
  }

  lemma NoPower()
    ensures Pow(58, 0) == Pow(256, 0) == 1
  {
  }

  lemma {:induction false} Blocks(t: nat)
    ensures Pow(256, 30 * t) <= Pow(58, 41 * t)
  {
    hide *;
    if t == 0 {
      NoPower();
    } else {
      Blocks(t - 1);
      Block41();
      assert 41 * t == 41 * (t - 1) + 41 && 30 * t == 30 * (t - 1) + 30;
      Above(41 * (t - 1), 30 * (t - 1), 41, 30);
    }
  }

  lemma {:induction false} Blocks15(t: nat)
    ensures Pow(58, 15 * t) <= Pow(256, 11 * t)
  {
    hide *;
    if t == 0 {
      NoPower();
    } else {
      Blocks15(t - 1);
      Block15();
      assert 15 * t == 15 * (t - 1) + 15 && 11 * t == 11 * (t - 1) + 11;
      Below(15 * (t - 1), 11 * (t - 1), 15, 11);
    }
  }

  lemma {:induction false} Blocks11(t: nat)
    ensures Pow(256, 8 * t) <= Pow(58, 11 * t)
  {
    hide *;
    if t == 0 {
      NoPower();
    } else {
      SmallPowers();
      Blocks11(t - 1);
      Above(11 * (t - 1), 8 * (t - 1), 11, 8);
    }
  }

  /** Fewer bytes need no more than so many digits fewer. */
  lemma Shrink(n: nat, digits: nat, z: nat)
    requires Pow(256, n) <= Pow(58, digits) && z <= n && z <= digits
    ensures Pow(256, n - z) <= Pow(58, digits - z)
  {
    hide Pow;
    if Pow(256, n - z) > Pow(58, digits - z) {
      PowSum(256, n - z, z);
      PowSum(58, digits - z, z);
      Base58.Pow58Below256(z);
      PowPositive(256, z);
      MulMonotone(Pow(58, digits - z) + 1, Pow(256, n - z), Pow(256, z));
      MulMonotone(Pow(58, z), Pow(256, z), Pow(58, digits - z));
      assert (Pow(58, digits - z) + 1) * Pow(256, z) == Pow(58, digits - z) * Pow(256, z) + Pow(256, z);
      assert false;
    }
  }

  lemma SingleBounds(z: nat)
    requires z <= 4
    ensures Pow(58, 42 - z) <= Pow(256, 32 - z)
    ensures Pow(256, 33 - z) <= Pow(58, 46 - z)
  {
    SmallPowers();
    hide Pow;
    Blocks15(2);
    Below(30, 22, 8, 6);
    BothGrow(38, 28, 4 - z);
    Blocks11(4);
    Above(44, 32, 2, 1);
    Shrink(33, 46, z);
  }

  lemma DualBounds(z: nat, memo: nat)
    requires z <= 3 && memo <= 256
    ensures Pow(58, 86 - z) <= Pow(256, 64 + memo - z)
    ensures Pow(256, 65 + memo - z) <= Pow(58, 439 - z)
  {
    SmallPowers();
    hide Pow;
    Blocks15(5);
    Below(75, 55, 8, 6);
    BothGrow(83, 61, 3 - z);
    PowMonotone(256, 64 - z, 64 + memo - z);
    Blocks(10);
    Blocks11(2);
    Above(410, 300, 22, 16);
    Above(432, 316, 7, 5);
    Shrink(321, 439, z);
    PowMonotone(256, 65 + memo - z, 321 - z);
  }

  // ---- Printed lengths ----------------------------------------------------------------------

  lemma {:induction false} LeadingZerosOfPrefix(k: ByteString, rest: ByteString)
    requires LeadingZeros(k) < |k|
    ensures LeadingZeros(k + rest) == LeadingZeros(k)
  {
    if k[0] == 0 {
      assert (k + rest)[1..] == k[1..] + rest;
      LeadingZerosOfPrefix(k[1..], rest);
    }
  }

  /** The key an address string starts with, after network and features. */
  function FirstKey(a: Address): Key {
    if a.Dual? then a.viewKey else a.spendKey
  }

  lemma RestOf(a: Address)
    ensures |ToBytes(a)| > 2 + |FirstKey(a)|
    ensures ToBytes(a)[2..] == FirstKey(a) + ToBytes(a)[2 + |FirstKey(a)|..]
  {
    hide DammSum.Checksum, NetworkByte;
    var header := [NetworkByte(a.network), a.features.AsByte()];
    var tail := (if a.Dual? then a.spendKey + a.memo else []) + [DammSum.Checksum(Body(a))];
    assert ToBytes(a) == header + FirstKey(a) + tail;
  }

  lemma PrintedPieces(a: Address)
    ensures |ToBytes(a)| > 2 && ToBase58(a) == Pieces(ToBytes(a))
  {
    hide ToBytes, Pieces;
    FirstBytes(a);
  }

  /** z leading zeros of the first key, and two characters for network and features. */
  lemma PrintedLength(canonical: Canonicity, a: Address, low: nat, high: nat)
    requires Valid(canonical, a)
    requires LeadingZeros(FirstKey(a)) < |FirstKey(a)|
    requires Pow(58, low) <= Pow(256, |ToBytes(a)| - LeadingZeros(FirstKey(a)) - 3)
    requires Pow(256, |ToBytes(a)| - LeadingZeros(FirstKey(a)) - 2) <= Pow(58, high)
    ensures 2 + LeadingZeros(FirstKey(a)) + low < |ToBase58(a)| <= 2 + LeadingZeros(FirstKey(a)) + high
  {
    hide *;
    var b := ToBytes(a);
    RestOf(a);
    FirstBytes(a);
    PrintedPieces(a);
    LeadingZerosOfPrefix(FirstKey(a), b[2 + |FirstKey(a)|..]);
    PiecesRejoin(b);
    Base58.EncodeLength(b[2..], low, high);
  }

  /** A spend key with at most four leading zero bytes prints to 45 to 48 characters. */
  lemma SingleLength(canonical: Canonicity, a: Address)
    requires Valid(canonical, a) && a.Single?
    requires LeadingZeros(a.spendKey) <= 4
    ensures SINGLE_BASE58_MIN <= |ToBase58(a)| <= SINGLE_BASE58_MAX
  {
    assert |a.spendKey| == PUBLIC_KEY_SIZE;
    hide Pow, LeadingZeros, ToBytes, ToBase58, IsKey, Valid;
    var z := LeadingZeros(a.spendKey);
    SizeOfBytes(canonical, a);
    SingleBounds(z);
    PrintedLength(canonical, a, 42 - z, 46 - z);
  }

  /** A view key with at most three leading zero bytes prints to 89 to 441 characters. */
  lemma DualLength(canonical: Canonicity, a: Address)
    requires Valid(canonical, a) && a.Dual?
    requires LeadingZeros(a.viewKey) <= 3
    ensures DUAL_BASE58_MIN <= |ToBase58(a)| <= 441
  {
    assert |a.viewKey| == PUBLIC_KEY_SIZE && |a.memo| <= MAX_MEMO_SIZE;
    hide Pow, LeadingZeros, ToBytes, ToBase58, IsKey, Valid;
    var z := LeadingZeros(a.viewKey);
    SizeOfBytes(canonical, a);
    DualBounds(z, |a.memo|);
    PrintedLength(canonical, a, 86 - z, 439 - z);
  }

  /** The parser of single addresses inverts the printer exactly on strings within its limits. */
  lemma SingleFromToBase58(canonical: Canonicity, a: Address)
    requires Valid(canonical, a) && a.Single?
    ensures SingleFromBase58(canonical, ToBase58(a)) == Ok(a)
       <==> SINGLE_BASE58_MIN <= |ToBase58(a)| <= SINGLE_BASE58_MAX
    ensures LeadingZeros(a.spendKey) <= 4 ==> SingleFromBase58(canonical, ToBase58(a)) == Ok(a)
  {
    if LeadingZeros(a.spendKey) <= 4 {
      SingleLength(canonical, a);
    }
    FirstBytes(a);
    hide ToBytes, JoinPieces, Pieces, SingleFromBytes, LeadingZeros;
    PiecesRejoin(ToBytes(a));
    AlphabetIsPlain(ToBase58(a));
    FromToBytes(canonical, a);
  }

  /** The parser of dual addresses inverts the printer exactly on strings within its limits. */
  lemma DualFromToBase58(canonical: Canonicity, a: Address)
    requires Valid(canonical, a) && a.Dual?
    ensures DualFromBase58(canonical, ToBase58(a)) == Ok(a)
       <==> DUAL_BASE58_MIN <= |ToBase58(a)| <= DUAL_BASE58_MAX
    ensures LeadingZeros(a.viewKey) <= 3 ==> DualFromBase58(canonical, ToBase58(a)) == Ok(a)
  {
    if LeadingZeros(a.viewKey) <= 3 {
      DualLength(canonical, a);
    }
    FirstBytes(a);
    hide ToBytes, JoinPieces, Pieces, DualFromBytes, LeadingZeros;
    PiecesRejoin(ToBytes(a));
    AlphabetIsPlain(ToBase58(a));
    FromToBytes(canonical, a);
  }

  /** The address of the all-zero key, the encoding of the group's identity, is one that prints too short to be read back. */
  lemma ZeroKeyIsNotReadBack(canonical: Canonicity)
    requires canonical(Zeros(PUBLIC_KEY_SIZE))
    ensures var a := Single(MainNet, Features(false, false, false), Zeros(PUBLIC_KEY_SIZE));
            Valid(canonical, a) && FromBase58(canonical, ToBase58(a)) == Err(InvalidSize)
  {
    var a := Single(MainNet, Features(false, false, false), Zeros(PUBLIC_KEY_SIZE));
    RestOf(a);
    var tail := ToBytes(a)[2 + PUBLIC_KEY_SIZE..];
    assert |tail| == 1;
    ZerosPrintShort(PUBLIC_KEY_SIZE, tail[0]);
    hide ToBytes, Base58.Encode;
    assert ToBytes(a)[2..] == Zeros(PUBLIC_KEY_SIZE) + [tail[0]];
    PrintedPieces(a);
    FirstBytes(a);
    PiecesRejoin(ToBytes(a));
    FromToBase58(canonical, a);
  }

  lemma ZerosPrintShort(z: nat, c: Byte)
    ensures |Base58.Encode(Zeros(z) + [c])| <= z + 3
  {
    var s := Zeros(z) + [c];
    ValueOfZeros(z, [c], 256);
    assert Value([c], 256) == c;
    assert Pow(58, 2) == 3364;
    DigitCount(c, 58, 2);
  }

  /** With both keys all zero and no memo a dual address prints too short for the parser of dual addresses. */
  lemma ZeroKeysAreNotReadBackAsDual(canonical: Canonicity)
    requires canonical(Zeros(PUBLIC_KEY_SIZE))
    ensures var zero := Zeros(PUBLIC_KEY_SIZE);
            var a := Dual(MainNet, Features(false, false, false), zero, zero, []);
            Valid(canonical, a) && DualFromBase58(canonical, ToBase58(a)) == Err(InvalidSize)
  {
    var zero := Zeros(PUBLIC_KEY_SIZE);
    var a := Dual(MainNet, Features(false, false, false), zero, zero, []);
    RestOf(a);
    assert |ToBytes(a)| == 67 && ToBytes(a)[34..66] == zero;
    var check := ToBytes(a)[66];
    ZerosPrintShort(64, check);
    hide ToBytes, Base58.Encode;
    assert ToBytes(a)[2..] == Zeros(64) + [check];
    PrintedPieces(a);
    FirstBytes(a);
    PiecesRejoin(ToBytes(a));
    AlphabetIsPlain(ToBase58(a));
  }
}
