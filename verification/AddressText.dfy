/** The printed forms of an address: base58 in three pieces, emoji and hexadecimal. */
module AddressText {
  import opened Bytes
  import opened Positional
  import opened Text
  import opened Address
  import Base58
  import Emoji
  import Hex

  // ---- Base58 -------------------------------------------------------------------------------

  const MIN_BASE58_SIZE := 45

  /** The network, the features and the rest are three independent base58 strings. */
  function ToBase58(a: Address): (s: ByteString)
    ensures Base58.AllInAlphabet(s)
  {
    FirstBytes(a);
    Pieces(ToBytes(a))
  }

  function Pieces(b: ByteString): (s: ByteString)
    requires |b| >= 2
    ensures Base58.AllInAlphabet(s)
  {
    Base58.Encode([b[0]]) + Base58.Encode([b[1]]) + Base58.Encode(b[2..])
  }

  /** Cuts off the first two characters and decodes the three pieces. */
  function JoinPieces(s: ByteString): Result<ByteString, AddressError> {
    if |s| < 2 then Err(InvalidCharacter)
    else
      var network := Base58.Decode(s[..1]);
      if network.None? then Err(CannotRecoverNetwork)
      else
        var features := Base58.Decode(s[1..2]);
        if features.None? then Err(CannotRecoverFeature)
        else
          var rest := Base58.Decode(s[2..]);
          if rest.None? then Err(CannotRecoverPublicKey)
          else Ok(network.value + features.value + rest.value)
  }

  /** Sizes and cuts count UTF-8 bytes. */
  function FromBase58(canonical: Canonicity, text: Text): Result<Address, AddressError> {
    var s := Utf8(text);
    if |s| < MIN_BASE58_SIZE then Err(InvalidSize)
    else
      match JoinPieces(s)
      case Err(e) => Err(e)
      case Ok(bytes) => FromBytes(canonical, bytes)
  }

  const SINGLE_BASE58_MIN := 45
  const SINGLE_BASE58_MAX := 48
  const DUAL_BASE58_MIN := 89
  const DUAL_BASE58_MAX := 443

  function SingleFromBase58(canonical: Canonicity, text: Text): Result<Address, AddressError> {
    var s := Utf8(text);
    if |s| < SINGLE_BASE58_MIN || |s| > SINGLE_BASE58_MAX then Err(InvalidSize)
    else
      match JoinPieces(s)
      case Err(e) => Err(e)
      case Ok(bytes) => SingleFromBytes(canonical, bytes)
  }

  function DualFromBase58(canonical: Canonicity, text: Text): Result<Address, AddressError> {
    var s := Utf8(text);
    if |s| < DUAL_BASE58_MIN || |s| > DUAL_BASE58_MAX then Err(InvalidSize)
    else
      match JoinPieces(s)
      case Err(e) => Err(e)
      case Ok(bytes) => DualFromBytes(canonical, bytes)
  }

  /** Bytes below 58 are single characters, so the three pieces can be told apart. */
  lemma PiecesRejoin(b: ByteString)
    requires |b| > 2 && b[0] < 58 && b[1] < 58
    ensures JoinPieces(Pieces(b)) == Ok(b)
    ensures |Pieces(b)| == 2 + |Base58.Encode(b[2..])|
  {
    hide Base58.Encode, Base58.Decode;
    Base58.EncodeSingleByte(b[0]);
    Base58.EncodeSingleByte(b[1]);
    Base58.DecodeEncode([b[0]]);
    Base58.DecodeEncode([b[1]]);
    Base58.DecodeEncode(b[2..]);
    var s := Pieces(b);
    assert s[..1] == Base58.Encode([b[0]]);
    assert s[1..2] == Base58.Encode([b[1]]);
    assert s[2..] == Base58.Encode(b[2..]);
    assert [b[0]] + [b[1]] + b[2..] == b;
  }

  /** Conversely the pieces that join are the only ones that do. */
  lemma PiecesUnique(s: ByteString)
    requires JoinPieces(s).Ok?
    ensures var b := JoinPieces(s).value; |b| >= 2 && Pieces(b) == s
  {
    hide Base58.Encode, Base58.Decode;
    assert s[..1] == [s[0]] && s[1..2] == [s[1]];
    Base58.DecodeSingle(s[0]);
    Base58.DecodeSingle(s[1]);
    var b := JoinPieces(s).value;
    var n, f, rest := Base58.Decode(s[..1]).value, Base58.Decode(s[1..2]).value, Base58.Decode(s[2..]).value;
    assert b == n + f + rest && [b[0]] == n && [b[1]] == f && b[2..] == rest;
    Base58.EncodeDecode(s[..1]);
    Base58.EncodeDecode(s[1..2]);
    Base58.EncodeDecode(s[2..]);
    assert s == s[..1] + s[1..2] + s[2..];
  }

  lemma FirstBytes(a: Address)
    ensures |ToBytes(a)| > 2
    ensures ToBytes(a)[0] == NetworkByte(a.network) && ToBytes(a)[1] == a.features.AsByte()
  {
  }

  lemma AlphabetIsPlain(s: ByteString)
    requires Base58.AllInAlphabet(s)
    ensures IsAscii(s) && IsPlain(s) && Utf8(s) == s
  {
    Utf8OfAscii(s);
  }

  /** A printed address is read back exactly when its string passes the size test. */
  lemma FromToBase58(canonical: Canonicity, a: Address)
    requires Valid(canonical, a)
    ensures FromBase58(canonical, ToBase58(a)) == Ok(a) <==> |ToBase58(a)| >= MIN_BASE58_SIZE
    ensures FromBase58(canonical, ToBase58(a)) != Ok(a) ==>
              a.Single? && FromBase58(canonical, ToBase58(a)) == Err(InvalidSize)
  {
    hide JoinPieces, FromBytes, ToBytes, Utf8, Pieces, NetworkByte, Features.AsByte;
    SizeOfBytes(canonical, a);
    FirstBytes(a);
    PiecesRejoin(ToBytes(a));
    AlphabetIsPlain(ToBase58(a));
    FromToBytes(canonical, a);
    Base58.EncodeNotShorter(ToBytes(a)[2..]);
  }

  /** A string whose UTF-8 bytes are all below 128 has no other code points. */
  lemma {:induction false} PlainBytes(s: Text)
    requires forall i :: 0 <= i < |Utf8(s)| ==> Utf8(s)[i] < 128
    ensures IsAscii(s)
  {
    if s != [] {
      var head, tail := Utf8OfRune(s[0]), Utf8(s[1..]);
      assert Utf8(s) == head + tail;
      assert forall i :: 0 <= i < |tail| ==> tail[i] == Utf8(s)[|head| + i];
      PlainBytes(s[1..]);
      assert head[0] == Utf8(s)[0];
      assert forall i :: 0 < i < |s| ==> s[i] == s[1..][i - 1];
    }
  }

  /** What the base58 parser accepts, of all strings, is the printed form of the address it returns. */
  lemma ToFromBase58(canonical: Canonicity, s: Text)
    requires FromBase58(canonical, s).Ok?
    ensures Valid(canonical, FromBase58(canonical, s).value)
    ensures ToBase58(FromBase58(canonical, s).value) == s
  {
    hide JoinPieces, FromBytes, ToBytes, Utf8, Pieces;
    var bytes := Utf8(s);
    PiecesUnique(bytes);
    ToFromBytes(canonical, JoinPieces(bytes).value);
    var printed := Pieces(JoinPieces(bytes).value);
    assert forall i :: 0 <= i < |printed| ==> Base58.InAlphabet(printed[i]);
    PlainBytes(s);
    Utf8OfAscii(s);
  }

  // ---- Emoji --------------------------------------------------------------------------------

  function ToEmojiString(a: Address): Text {
    Emoji.ToEmoji(ToBytes(a))
  }

  function SingleEmojiToBytes(s: Text): Result<ByteString, AddressError> {
    if |s| != SINGLE_SIZE then Err(InvalidSize)
    else
      match Emoji.FromEmoji(s)
      case None => Err(InvalidEmoji)
      case Some(bytes) => Ok(bytes)
  }

  function DualEmojiToBytes(s: Text): Result<ByteString, AddressError> {
    if |s| < DUAL_SIZE || |s| > DUAL_SIZE + MAX_MEMO_SIZE then Err(InvalidSize)
    else
      match Emoji.FromEmoji(s)
      case None => Err(InvalidEmoji)
      case Some(bytes) => Ok(bytes)
  }

  /** The count of symbols decides which kind is tried. */
  function FromEmojiString(canonical: Canonicity, s: Text): Result<Address, AddressError> {
    match if |s| == SINGLE_SIZE then SingleEmojiToBytes(s) else DualEmojiToBytes(s)
    case Err(e) => Err(e)
    case Ok(bytes) => FromBytes(canonical, bytes)
  }

  lemma FromToEmojiString(canonical: Canonicity, a: Address)
    requires Valid(canonical, a)
    ensures FromEmojiString(canonical, ToEmojiString(a)) == Ok(a)
  {
    hide ToBytes, FromBytes, Emoji.FromEmoji, Emoji.ToEmoji;
    SizeOfBytes(canonical, a);
    Emoji.FromToEmoji(ToBytes(a));
    FromToBytes(canonical, a);
  }

  lemma EmojiIsPlain(a: Address)
    ensures IsPlain(ToEmojiString(a))
  {
    hide ToBytes, Emoji.EmojiOf, IsSpace;
    forall i | 0 <= i < |ToBytes(a)|
      ensures !IsSpace(ToEmojiString(a)[i]) && ToEmojiString(a)[i] != BAR
    {
      Emoji.EmojiIsForeign(ToBytes(a)[i]);
    }
  }

  lemma AsciiIsNotEmoji(canonical: Canonicity, s: Text)
    requires s != [] && IsAscii(s)
    ensures FromEmojiString(canonical, s).Err?
  {
    hide Emoji.FromEmoji, FromBytes;
    Emoji.AsciiIsNotEmoji(s);
  }

  // ---- Hexadecimal --------------------------------------------------------------------------

  function ToHexString(a: Address): ByteString {
    Hex.ToHex(ToBytes(a))
  }

  function FromHexString(canonical: Canonicity, s: Text): Result<Address, AddressError> {
    match Hex.FromHex(s)
    case None => Err(CannotRecoverPublicKey)
    case Some(bytes) => FromBytes(canonical, bytes)
  }

  lemma FromToHexString(canonical: Canonicity, a: Address)
    requires Valid(canonical, a)
    ensures FromHexString(canonical, ToHexString(a)) == Ok(a)
  {
    hide ToBytes, FromBytes, Hex.ToHex, Hex.FromHex;
    Hex.FromToHex(ToBytes(a));
    FromToBytes(canonical, a);
  }

  lemma HexIsAscii(b: ByteString)
    ensures IsAscii(Hex.ToHex(b)) && Utf8(Hex.ToHex(b)) == Hex.ToHex(b)
  {
    Utf8OfAscii(Hex.ToHex(b));
  }

  /** The high digit of the features byte is '0', which base58 does not know. */
  lemma HexIsNotBase58(canonical: Canonicity, a: Address)
    ensures FromBase58(canonical, ToHexString(a)).Err?
  {
    hide ToBytes, Utf8, Base58.Rebase;
    var s := ToHexString(a);
    FirstBytes(a);
    HexIsAscii(ToBytes(a));
    ThirdHexChar(ToBytes(a));
    hide Hex.ToHex;
    assert !Base58.InAlphabet(s[2..][0]);
    assert Base58.Decode(s[2..]).None?;
  }

  lemma ThirdHexChar(b: ByteString)
    requires |b| > 2 && b[1] < 16
    ensures Hex.ToHex(b)[2] == '0' as int
  {
    assert Hex.ToHex(b) == [Hex.HexChar(b[0] / 16), Hex.HexChar(b[0] % 16)] + Hex.ToHex(b[1..]);
    assert Hex.ToHex(b[1..])[0] == Hex.HexChar(b[1..][0] / 16);
  }

  lemma {:induction false} FromHexLength(s: Text)
    ensures Hex.FromHex(s).Some? ==> |s| == 2 * |Hex.FromHex(s).value|
  {
    if |s| >= 2 {
      FromHexLength(s[2..]);
    }
  }

  lemma ShortIsNotHex(canonical: Canonicity, s: Text)
    requires |s| < 2 * SINGLE_SIZE
    ensures FromHexString(canonical, s).Err?
  {
    FromHexLength(s);
  }

  // ---- Parse --------------------------------------------------------------------------------

  /** Emoji first, with outer white space and all bars taken out; then base58, then hexadecimal. */
  function Parse(canonical: Canonicity, s: Text): Result<Address, AddressError> {
    var emoji := FromEmojiString(canonical, RemoveBars(TrimSpace(s)));
    if emoji.Ok? then emoji
    else
      var base58 := FromBase58(canonical, s);
      if base58.Ok? then base58
      else
        var hex := FromHexString(canonical, s);
        if hex.Ok? then hex else Err(InvalidAddressString)
  }

  /** White space around the symbols, and bars anywhere among them, make no difference. */
  lemma ParseEmoji(canonical: Canonicity, a: Address, before: Text, t: Text, after: Text)
    requires Valid(canonical, a)
    requires IsBlank(before) && IsBlank(after) && RemoveBars(t) == ToEmojiString(a)
    ensures Parse(canonical, before + t + after) == Ok(a)
  {
    hide FromEmojiString, ToEmojiString, FromBase58, FromHexString;
    EmojiIsPlain(a);
    SizeOfEmoji(a);
    BarsAreNoSpace(t);
    TrimPadding(before, t, after);
    FromToEmojiString(canonical, a);
  }

  lemma SizeOfEmoji(a: Address)
    ensures ToEmojiString(a) != []
  {
    hide ToBytes;
    FirstBytes(a);
  }

  lemma {:induction false} BarsAreNoSpace(t: Text)
    requires IsPlain(RemoveBars(t))
    ensures forall i :: 0 <= i < |t| ==> !IsSpace(t[i])
  {
    if t != [] {
      var rest := RemoveBars(t[1..]);
      if t[0] != BAR {
        assert RemoveBars(t)[0] == t[0];
        assert forall i :: 0 <= i < |rest| ==> rest[i] == RemoveBars(t)[i + 1];
      }
      BarsAreNoSpace(t[1..]);
      assert forall i :: 0 < i < |t| ==> t[i] == t[1..][i - 1];
    }
  }

  lemma CleanPlain(s: Text)
    requires IsPlain(s)
    ensures RemoveBars(TrimSpace(s)) == s
  {
    PlainKeepsBars(s);
  }

  lemma CleanAscii(s: Text)
    requires IsAscii(s) && s != [] && !IsSpace(s[0]) && s[0] != BAR
    ensures RemoveBars(TrimSpace(s)) != [] && RemoveBars(TrimSpace(s))[0] < 128
  {
    TrimRightKeepsHead(s);
  }

  lemma {:induction false} TrimRightKeepsHead(s: Text)
    requires s != [] && !IsSpace(s[0])
    ensures TrimRight(s) != [] && TrimRight(s)[0] == s[0]
  {
    if IsSpace(s[|s| - 1]) {
      TrimRightKeepsHead(s[..|s| - 1]);
    }
  }

  lemma AsciiFailsEmojiAttempt(canonical: Canonicity, s: Text)
    requires IsAscii(s) && s != [] && !IsSpace(s[0]) && s[0] != BAR
    ensures FromEmojiString(canonical, RemoveBars(TrimSpace(s))).Err?
  {
    hide Emoji.FromEmoji, FromBytes, TrimSpace, RemoveBars;
    CleanAscii(s);
    Emoji.AsciiIsNotEmoji(RemoveBars(TrimSpace(s)));
  }

  /**
    The three printers are inverted despite the fixed order of attempts; for base58, exactly when
    the string is long enough for the size test.
   */
  lemma ParseInvertsPrinters(canonical: Canonicity, a: Address)
    requires Valid(canonical, a)
    ensures Parse(canonical, ToEmojiString(a)) == Ok(a)
    ensures Parse(canonical, ToHexString(a)) == Ok(a)
    ensures Parse(canonical, ToBase58(a)) == Ok(a) <==> |ToBase58(a)| >= MIN_BASE58_SIZE
  {
    hide ToBytes, FromBytes, FromEmojiString, FromBase58, FromHexString, TrimSpace, RemoveBars;
    EmojiIsPlain(a);
    CleanPlain(ToEmojiString(a));
    FromToEmojiString(canonical, a);

    FirstBytes(a);
    HexIsAscii(ToBytes(a));
    AsciiFailsEmojiAttempt(canonical, ToHexString(a));
    HexIsNotBase58(canonical, a);
    FromToHexString(canonical, a);

    FirstBytes(a);
    AlphabetIsPlain(ToBase58(a));
    Base58.EncodeNotShorter([ToBytes(a)[0]]);
    assert ToBase58(a) != [];
    AsciiFailsEmojiAttempt(canonical, ToBase58(a));
    FromToBase58(canonical, a);
    if |ToBase58(a)| < MIN_BASE58_SIZE {
      ShortIsNotHex(canonical, ToBase58(a));
    }
  }

  // ---- What exactly is printed --------------------------------------------------------------

  /**
    In emoji one symbol a byte, in hexadecimal two lower-case digits a byte; in base58 a character of
    the alphabet each for network and features, and digits that spell all other bytes as one number.
   */
  lemma PrintedForms(a: Address, i: nat) returns (digits: seq<nat>)
    requires i < |ToBytes(a)|
    ensures var b := ToBytes(a);
            && |ToEmojiString(a)| == |b| && ToEmojiString(a)[i] == Emoji.EmojiOf(b[i])
            && |ToHexString(a)| == 2 * |b|
            && ToHexString(a)[2 * i] == Hex.LOWER[b[i] / 16] as int
            && ToHexString(a)[2 * i + 1] == Hex.LOWER[b[i] % 16] as int
    ensures var b, s := ToBytes(a), ToBase58(a);
            && |b| > 2 && |s| == 2 + |digits| && |Base58.ALPHABET| == 58
            && b[0] < 58 && s[0] == Base58.ALPHABET[b[0]] as int
            && b[1] < 58 && s[1] == Base58.ALPHABET[b[1]] as int
            && AreDigits(digits, 58)
            && (forall k :: 0 <= k < |digits| ==> s[2 + k] == Base58.ALPHABET[digits[k]] as int)
            && Value(digits, 58) == Value(b[2..], 256) && LeadingZeros(digits) == LeadingZeros(b[2..])
  {
    FirstBytes(a);
    hide ToBytes, Base58.Encode, Base58.Symbol, Value, LeadingZeros, Hex.ToHex, Emoji.EmojiOf;
    var b := ToBytes(a);
    Hex.ToHexIs(b, i);
    Base58.EncodeSingleByte(b[0]);
    Base58.EncodeSingleByte(b[1]);
    Base58.SymbolIs(b[0]);
    Base58.SymbolIs(b[1]);
    digits := Base58.EncodeKeepsValue(b[2..]);
  }

  // ---- What exactly is accepted -------------------------------------------------------------

  /** The printed forms are the only strings accepted as such, and of every valid address. */
  lemma EmojiIff(canonical: Canonicity, s: Text, a: Address)
    ensures FromEmojiString(canonical, s) == Ok(a) <==> Valid(canonical, a) && s == ToEmojiString(a)
  {
    hide FromBytes, ToBytes, Emoji.FromEmoji, Emoji.ToEmoji, Valid;
    if FromEmojiString(canonical, s) == Ok(a) {
      Emoji.ToFromEmoji(s);
      ToFromBytes(canonical, Emoji.FromEmoji(s).value);
    }
    if Valid(canonical, a) {
      FromToEmojiString(canonical, a);
    }
  }

  lemma Base58Iff(canonical: Canonicity, s: Text, a: Address)
    ensures FromBase58(canonical, s) == Ok(a) <==> Valid(canonical, a) && s == ToBase58(a) && |s| >= 45
  {
    hide FromBytes, ToBytes, JoinPieces, Valid, Pieces, ToBase58;
    if FromBase58(canonical, s) == Ok(a) {
      ToFromBase58(canonical, s);
      AlphabetIsPlain(ToBase58(a));
    }
    if Valid(canonical, a) {
      FromToBase58(canonical, a);
    }
  }

  /** Letters may be of either case here. */
  lemma HexIff(canonical: Canonicity, s: Text, a: Address)
    ensures FromHexString(canonical, s) == Ok(a) <==> Valid(canonical, a) && Hex.Spells(s, ToBytes(a))
  {
    hide FromBytes, ToBytes, Hex.FromHex, Hex.Spells, Valid;
    if FromHexString(canonical, s) == Ok(a) {
      ToFromBytes(canonical, Hex.FromHex(s).value);
    }
    if Valid(canonical, a) {
      FromToBytes(canonical, a);
    }
    Hex.FromHexReadsBothCases(s, ToBytes(a));
  }

  /** The parsers of one kind accept what the printer of that kind prints, within their limits. */
  lemma KindBase58Iff(canonical: Canonicity, s: Text, a: Address)
    ensures SingleFromBase58(canonical, s) == Ok(a) <==>
              Valid(canonical, a) && a.Single? && s == ToBase58(a) && 45 <= |s| <= 48
    ensures DualFromBase58(canonical, s) == Ok(a) <==>
              Valid(canonical, a) && a.Dual? && s == ToBase58(a) && 89 <= |s| <= 443
  {
    WhyBytesAreRefusedAt(canonical, Utf8(s));
    KindOfBytes(canonical, Utf8(s));
    hide FromBytes, SingleFromBytes, DualFromBytes, ToBytes, JoinPieces, Valid, Pieces, ToBase58, Utf8;
    Base58Iff(canonical, s, a);
    AlphabetIsPlain(ToBase58(a));
    if FromBase58(canonical, s).Ok? {
      Base58Iff(canonical, s, FromBase58(canonical, s).value);
      AlphabetIsPlain(ToBase58(FromBase58(canonical, s).value));
    }
  }

  lemma WhyBytesAreRefusedAt(canonical: Canonicity, s: ByteString)
    ensures JoinPieces(s).Ok? ==>
              var b := JoinPieces(s).value;
              && SingleFromBytes(canonical, b) == (if |b| != 35 then Err(InvalidSize) else FromBytes(canonical, b))
              && DualFromBytes(canonical, b) == (if |b| == 35 then Err(InvalidSize) else FromBytes(canonical, b))
  {
    hide FromBytes, SingleFromBytes, DualFromBytes, JoinPieces;
    if JoinPieces(s).Ok? {
      WhyBytesAreRefused(canonical, JoinPieces(s).value);
    }
  }

  lemma KindOfBytes(canonical: Canonicity, s: ByteString)
    ensures JoinPieces(s).Ok? && FromBytes(canonical, JoinPieces(s).value).Ok? ==>
              (FromBytes(canonical, JoinPieces(s).value).value.Single? <==> |JoinPieces(s).value| == 35)
  {
    hide JoinPieces;
  }

  /** A string of base58 is refused for its size, or for the first of its three pieces that does not decode, or as bytes are. */
  lemma WhyBase58IsRefused(canonical: Canonicity, text: Text)
    ensures var s := Utf8(text);
            FromBase58(canonical, text)
            == if |s| < 45 then Err(InvalidSize)
               else if !Base58.InAlphabet(s[0]) then Err(CannotRecoverNetwork)
               else if !Base58.InAlphabet(s[1]) then Err(CannotRecoverFeature)
               else if !Base58.AllInAlphabet(s[2..]) then Err(CannotRecoverPublicKey)
               else FromBytes(canonical, JoinPieces(s).value)
  {
    hide Utf8, FromBytes, Base58.Rebase, Base58.InAlphabet;
    var s := Utf8(text);
    if |s| >= 45 {
      assert s[..1] == [s[0]] && s[1..2] == [s[1]];
      OneInAlphabet(s[0]);
      OneInAlphabet(s[1]);
    }
  }

  lemma OneInAlphabet(c: Byte)
    ensures Base58.AllInAlphabet([c]) <==> Base58.InAlphabet(c)
  {
    assert [c][0] == c;
  }

  /** A string of symbols is refused for their count, for one that is not in the table, or as bytes are. */
  lemma WhyEmojiIsRefused(canonical: Canonicity, s: Text)
    ensures FromEmojiString(canonical, s)
         == if !(|s| == 35 || 67 <= |s| <= 67 + 256) then Err(InvalidSize)
            else if Emoji.FromEmoji(s).None? then Err(InvalidEmoji)
            else FromBytes(canonical, Emoji.FromEmoji(s).value)
    ensures FromHexString(canonical, s)
         == if Hex.FromHex(s).None? then Err(CannotRecoverPublicKey) else FromBytes(canonical, Hex.FromHex(s).value)
  {
    hide FromBytes, Emoji.FromEmoji, Hex.FromHex;
  }

  lemma {:induction false} SpelledIsAscii(s: Text, b: ByteString)
    requires Hex.Spells(s, b)
    ensures IsAscii(s) && Utf8(s) == s && |s| == 2 * |b|
  {
    if b != [] {
      SpelledIsAscii(s[2..], b[1..]);
      hide Hex.Spells, Utf8;
      DigitIsAscii(b[0] / 16);
      DigitIsAscii(b[0] % 16);
      assert forall i :: 2 <= i < |s| ==> s[i] == s[2..][i - 2];
    }
    Utf8OfAscii(s);
  }

  lemma DigitIsAscii(d: nat)
    requires d < 16
    ensures Hex.LOWER[d] < 128 as char && Hex.UPPER[d] < 128 as char
    ensures !IsSpace(Hex.LOWER[d] as int) && !IsSpace(Hex.UPPER[d] as int)
    ensures Hex.LOWER[d] != '|' && Hex.UPPER[d] != '|'
  {
  }

  lemma SpelledChars(s: Text, b: ByteString)
    requires Hex.Spells(s, b) && |b| > 1
    ensures |s| > 2 && (s[0] == Hex.LOWER[b[0] / 16] as int || s[0] == Hex.UPPER[b[0] / 16] as int)
    ensures b[1] < 16 ==> s[2] == '0' as int
  {
    assert s[2] == s[2..][0] && b[1] == b[1..][0];
  }

  /** No spelling of an address in hexadecimal passes an earlier attempt. */
  lemma SpelledFailsEarlier(canonical: Canonicity, s: Text, a: Address)
    requires Hex.Spells(s, ToBytes(a))
    ensures FromEmojiString(canonical, RemoveBars(TrimSpace(s))).Err? && FromBase58(canonical, s).Err?
  {
    var b := ToBytes(a);
    FirstBytes(a);
    SpelledIsAscii(s, b);
    SpelledChars(s, b);
    hide ToBytes, Hex.Spells, Utf8, Base58.Rebase, FromEmojiString, TrimSpace, RemoveBars, IsSpace;
    DigitIsAscii(b[0] / 16);
    AsciiFailsEmojiAttempt(canonical, s);
    assert s[2..][0] == '0' as int;
    assert !Base58.InAlphabet(s[2..][0]);
    assert Base58.Decode(s[2..]).None?;
  }

  /**
    What `Parse` accepts, of all strings: the emoji string of a valid address, with any white space
    around and any bars in it; its base58 string, if that has at least 45 characters; and its bytes in
    hexadecimal of either case. All else is one error.
   */
  lemma ParseIff(canonical: Canonicity, s: Text, a: Address)
    ensures Parse(canonical, s) == Ok(a) <==>
              && Valid(canonical, a)
              && (|| RemoveBars(TrimSpace(s)) == ToEmojiString(a)
                  || (s == ToBase58(a) && |s| >= 45)
                  || Hex.Spells(s, ToBytes(a)))
    ensures Parse(canonical, s).Err? ==> Parse(canonical, s).error == InvalidAddressString
  {
    hide FromEmojiString, FromBase58, FromHexString, ToEmojiString, ToBase58, ToBytes, RemoveBars, TrimSpace, Hex.Spells, Valid;
    EmojiIff(canonical, RemoveBars(TrimSpace(s)), a);
    Base58Iff(canonical, s, a);
    HexIff(canonical, s, a);
    if Hex.Spells(s, ToBytes(a)) {
      SpelledFailsEarlier(canonical, s, a);
    }
    if s == ToBase58(a) {
      PrintedFailsEarlier(canonical, a);
    }
  }

  lemma PrintedFailsEarlier(canonical: Canonicity, a: Address)
    ensures FromEmojiString(canonical, RemoveBars(TrimSpace(ToBase58(a)))).Err?
  {
    hide ToBytes, FromEmojiString, TrimSpace, RemoveBars, Base58.Encode;
    FirstBytes(a);
    AlphabetIsPlain(ToBase58(a));
    Base58.EncodeSingleByte(ToBytes(a)[0]);
    AsciiFailsEmojiAttempt(canonical, ToBase58(a));
  }
}
