/**
  Base58 by its standard definition (draft-msporny-base58, sections 2 to 4): each leading zero byte
  is one '1', and the rest is the big-endian base-58 notation of the number the bytes spell.
 */
module Base58 {
  import opened Bytes
  import opened Positional

  // ---- The alphabet: no '0', 'O', 'I' or 'l' ------------------------------------------------

  /** The character of a digit. */
  function Symbol(d: nat): (c: Byte)
    requires d < 58
    ensures 49 <= c <= 122
  {
    if d < 9 then '1' as int + d
    else if d < 17 then 'A' as int + (d - 9)
    else if d < 22 then 'J' as int + (d - 17)
    else if d < 33 then 'P' as int + (d - 22)
    else if d < 44 then 'a' as int + (d - 33)
    else 'm' as int + (d - 44)
  }

  predicate InAlphabet(c: Byte) {
    || '1' as int <= c <= '9' as int
    || 'A' as int <= c <= 'H' as int
    || 'J' as int <= c <= 'N' as int
    || 'P' as int <= c <= 'Z' as int
    || 'a' as int <= c <= 'k' as int
    || 'm' as int <= c <= 'z' as int
  }

  function Digit(c: Byte): (d: nat)
    requires InAlphabet(c)
    ensures d < 58
  {
    if c <= '9' as int then c - '1' as int
    else if c <= 'H' as int then c - 'A' as int + 9
    else if c <= 'N' as int then c - 'J' as int + 17
    else if c <= 'Z' as int then c - 'P' as int + 22
    else if c <= 'k' as int then c - 'a' as int + 33
    else c - 'm' as int + 44
  }

  lemma SymbolDigit(d: nat)
    requires d < 58
    ensures InAlphabet(Symbol(d)) && Digit(Symbol(d)) == d
  {
  }

  lemma DigitSymbol(c: Byte)
    requires InAlphabet(c)
    ensures Symbol(Digit(c)) == c
  {
  }

  function Symbols(digits: seq<nat>): (s: ByteString)
    requires AreDigits(digits, 58)
    ensures |s| == |digits|
    ensures forall i :: 0 <= i < |s| ==> InAlphabet(s[i]) && Digit(s[i]) == digits[i]
  {
    seq(|digits|, i requires 0 <= i < |digits| => SymbolDigit(digits[i]); Symbol(digits[i]))
  }

  predicate AllInAlphabet(s: ByteString) {
    forall i :: 0 <= i < |s| ==> InAlphabet(s[i])
  }

  function DigitsOf(s: ByteString): (digits: seq<nat>)
    requires AllInAlphabet(s)
    ensures |digits| == |s| && AreDigits(digits, 58)
    ensures forall i :: 0 <= i < |s| ==> digits[i] == Digit(s[i])
  {
    seq(|s|, i requires 0 <= i < |s| => Digit(s[i]))
  }

  // ---- Changing base ------------------------------------------------------------------------

  /** The same number in another base, keeping the count of leading zeros. */
  function Rebase(s: seq<nat>, from: nat, to: nat): (t: seq<nat>)
    requires from >= 2 && to >= 2
    ensures AreDigits(t, to)
  {
    Zeros(LeadingZeros(s)) + Digits(Value(s, from), to)
  }

  lemma {:induction false} LeadingZerosOf(z: nat, t: seq<nat>)
    requires t != [] ==> t[0] != 0
    ensures LeadingZeros(Zeros(z) + t) == z
  {
    var s := Zeros(z) + t;
    if z > 0 {
      assert s[1..] == Zeros(z - 1) + t;
      LeadingZerosOf(z - 1, t);
    } else {
      assert s == t;
    }
  }

  /** Changing base is a bijection between digit strings of either base. */
  lemma RebaseRoundTrip(s: seq<nat>, from: nat, to: nat)
    requires from >= 2 && to >= 2
    requires AreDigits(s, from)
    ensures Rebase(Rebase(s, from, to), to, from) == s
  {
    hide LeadingZeros, Value, Digits;
    var z, n := LeadingZeros(s), Value(s, from);
    DigitsHaveNoLeadingZero(n, to);
    LeadingZerosOf(z, Digits(n, to));
    ValueOfZeros(z, Digits(n, to), to);
    ValueOfDigits(n, to);
    DigitsOfValue(s, from);
    assert Rebase(s, from, to) == Zeros(z) + Digits(n, to);
    hide Rebase;
    RebaseIs(Rebase(s, from, to), to, from);
    assert Zeros(z) + s[z..] == s;
  }

  lemma RebaseIs(s: seq<nat>, from: nat, to: nat)
    requires from >= 2 && to >= 2
    ensures Rebase(s, from, to) == Zeros(LeadingZeros(s)) + Digits(Value(s, from), to)
  {
  }

  // ---- Encoding and decoding ----------------------------------------------------------------

  function Encode(b: ByteString): (s: ByteString)
    ensures AllInAlphabet(s)
  {
    Symbols(Rebase(b, 256, 58))
  }

  /** Empty strings and characters outside the alphabet are refused. */
  function Decode(s: ByteString): Option<ByteString> {
    if s == [] || !AllInAlphabet(s) then None
    else Some(Rebase(DigitsOf(s), 58, 256))
  }

  lemma DecodeEncode(b: ByteString)
    requires b != []
    ensures Decode(Encode(b)) == Some(b)
  {
    var d := Rebase(b, 256, 58);
    RebaseRoundTrip(b, 256, 58);
    assert DigitsOf(Encode(b)) == d;
  }

  /** No two strings decode alike: what decodes is the encoding of its result. */
  lemma EncodeDecode(s: ByteString)
    requires Decode(s).Some?
    ensures Encode(Decode(s).value) == s
  {
    RebaseRoundTrip(DigitsOf(s), 58, 256);
    var t := Symbols(DigitsOf(s));
    forall i | 0 <= i < |s|
      ensures t[i] == s[i]
    {
      DigitSymbol(s[i]);
      DigitSymbol(t[i]);
    }
  }

  /** A byte below 58 is one character. */
  lemma EncodeSingleByte(b: Byte)
    requires b < 58
    ensures Encode([b]) == [Symbol(b)]
  {
    assert Value([b], 256) == b by { assert [b][..0] == []; }
    var d := Rebase([b], 256, 58);
    if b == 0 {
      assert LeadingZeros([b]) == 1;
      assert d == [0];
    } else {
      assert Digits(b, 58) == Digits(b / 58, 58) + [b % 58] == [b];
      assert d == [b];
    }
    DigitSymbol(Encode([b])[0]);
  }

  /** One character is one byte. */
  lemma DecodeSingle(c: Byte)
    ensures Decode([c]).Some? ==> |Decode([c]).value| == 1
  {
    if InAlphabet(c) {
      var d := Digit(c);
      DigitSymbol(c);
      hide Symbol, Digit, Encode, Decode;
      EncodeSingleByte(d);
      DecodeEncode([d]);
    }
  }

  // ---- The same by the standard's terms -----------------------------------------------------

  // 0, O, I and l are left out
  const NUMERALS := "123456789"
  const CAPITALS := "ABCDEFGH" + "JKLMN" + "PQRSTUVWXYZ"
  const SMALL := "abcdefghijk" + "mnopqrstuvwxyz"
  const ALPHABET := NUMERALS + CAPITALS + SMALL

  lemma AlphabetSize()
    ensures |ALPHABET| == 58
  {
  }

  /** Digit d is character d of the alphabet. */
  lemma SymbolIs(d: nat)
    requires d < 58
    ensures |ALPHABET| == 58 && Symbol(d) == ALPHABET[d] as int
  {
    AlphabetSize();
    if d < 9 {
      assert ALPHABET[d] == NUMERALS[d];
    } else if d < 33 {
      CapitalIs(d - 9);
      assert ALPHABET[d] == CAPITALS[d - 9];
    } else {
      SmallIs(d - 33);
      assert ALPHABET[d] == SMALL[d - 33];
    }
  }

  lemma CapitalIs(k: nat)
    requires k < 24
    ensures |CAPITALS| == 24 && CAPITALS[k] as int == Symbol(9 + k)
  {
    if k < 8 {
      assert CAPITALS[k] == "ABCDEFGH"[k];
    } else if k < 13 {
      assert CAPITALS[k] == "JKLMN"[k - 8];
    } else {
      assert CAPITALS[k] == "PQRSTUVWXYZ"[k - 13];
    }
  }

  lemma SmallIs(k: nat)
    requires k < 25
    ensures |SMALL| == 25 && SMALL[k] as int == Symbol(33 + k)
  {
    if k < 11 {
      assert SMALL[k] == "abcdefghijk"[k];
    } else {
      assert SMALL[k] == "mnopqrstuvwxyz"[k - 11];
    }
  }

  /** A character belongs to the alphabet if it stands in it, at the place of its digit. */
  lemma AlphabetIs(c: Byte)
    ensures InAlphabet(c) <==> exists d :: 0 <= d < |ALPHABET| && ALPHABET[d] as int == c
    ensures InAlphabet(c) ==> ALPHABET[Digit(c)] as int == c
  {
    AlphabetSize();
    if InAlphabet(c) {
      DigitSymbol(c);
      SymbolIs(Digit(c));
    }
    forall d | 0 <= d < |ALPHABET| && ALPHABET[d] as int == c
      ensures InAlphabet(c)
    {
      SymbolIs(d);
      SymbolDigit(d);
    }
  }

  /**
    The characters of an encoding are digits of the alphabet that spell, in base 58, the number that
    the bytes spell in base 256, with as many zeros in front.
   */
  lemma EncodeKeepsValue(b: ByteString) returns (digits: seq<nat>)
    ensures |digits| == |Encode(b)| && AreDigits(digits, 58) && |ALPHABET| == 58
    ensures forall i :: 0 <= i < |digits| ==> Encode(b)[i] == ALPHABET[digits[i]] as int
    ensures Value(digits, 58) == Value(b, 256)
    ensures LeadingZeros(digits) == LeadingZeros(b)
  {
    hide Value, Digits, LeadingZeros, Symbol, Digit, InAlphabet;
    AlphabetSize();
    var z, n := LeadingZeros(b), Value(b, 256);
    digits := Rebase(b, 256, 58);
    DigitsHaveNoLeadingZero(n, 58);
    LeadingZerosOf(z, Digits(n, 58));
    ValueOfZeros(z, Digits(n, 58), 58);
    ValueOfDigits(n, 58);
    forall i | 0 <= i < |digits|
      ensures Encode(b)[i] == ALPHABET[digits[i]] as int
    {
      DigitSymbol(Encode(b)[i]);
      SymbolIs(digits[i]);
    }
  }

  /** Decoding refuses the empty string and any character that does not stand in the alphabet, and nothing else. */
  lemma DecodeRefuses(s: ByteString)
    ensures Decode(s).None? <==>
              s == [] || exists i :: 0 <= i < |s| && forall d :: 0 <= d < |ALPHABET| ==> ALPHABET[d] as int != s[i]
  {
    hide InAlphabet, Digit;
    if exists i :: 0 <= i < |s| && !InAlphabet(s[i]) {
      var i :| 0 <= i < |s| && !InAlphabet(s[i]);
      AlphabetIs(s[i]);
    }
    forall i | 0 <= i < |s| && InAlphabet(s[i])
      ensures exists d :: 0 <= d < |ALPHABET| && ALPHABET[d] as int == s[i]
    {
      AlphabetIs(s[i]);
    }
  }

  // ---- Lengths ------------------------------------------------------------------------------

  /**
    With z leading zeros and n other bytes the encoding has z plus k characters, where k is between
    any a with 58^a <= 256^(n-1) (exclusive) and any c with 256^n <= 58^c (inclusive).
   */
  lemma EncodeLength(b: ByteString, a: nat, c: nat)
    requires LeadingZeros(b) < |b|
    requires Pow(58, a) <= Pow(256, |b| - LeadingZeros(b) - 1)
    requires Pow(256, |b| - LeadingZeros(b)) <= Pow(58, c)
    ensures LeadingZeros(b) + a < |Encode(b)| <= LeadingZeros(b) + c
  {
    hide Pow, Value, Digits, LeadingZeros;
    var z := LeadingZeros(b);
    var t := b[z..];
    assert b == Zeros(z) + t;
    ValueOfZeros(z, t, 256);
    ValuePositive(t, 256);
    ValueBound(t, 256);
    DigitCount(Value(t, 256), 58, a);
    DigitCount(Value(t, 256), 58, c);
    assert |Encode(b)| == z + |Digits(Value(t, 256), 58)|;
  }

  lemma {:induction false} Pow58Below256(k: nat)
    ensures Pow(58, k) <= Pow(256, k)
  {
    if k > 0 {
      Pow58Below256(k - 1);
      MulMonotone(Pow(58, k - 1), Pow(256, k - 1), 58);
    }
  }

  /** The encoding is never shorter than the bytes. */
  lemma EncodeNotShorter(b: ByteString)
    ensures |Encode(b)| >= |b|
  {
    var z := LeadingZeros(b);
    if z < |b| {
      var t := b[z..];
      assert b == Zeros(z) + t;
      ValueOfZeros(z, t, 256);
      ValuePositive(t, 256);
      Pow58Below256(|t| - 1);
      DigitCount(Value(t, 256), 58, |t| - 1);
    }
  }
}
