/** Lower-case hexadecimal, as printed for addresses and peer-store keys; both cases are read. */
module Hex {
  import opened Bytes
  import opened Text

  function HexChar(d: nat): (c: Byte)
    requires d < 16
    ensures 48 <= c <= 57 || 97 <= c <= 102
  {
    if d < 10 then '0' as int + d else 'a' as int + (d - 10)
  }

  function HexDigit(c: Rune): (d: Option<nat>)
    ensures d.Some? ==> d.value < 16
  {
    if '0' as int <= c <= '9' as int then Some(c - '0' as int)
    else if 'a' as int <= c <= 'f' as int then Some(c - 'a' as int + 10)
    else if 'A' as int <= c <= 'F' as int then Some(c - 'A' as int + 10)
    else None
  }

  function ToHex(b: ByteString): (s: ByteString)
    ensures |s| == 2 * |b|
    ensures forall i :: 0 <= i < |s| ==> 48 <= s[i] <= 102
  {
    if b == [] then [] else [HexChar(b[0] / 16), HexChar(b[0] % 16)] + ToHex(b[1..])
  }

  function FromHex(s: Text): Option<ByteString> {
    if s == [] then Some([])
    else if |s| == 1 then None
    else
      match (HexDigit(s[0]), HexDigit(s[1]), FromHex(s[2..]))
      case (Some(high), Some(low), Some(rest)) => Some([high * 16 + low] + rest)
      case _ => None
  }

  lemma {:induction false} FromToHex(b: ByteString)
    ensures FromHex(ToHex(b)) == Some(b)
  {
    if b != [] {
      var s := ToHex(b);
      assert s[2..] == ToHex(b[1..]);
      FromToHex(b[1..]);
      assert b[0] / 16 * 16 + b[0] % 16 == b[0];
      assert HexDigit(HexChar(b[0] / 16)) == Some(b[0] / 16);
      assert HexDigit(HexChar(b[0] % 16)) == Some(b[0] % 16);
      assert b == [b[0]] + b[1..];
    }
  }

  lemma ToHexInjective(a: ByteString, b: ByteString)
    requires ToHex(a) == ToHex(b)
    ensures a == b
  {
    FromToHex(a);
    FromToHex(b);
  }

  // ---- The digits, in either case -----------------------------------------------------------

  const LOWER := "0123456789abcdef"
  const UPPER := "0123456789ABCDEF"

  /** Each byte is two lower-case digits, the high one first. */
  lemma {:induction false} ToHexIs(b: ByteString, i: nat)
    requires i < |b|
    ensures ToHex(b)[2 * i] == LOWER[b[i] / 16] as int && ToHex(b)[2 * i + 1] == LOWER[b[i] % 16] as int
  {
    hide HexChar;
    if i == 0 {
      HexCharIs(b[0] / 16);
      HexCharIs(b[0] % 16);
    } else {
      ToHexIs(b[1..], i - 1);
    }
  }

  lemma HexCharIs(d: nat)
    requires d < 16
    ensures HexChar(d) == LOWER[d] as int
  {
  }

  /** A character is a digit if it stands at its value in one of the two rows. */
  lemma HexDigitIs(c: Rune, d: nat)
    requires d < 16
    ensures HexDigit(c) == Some(d) <==> c == LOWER[d] as int || c == UPPER[d] as int
  {
    if d < 10 {
      assert LOWER[d] == UPPER[d] == '0' + d as char;
    } else {
      assert LOWER[d] == 'a' + (d - 10) as char && UPPER[d] == 'A' + (d - 10) as char;
    }
  }

  /** The string spells the bytes, each letter in either case. */
  predicate Spells(s: Text, b: ByteString) {
    if b == [] then s == []
    else
      && |s| >= 2
      && (s[0] == LOWER[b[0] / 16] as int || s[0] == UPPER[b[0] / 16] as int)
      && (s[1] == LOWER[b[0] % 16] as int || s[1] == UPPER[b[0] % 16] as int)
      && Spells(s[2..], b[1..])
  }

  lemma Pair(s: Text, h: nat, l: nat)
    requires |s| >= 2 && h < 16 && l < 16
    ensures (s[0] == LOWER[h] as int || s[0] == UPPER[h] as int) && (s[1] == LOWER[l] as int || s[1] == UPPER[l] as int)
       <==> HexDigit(s[0]) == Some(h) && HexDigit(s[1]) == Some(l)
  {
    HexDigitIs(s[0], h);
    HexDigitIs(s[1], l);
  }

  /** A string is read as some bytes exactly if it spells them, in any mixture of cases. */
  lemma {:induction false} FromHexReadsBothCases(s: Text, b: ByteString)
    ensures FromHex(s) == Some(b) <==> Spells(s, b)
  {
    hide HexDigit;
    if |s| >= 2 && b != [] {
      FromHexReadsBothCases(s[2..], b[1..]);
      Pair(s, b[0] / 16, b[0] % 16);
      assert b == [b[0]] + b[1..];
      assert b[0] / 16 * 16 + b[0] % 16 == b[0];
      if FromHex(s) == Some(b) {
        var h, l := HexDigit(s[0]).value, HexDigit(s[1]).value;
        assert b[0] == h * 16 + l && b[0] / 16 == h && b[0] % 16 == l;
        assert b[1..] == FromHex(s[2..]).value;
      }
    }
  }
}
