/** Strings as sequences of Unicode code points, and their UTF-8 bytes. */
module Text {
  import opened Bytes

  type Rune = x: int | 0 <= x < 0xD800 || 0xE000 <= x <= 0x10FFFF

  type Text = seq<Rune>

  predicate IsAscii(s: Text) {
    forall i :: 0 <= i < |s| ==> s[i] < 128
  }

  function Utf8OfRune(c: Rune): (b: ByteString)
    ensures c < 128 ==> b == [c]
    ensures c >= 128 ==> |b| >= 2 && forall i :: 0 <= i < |b| ==> b[i] >= 128
  {
    if c < 0x80 then [c]
    else if c < 0x800 then [0xC0 + c / 64, 0x80 + c % 64]
    else if c < 0x10000 then [0xE0 + c / 4096, 0x80 + c / 64 % 64, 0x80 + c % 64]
    else [0xF0 + c / 262144, 0x80 + c / 4096 % 64, 0x80 + c / 64 % 64, 0x80 + c % 64]
  }

  function Utf8(s: Text): ByteString {
    if s == [] then [] else Utf8OfRune(s[0]) + Utf8(s[1..])
  }

  lemma {:induction false} Utf8OfAscii(s: Text)
    requires IsAscii(s)
    ensures Utf8(s) == s
  {
    if s != [] {
      Utf8OfAscii(s[1..]);
    }
  }

  const BAR: Rune := 0x7C

  /** The White_Space property. */
  predicate IsSpace(c: Rune) {
    || 0x09 <= c <= 0x0D || c == 0x20 || c == 0x85 || c == 0xA0 || c == 0x1680
    || 0x2000 <= c <= 0x200A || c == 0x2028 || c == 0x2029 || c == 0x202F || c == 0x205F || c == 0x3000
  }

  function TrimLeft(s: Text): Text {
    if s != [] && IsSpace(s[0]) then TrimLeft(s[1..]) else s
  }

  function TrimRight(s: Text): Text {
    if s != [] && IsSpace(s[|s| - 1]) then TrimRight(s[..|s| - 1]) else s
  }

  function TrimSpace(s: Text): Text {
    TrimRight(TrimLeft(s))
  }

  function RemoveBars(s: Text): Text {
    if s == [] then []
    else if s[0] == BAR then RemoveBars(s[1..])
    else [s[0]] + RemoveBars(s[1..])
  }

  predicate IsBlank(s: Text) {
    forall i :: 0 <= i < |s| ==> IsSpace(s[i])
  }

  lemma {:induction false} TrimLeftPadding(before: Text, t: Text)
    requires IsBlank(before) && t != [] && !IsSpace(t[0])
    ensures TrimLeft(before + t) == t
  {
    if before == [] {
      assert before + t == t;
    } else {
      assert (before + t)[1..] == before[1..] + t;
      TrimLeftPadding(before[1..], t);
    }
  }

  lemma {:induction false} TrimRightPadding(t: Text, after: Text)
    requires IsBlank(after) && t != [] && !IsSpace(t[|t| - 1])
    ensures TrimRight(t + after) == t
  {
    if after == [] {
      assert t + after == t;
    } else {
      var n := |after| - 1;
      assert (t + after)[..|t| + n] == t + after[..n];
      TrimRightPadding(t, after[..n]);
    }
  }

  /** Trimming takes off exactly the white space on both sides. */
  lemma TrimPadding(before: Text, t: Text, after: Text)
    requires IsBlank(before) && IsBlank(after)
    requires t != [] && !IsSpace(t[0]) && !IsSpace(t[|t| - 1])
    ensures TrimSpace(before + t + after) == t
  {
    hide TrimLeft, TrimRight, IsSpace;
    assert before + t + after == before + (t + after);
    TrimLeftPadding(before, t + after);
    TrimRightPadding(t, after);
  }

  /** A string with no white space and no bar. */
  predicate IsPlain(s: Text) {
    forall i :: 0 <= i < |s| ==> !IsSpace(s[i]) && s[i] != BAR
  }

  lemma {:induction false} PlainKeepsBars(s: Text)
    requires IsPlain(s)
    ensures RemoveBars(s) == s
  {
    if s != [] {
      PlainKeepsBars(s[1..]);
    }
  }

  // ---- The same by other means --------------------------------------------------------------

  /** A byte with the bits 10 in front carries six bits. */
  predicate IsContinuation(b: Byte) { 128 <= b < 192 }

  /** UTF-8: up to four bytes, the first telling how many, six bits in every further one; none shorter would do. */
  lemma Utf8IsStandard(c: Rune)
    ensures var b := Utf8OfRune(c);
            && |b| == (if c < 0x80 then 1 else if c < 0x800 then 2 else if c < 0x1_0000 then 3 else 4)
            && (forall i :: 1 <= i < |b| ==> IsContinuation(b[i]))
            && (|b| == 1 ==> b[0] == c)
            && (|b| == 2 ==> 192 <= b[0] < 224 && 64 * (b[0] - 192) as int + (b[1] - 128) as int == c)
            && (|b| == 3 ==> 224 <= b[0] < 240
                             && 4096 * (b[0] - 224) as int + 64 * (b[1] - 128) as int + (b[2] - 128) as int == c)
            && (|b| == 4 ==> 240 <= b[0] < 248
                             && 262144 * (b[0] - 240) as int + 4096 * (b[1] - 128) as int + 64 * (b[2] - 128) as int
                                + (b[3] - 128) as int == c)
  {
    SixBits(c);
    hide IsContinuation;
    if c < 0x80 {
    } else if c < 0x800 {
      ContinuationIs(c % 64);
    } else {
      ContinuationIs(c % 64);
      ContinuationIs(c / 64 % 64);
      ContinuationIs(c / 4096 % 64);
    }
  }

  lemma ContinuationIs(d: nat)
    requires d < 64
    ensures IsContinuation(128 + d)
  {
  }

  lemma SixBits(c: nat)
    ensures c == 64 * (c / 64) + c % 64
    ensures c == 4096 * (c / 4096) + 64 * (c / 64 % 64) + c % 64
    ensures c == 262144 * (c / 262144) + 4096 * (c / 4096 % 64) + 64 * (c / 64 % 64) + c % 64
  {
    var q, r := c / 64, c / 4096;
    assert q / 64 == r && r / 64 == c / 262144;
  }

  /** Exactly these 25 code points are white space. */
  lemma SpacesAre(c: Rune)
    ensures IsSpace(c) <==>
              c in {0x09, 0x0A, 0x0B, 0x0C, 0x0D, 0x20, 0x85, 0xA0, 0x1680, 0x2000, 0x2001, 0x2002, 0x2003,
                    0x2004, 0x2005, 0x2006, 0x2007, 0x2008, 0x2009, 0x200A, 0x2028, 0x2029, 0x202F, 0x205F, 0x3000}
  {
  }

  lemma {:induction false} TrimLeftTakes(s: Text) returns (before: Text)
    ensures s == before + TrimLeft(s) && IsBlank(before)
    ensures TrimLeft(s) != [] ==> !IsSpace(TrimLeft(s)[0])
  {
    before := [];
    if s != [] && IsSpace(s[0]) {
      before := TrimLeftTakes(s[1..]);
      before := [s[0]] + before;
      assert s == [s[0]] + s[1..];
    }
  }

  lemma {:induction false} TrimRightTakes(s: Text) returns (after: Text)
    ensures s == TrimRight(s) + after && IsBlank(after)
    ensures TrimRight(s) != [] ==> !IsSpace(TrimRight(s)[|TrimRight(s)| - 1])
  {
    after := [];
    if s != [] && IsSpace(s[|s| - 1]) {
      var n := |s| - 1;
      after := TrimRightTakes(s[..n]);
      after := after + [s[n]];
      assert s == s[..n] + [s[n]];
    }
  }

  /** Trimming takes off white space on both sides, and no more is left there. */
  lemma TrimTakes(s: Text) returns (before: Text, after: Text)
    ensures s == before + TrimSpace(s) + after && IsBlank(before) && IsBlank(after)
    ensures var t := TrimSpace(s); t != [] ==> !IsSpace(t[0]) && !IsSpace(t[|t| - 1])
  {
    hide TrimLeft, TrimRight, IsSpace;
    before := TrimLeftTakes(s);
    after := TrimRightTakes(TrimLeft(s));
    var t := TrimSpace(s);
    if t != [] {
      assert t[0] == TrimLeft(s)[0];
    }
  }

  /** Bars go, wherever they are, and all else stays in order. */
  lemma {:induction false} RemoveBarsSplit(s: Text, t: Text)
    ensures RemoveBars(s + t) == RemoveBars(s) + RemoveBars(t)
    ensures RemoveBars([BAR]) == []
    ensures forall c: Rune :: c != 0x7C ==> RemoveBars([c]) == [c]
  {
    assert [BAR][1..] == [];
    forall c: Rune | c != 0x7C
      ensures RemoveBars([c]) == [c]
    {
      assert [c][1..] == [];
    }
    if s == [] {
      assert s + t == t;
    } else {
      assert (s + t)[1..] == s[1..] + t;
      RemoveBarsSplit(s[1..], t);
    }
  }
}
