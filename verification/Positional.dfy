/** Positional notation: digits of a natural number in a base, most significant first. */
module Positional {

  function Pow(base: nat, k: nat): nat {
    if k == 0 then 1 else base * Pow(base, k - 1)
  }

  predicate AreDigits(s: seq<nat>, base: nat) {
    forall i :: 0 <= i < |s| ==> s[i] < base
  }

  /** The number written s. */
  function Value(s: seq<nat>, base: nat): nat {
    if s == [] then 0 else Value(s[..|s| - 1], base) * base + s[|s| - 1]
  }

  /** The shortest notation of n; zero is the empty one. */
  function Digits(n: nat, base: nat): (s: seq<nat>)
    requires base >= 2
    ensures AreDigits(s, base)
  {
    if n == 0 then [] else Digits(n / base, base) + [n % base]
  }

  /** n in exactly w digits, dropping what does not fit. */
  function Fixed(n: nat, base: nat, w: nat): (s: seq<nat>)
    requires base >= 2
    ensures |s| == w && AreDigits(s, base)
  {
    if w == 0 then [] else Fixed(n / base, base, w - 1) + [n % base]
  }

  function LeadingZeros(s: seq<nat>): (z: nat)
    ensures z <= |s|
    ensures forall i :: 0 <= i < z ==> s[i] == 0
    ensures z < |s| ==> s[z] != 0
  {
    if s != [] && s[0] == 0 then 1 + LeadingZeros(s[1..]) else 0
  }

  function Zeros(z: nat): (s: seq<nat>)
    ensures |s| == z && forall i :: 0 <= i < z ==> s[i] == 0
  {
    seq(z, _ => 0)
  }

  lemma MulMonotone(a: nat, b: nat, c: nat)
    requires a <= b
    ensures a * c <= b * c && c * a <= c * b
  {
  }

  lemma Recombine(n: nat, base: nat)
    requires base >= 1
    ensures n / base * base + n % base == n
  {
  }

  // ---- Powers -------------------------------------------------------------------------------

  lemma PowZero(base: nat)
    ensures Pow(base, 0) == 1
  {
  }

  lemma {:induction false} PowPositive(base: nat, k: nat)
    requires base >= 1
    ensures Pow(base, k) >= 1
  {
    if k > 0 {
      PowPositive(base, k - 1);
      assert base * Pow(base, k - 1) >= 1 * 1;
    }
  }

  lemma {:induction false} PowSum(base: nat, j: nat, k: nat)
    ensures Pow(base, j + k) == Pow(base, j) * Pow(base, k)
  {
    if j == 0 {
      assert Pow(base, 0) * Pow(base, k) == Pow(base, k);
    } else {
      PowSum(base, j - 1, k);
      var a, b := Pow(base, j - 1), Pow(base, k);
      assert base * (a * b) == (base * a) * b;
    }
  }

  lemma {:induction false} PowMonotone(base: nat, j: nat, k: nat)
    requires base >= 1 && j <= k
    ensures Pow(base, j) <= Pow(base, k)
  {
    PowSum(base, j, k - j);
    PowPositive(base, k - j);
    hide Pow;
    MulMonotone(1, Pow(base, k - j), Pow(base, j));
  }

  // ---- Value and Digits are inverse ---------------------------------------------------------

  lemma ValueSnoc(s: seq<nat>, d: nat, base: nat)
    ensures Value(s + [d], base) == Value(s, base) * base + d
  {
    assert (s + [d])[..|s|] == s;
  }

  /** The last digit and the rest. */
  lemma SplitDigits(n: nat, base: nat) returns (q: nat, d: nat)
    requires base >= 2 && n > 0
    ensures n == q * base + d && q < n
    ensures Digits(n, base) == Digits(q, base) + [d]
  {
    q, d := n / base, n % base;
    Recombine(n, base);
  }

  lemma {:induction false} ValueOfDigits(n: nat, base: nat)
    requires base >= 2
    ensures Value(Digits(n, base), base) == n
  {
    if n > 0 {
      hide Digits, Value;
      var q, d := SplitDigits(n, base);
      ValueOfDigits(q, base);
      ValueSnoc(Digits(q, base), d, base);
    }
  }

  lemma {:induction false} DigitsHaveNoLeadingZero(n: nat, base: nat)
    requires base >= 2
    ensures n == 0 <==> Digits(n, base) == []
    ensures n > 0 ==> Digits(n, base)[0] != 0
  {
    if n > 0 {
      var q, d := SplitDigits(n, base);
      DigitsHaveNoLeadingZero(q, base);
      assert q == 0 ==> Digits(q, base) == [];
    }
  }

  lemma {:induction false} ValueOfZeros(z: nat, s: seq<nat>, base: nat)
    ensures Value(Zeros(z) + s, base) == Value(s, base)
  {
    if s == [] {
      if z > 0 {
        ValueOfZeros(z - 1, [], base);
        assert (Zeros(z) + [])[..z - 1] == Zeros(z - 1) + [];
      }
    } else {
      var t := Zeros(z) + s;
      assert t[..|t| - 1] == Zeros(z) + s[..|s| - 1];
      ValueOfZeros(z, s[..|s| - 1], base);
    }
  }

  lemma {:induction false} ValuePositive(s: seq<nat>, base: nat)
    requires base >= 2 && s != [] && s[0] != 0
    ensures Value(s, base) >= Pow(base, |s| - 1)
  {
    if |s| == 1 {
      assert s[..0] == [];
    } else {
      var t := s[..|s| - 1];
      ValuePositive(t, base);
      MulMonotone(Pow(base, |t| - 1), Value(t, base), base);
    }
  }

  lemma {:induction false} ValueBound(s: seq<nat>, base: nat)
    requires base >= 2 && AreDigits(s, base)
    ensures Value(s, base) < Pow(base, |s|)
  {
    if s != [] {
      var t, d := s[..|s| - 1], s[|s| - 1];
      ValueBound(t, base);
      assert Value(s, base) == Value(t, base) * base + d && Pow(base, |s|) == base * Pow(base, |t|);
      assert d < base;
      hide Value, Pow;
      AppendFits(Value(t, base), d, base, Pow(base, |t|));
    }
  }

  lemma AppendFits(v: nat, d: nat, base: nat, limit: nat)
    requires v < limit && d < base
    ensures v * base + d < base * limit
  {
    MulMonotone(v + 1, limit, base);
    assert (v + 1) * base == v * base + base;
  }

  lemma DivMod(q: nat, r: nat, base: nat)
    requires r < base
    ensures (q * base + r) / base == q && (q * base + r) % base == r
  {
    var n := q * base + r;
    assert (n / base - q) * base == r - n % base;
    assert n / base == q by {
      if n / base > q {
        MulMonotone(1, n / base - q, base);
      } else if n / base < q {
        MulMonotone(1, q - n / base, base);
      }
    }
  }

  /** The last digit comes off the value of a notation without leading zeros. */
  lemma DigitsStep(t: seq<nat>, base: nat)
    requires base >= 2 && AreDigits(t, base) && t != [] && t[0] != 0
    ensures Digits(Value(t, base), base) == Digits(Value(t[..|t| - 1], base), base) + [t[|t| - 1]]
  {
    var n, u, d := Value(t, base), Value(t[..|t| - 1], base), t[|t| - 1];
    ValuePositive(t, base);
    PowPositive(base, |t| - 1);
    assert n == u * base + d;
    hide Value, Pow;
    DivMod(u, d, base);
  }

  lemma {:induction false} DigitsOfNormal(t: seq<nat>, base: nat)
    requires base >= 2 && AreDigits(t, base) && (t != [] ==> t[0] != 0)
    ensures Digits(Value(t, base), base) == t
  {
    if t != [] {
      hide Digits, Value;
      var u := t[..|t| - 1];
      DigitsStep(t, base);
      DigitsOfNormal(u, base);
      assert t == u + [t[|t| - 1]];
    }
  }

  /** Without its leading zeros, a notation is the shortest one of its value. */
  lemma DigitsOfValue(s: seq<nat>, base: nat)
    requires base >= 2 && AreDigits(s, base)
    ensures Digits(Value(s, base), base) == s[LeadingZeros(s)..]
  {
    hide Digits, Value, LeadingZeros;
    var z := LeadingZeros(s);
    var t := s[z..];
    assert s == Zeros(z) + t;
    ValueOfZeros(z, t, base);
    DigitsOfNormal(t, base);
  }

  /** The last digit and the rest, in a fixed width. */
  lemma SplitFixed(n: nat, base: nat, w: nat) returns (q: nat, d: nat)
    requires base >= 2 && w > 0
    ensures n == q * base + d
    ensures Fixed(n, base, w) == Fixed(q, base, w - 1) + [d]
    ensures n < Pow(base, w) ==> q < Pow(base, w - 1)
  {
    q, d := n / base, n % base;
    Recombine(n, base);
    assert Pow(base, w) == base * Pow(base, w - 1);
    hide Pow, Fixed;
    if q >= Pow(base, w - 1) {
      MulMonotone(Pow(base, w - 1), q, base);
    }
  }

  lemma {:induction false} ValueOfFixed(n: nat, base: nat, w: nat)
    requires base >= 2 && n < Pow(base, w)
    ensures Value(Fixed(n, base, w), base) == n
    decreases w
  {
    hide Pow;
    if w == 0 {
      PowZero(base);
    } else {
      hide Fixed, Value;
      var q, d := SplitFixed(n, base, w);
      ValueOfFixed(q, base, w - 1);
      ValueSnoc(Fixed(q, base, w - 1), d, base);
    }
  }

  lemma {:induction false} FixedOfValue(s: seq<nat>, base: nat)
    requires base >= 2 && AreDigits(s, base)
    ensures Fixed(Value(s, base), base, |s|) == s
  {
    if s != [] {
      var t := s[..|s| - 1];
      DivMod(Value(t, base), s[|s| - 1], base);
      FixedOfValue(t, base);
      assert s == t + [s[|s| - 1]];
    }
  }

  // ---- Remainders ---------------------------------------------------------------------------

  lemma RemainderUnique(n: int, q: int, r: int, d: int)
    requires n == q * d + r && 0 <= r < d
    ensures n % d == r
  {
    var q', r' := n / d, n % d;
    assert n == q' * d + r';
    assert (q - q') * d == r' - r && (q' - q) * d == r - r';
    if q - q' >= 1 {
      MulMonotone(1, q - q', d);
    } else if q' - q >= 1 {
      MulMonotone(1, q' - q, d);
    }
  }

  /** Numbers with the same remainder differ by a multiple, and conversely. */
  lemma Congruent(m: int, n: int, d: int)
    requires d > 0
    ensures m % d == n % d <==> (m - n) % d == 0
  {
    var a, b := m / d, n / d;
    assert m == a * d + m % d && n == b * d + n % d;
    if m % d == n % d {
      assert m - n == (a - b) * d;
      RemainderUnique(m - n, a - b, 0, d);
    }
    if (m - n) % d == 0 {
      var c := (m - n) / d;
      assert m - n == c * d;
      assert m == (b + c) * d + n % d;
      RemainderUnique(m, b + c, n % d, d);
    }
  }

  // ---- Least significant first --------------------------------------------------------------

  function Reversed(s: seq<nat>): (r: seq<nat>)
    ensures |r| == |s| && forall i :: 0 <= i < |s| ==> r[i] == s[|s| - 1 - i]
  {
    if s == [] then [] else Reversed(s[1..]) + [s[0]]
  }

  /** The number whose bytes are b, the least significant one first. */
  function LittleEndian(b: seq<nat>): nat {
    Value(Reversed(b), 256)
  }

  // ---- How many digits ----------------------------------------------------------------------

  /** A number has at most k digits exactly when it is below base^k. */
  lemma {:induction false} DigitCount(n: nat, base: nat, k: nat)
    requires base >= 2
    ensures |Digits(n, base)| <= k <==> n < Pow(base, k)
  {
    var s := Digits(n, base);
    ValueOfDigits(n, base);
    ValueBound(s, base);
    if |s| <= k {
      PowMonotone(base, |s|, k);
    } else {
      DigitsHaveNoLeadingZero(n, base);
      ValuePositive(s, base);
      PowMonotone(base, k, |s| - 1);
    }
  }
}
