/**
  The DammSum check byte of a Tari address (address/dammsum.go).

  A byte is a polynomial over GF(2) modulo x^8 + x^4 + x^3 + x + 1, whose low byte is the mask 27.
  The program folds one running byte over the data; the reference definition `Polynomial` is the
  value at x of the polynomial whose coefficients are the data.
 */
module DammSum {
  import opened Bytes

  datatype ChecksumError = InvalidChecksum

  // ---- Bytes as bit vectors -----------------------------------------------------------------

  datatype Bits = Bits(b7: bool, b6: bool, b5: bool, b4: bool, b3: bool, b2: bool, b1: bool, b0: bool)

  const ZERO := Bits(false, false, false, false, false, false, false, false)
  const ONE := Bits(false, false, false, false, false, false, false, true)

  // 27 = 2^4 + 2^3 + 2^1 + 2^0
  const MASK := Bits(false, false, false, true, true, false, true, true)

  function Join(low: bool, high: nat): nat {
    (if low then 1 else 0) + 2 * high
  }

  function Odd(x: nat): bool { x % 2 == 1 }

  function Half(x: nat): nat { x / 2 }

  function ToByte(b: Bits): Byte {
    Join(b.b0, Join(b.b1, Join(b.b2, Join(b.b3, Join(b.b4, Join(b.b5, Join(b.b6, Join(b.b7, 0))))))))
  }

  function ToBits(x: Byte): Bits {
    var x1 := Half(x);
    var x2 := Half(x1);
    var x3 := Half(x2);
    var x4 := Half(x3);
    var x5 := Half(x4);
    var x6 := Half(x5);
    var x7 := Half(x6);
    Bits(Odd(x7), Odd(x6), Odd(x5), Odd(x4), Odd(x3), Odd(x2), Odd(x1), Odd(x))
  }

  lemma JoinOdd(x: nat)
    ensures Join(Odd(x), Half(x)) == x
  {
  }

  lemma SplitJoin(low: bool, high: nat)
    ensures Odd(Join(low, high)) == low && Half(Join(low, high)) == high
  {
  }

  lemma ByteRoundTrip(x: Byte)
    ensures ToByte(ToBits(x)) == x
  {
    var x1 := Half(x);
    var x2 := Half(x1);
    var x3 := Half(x2);
    var x4 := Half(x3);
    var x5 := Half(x4);
    var x6 := Half(x5);
    var x7 := Half(x6);
    assert Half(x7) == 0;
    hide Join, Odd, Half;
    JoinOdd(x); JoinOdd(x1); JoinOdd(x2); JoinOdd(x3);
    JoinOdd(x4); JoinOdd(x5); JoinOdd(x6); JoinOdd(x7);
  }

  lemma BitsRoundTrip(b: Bits)
    ensures ToBits(ToByte(b)) == b
  {
    hide Join, Odd, Half;
    var x7 := Join(b.b7, 0);
    var x6 := Join(b.b6, x7);
    var x5 := Join(b.b5, x6);
    var x4 := Join(b.b4, x5);
    var x3 := Join(b.b3, x4);
    var x2 := Join(b.b2, x3);
    var x1 := Join(b.b1, x2);
    SplitJoin(b.b7, 0); SplitJoin(b.b6, x7); SplitJoin(b.b5, x6); SplitJoin(b.b4, x5);
    SplitJoin(b.b3, x4); SplitJoin(b.b2, x3); SplitJoin(b.b1, x2); SplitJoin(b.b0, x1);
  }

  function Xor(a: Bits, b: Bits): Bits {
    Bits(a.b7 != b.b7, a.b6 != b.b6, a.b5 != b.b5, a.b4 != b.b4,
         a.b3 != b.b3, a.b2 != b.b2, a.b1 != b.b1, a.b0 != b.b0)
  }

  function ShiftLeft(b: Bits): Bits {
    Bits(b.b6, b.b5, b.b4, b.b3, b.b2, b.b1, b.b0, false)
  }

  lemma XorZero(a: Bits, b: Bits)
    ensures Xor(a, b) == ZERO <==> a == b
  {
  }

  lemma XorUnit(a: Bits)
    ensures Xor(a, ZERO) == a && Xor(ZERO, a) == a
  {
  }

  lemma XorAssociates(a: Bits, b: Bits, c: Bits)
    ensures Xor(Xor(a, b), c) == Xor(a, Xor(b, c))
    ensures Xor(Xor(a, b), c) == Xor(Xor(a, c), b)
  {
  }

  // ---- Multiplication by x ------------------------------------------------------------------

  /** b * x: bits 4, 3, 1 and 0 pick up the bit that falls out at the top. */
  function Double(b: Bits): Bits {
    Bits(b.b6, b.b5, b.b4, b.b3 != b.b7, b.b2 != b.b7, b.b1, b.b0 != b.b7, b.b7)
  }

  /** b * x^k. */
  function Times(b: Bits, k: nat): Bits {
    if k == 0 then b else Double(Times(b, k - 1))
  }

  lemma DoubleLinear(a: Bits, b: Bits)
    ensures Double(Xor(a, b)) == Xor(Double(a), Double(b))
  {
  }

  lemma DoubleKernel(a: Bits)
    ensures Double(a) == ZERO <==> a == ZERO
  {
  }

  lemma {:induction false} TimesLinear(a: Bits, b: Bits, k: nat)
    ensures Times(Xor(a, b), k) == Xor(Times(a, k), Times(b, k))
  {
    hide Double, Xor;
    if k > 0 {
      TimesLinear(a, b, k - 1);
      DoubleLinear(Times(a, k - 1), Times(b, k - 1));
    }
  }

  lemma {:induction false} TimesKernel(a: Bits, k: nat)
    ensures Times(a, k) == ZERO <==> a == ZERO
  {
    if k > 0 {
      DoubleKernel(Times(a, k - 1));
      TimesKernel(a, k - 1);
    }
  }

  lemma {:induction false} TimesSum(b: Bits, m: nat, k: nat)
    ensures Times(b, m + k) == Times(Times(b, m), k)
  {
    hide Double;
    if k > 0 {
      TimesSum(b, m, k - 1);
    }
  }

  /** A fixed point of x^m is a fixed point of every power of x^m. */
  lemma {:induction false} FixedByMultiples(b: Bits, m: nat, t: nat)
    requires Times(b, m) == b
    ensures Times(b, m * t) == b
  {
    hide Double;
    if t > 0 {
      FixedByMultiples(b, m, t - 1);
      assert m * t == m * (t - 1) + m;
      TimesSum(b, m * (t - 1), m);
    }
  }

  // ---- The order of x is 51 = 3 * 17 --------------------------------------------------------

  function Times8(b: Bits): Bits {
    Double(Double(Double(Double(Double(Double(Double(Double(b))))))))
  }

  /** b * w, where w = x^17. */
  function TimesW(b: Bits): Bits {
    Double(Times8(Times8(b)))
  }

  lemma {:induction false} TimesStep(b: Bits, k: nat)
    ensures Times(b, k + 1) == Double(Times(b, k))
  {
  }

  lemma Times8Is(b: Bits)
    ensures Times8(b) == Times(b, 8)
  {
    hide Double;
    assert Times(b, 0) == b;
    hide Times;
    TimesStep(b, 0); TimesStep(b, 1); TimesStep(b, 2); TimesStep(b, 3);
    TimesStep(b, 4); TimesStep(b, 5); TimesStep(b, 6); TimesStep(b, 7);
  }

  lemma TimesWIs(b: Bits)
    ensures TimesW(b) == Times(b, 17)
  {
    hide Double, Times, Times8;
    Times8Is(b);
    Times8Is(Times8(b));
    TimesSum(b, 8, 8);
    TimesStep(b, 16);
  }

  lemma TimesWLinear(a: Bits, b: Bits)
    ensures TimesW(Xor(a, b)) == Xor(TimesW(a), TimesW(b))
  {
    hide *;
    TimesWIs(a);
    TimesWIs(b);
    TimesWIs(Xor(a, b));
    TimesLinear(a, b, 17);
  }

  lemma TimesWDouble(b: Bits)
    ensures TimesW(Double(b)) == Double(TimesW(b))
  {
    assert Double(b) == Times(b, 1);
    hide *;
    TimesWIs(b);
    TimesWIs(Double(b));
    TimesSum(b, 1, 17);
    TimesStep(b, 17);
  }

  /** b * (w^2 + w + 1) == 0. */
  ghost predicate CubeRootAt(b: Bits) {
    TimesW(TimesW(b)) == Xor(TimesW(b), b)
  }

  lemma CubeRootAtOne()
    ensures CubeRootAt(ONE)
  {
  }

  lemma XorExchange(u: Bits, a: Bits, v: Bits, b: Bits)
    ensures Xor(Xor(u, a), Xor(v, b)) == Xor(Xor(u, v), Xor(a, b))
  {
  }

  lemma CubeRootSum(a: Bits, b: Bits)
    requires CubeRootAt(a) && CubeRootAt(b)
    ensures CubeRootAt(Xor(a, b))
  {
    hide Double, Xor, TimesW;
    var u, v := TimesW(a), TimesW(b);
    TimesWLinear(a, b);
    TimesWLinear(u, v);
    XorExchange(u, a, v, b);
  }

  lemma CubeRootDouble(b: Bits)
    requires CubeRootAt(b)
    ensures CubeRootAt(Double(b))
  {
    hide Double, Xor, TimesW;
    TimesWDouble(b);
    TimesWDouble(TimesW(b));
    DoubleLinear(TimesW(b), b);
  }

  function Monomial(i: nat): Bits {
    Bits(i == 7, i == 6, i == 5, i == 4, i == 3, i == 2, i == 1, i == 0)
  }

  lemma MonomialZero()
    ensures Monomial(0) == ONE
  {
  }

  lemma DoubleMonomial(i: nat)
    requires i < 7
    ensures Double(Monomial(i)) == Monomial(i + 1)
  {
  }

  lemma {:induction false} CubeRootMonomial(i: nat)
    requires i < 8
    ensures CubeRootAt(Monomial(i))
  {
    hide *;
    if i == 0 {
      MonomialZero();
      CubeRootAtOne();
    } else {
      CubeRootMonomial(i - 1);
      CubeRootDouble(Monomial(i - 1));
      DoubleMonomial(i - 1);
    }
  }

  /** The terms of b below x^i. */
  function Low(b: Bits, i: nat): Bits {
    Bits(b.b7 && i > 7, b.b6 && i > 6, b.b5 && i > 5, b.b4 && i > 4,
         b.b3 && i > 3, b.b2 && i > 2, b.b1 && i > 1, b.b0 && i > 0)
  }

  lemma LowEnds(b: Bits)
    ensures Low(b, 0) == ZERO
    ensures Low(b, 8) == b
  {
  }

  lemma LowStep(b: Bits, i: nat)
    requires i < 8
    ensures Low(b, i + 1) == Low(b, i) || Low(b, i + 1) == Xor(Low(b, i), Monomial(i))
  {
  }

  lemma CubeRootAtZero()
    ensures CubeRootAt(ZERO)
  {
  }

  lemma {:induction false} CubeRootLow(b: Bits, i: nat)
    requires i <= 8
    ensures CubeRootAt(Low(b, i))
  {
    hide *;
    if i == 0 {
      LowEnds(b);
      CubeRootAtZero();
    } else {
      CubeRootLow(b, i - 1);
      CubeRootMonomial(i - 1);
      CubeRootSum(Low(b, i - 1), Monomial(i - 1));
      LowStep(b, i - 1);
    }
  }

  lemma XorCancels(w: Bits, b: Bits)
    ensures Xor(Xor(w, b), w) == b
    ensures w == b ==> Xor(w, b) == ZERO
  {
  }

  /** x^17 is a primitive cube root of unity, so x^51 = 1. */
  lemma CubeRoot(b: Bits)
    ensures Times(b, 51) == b
    ensures Times(b, 17) == b ==> b == ZERO
  {
    hide Double, Times, Times8, TimesW, Xor, Low;
    LowEnds(b);
    CubeRootLow(b, 8);
    var w := TimesW(b);
    assert TimesW(w) == Xor(w, b);
    TimesWIs(b);
    TimesWIs(w);
    TimesWIs(Xor(w, b));
    TimesWLinear(w, b);
    XorCancels(w, b);
    TimesSum(b, 17, 17);
    TimesSum(b, 34, 17);
  }

  lemma Times3NotFixed(b: Bits)
    requires Times(b, 3) == b
    ensures b == ZERO
  {
    assert Times(b, 0) == b;
    TimesStep(b, 0);
    TimesStep(b, 1);
    TimesStep(b, 2);
    hide Times;
    assert Double(Double(Double(b))) == b;
  }

  lemma ReduceMod51(b: Bits, n: nat, r: nat)
    requires n % 51 == r % 51
    ensures Times(b, n) == Times(b, r)
  {
    hide *;
    CubeRoot(b);
    var rest := r % 51;
    FixedByMultiples(b, 51, n / 51);
    TimesSum(b, 51 * (n / 51), rest);
    FixedByMultiples(b, 51, r / 51);
    TimesSum(b, 51 * (r / 51), rest);
  }

  /** The inverse of t modulo 17. */
  function InverseMod17(t: nat): (m: nat)
    requires 0 < t < 17
    ensures t * m % 17 == 1
  {
    if t == 1 then 1 else if t == 2 then 9 else if t == 3 then 6 else if t == 4 then 13
    else if t == 5 then 7 else if t == 6 then 3 else if t == 7 then 5 else if t == 8 then 15
    else if t == 9 then 2 else if t == 10 then 12 else if t == 11 then 14 else if t == 12 then 10
    else if t == 13 then 4 else if t == 14 then 11 else if t == 15 then 8 else 16
  }

  /** Every exponent that 51 does not divide has a multiple that is 3 or 17 modulo 51. */
  lemma MultipleModulo51(r: nat) returns (m: nat, target: nat)
    requires 0 < r < 51
    ensures target == 3 || target == 17
    ensures r * m % 51 == target
  {
    var t := r / 3;
    if r % 3 == 0 {
      m, target := InverseMod17(t), 3;
      hide InverseMod17;
      Threefold(t, m);
    } else if r % 3 == 1 {
      m, target := 17, 17;
      Remainder(r * 17, t, 17);
    } else {
      m, target := 34, 17;
      Remainder(r * 34, 2 * t + 1, 17);
    }
  }

  lemma Remainder(n: nat, q: nat, rest: nat)
    requires n == 51 * q + rest && rest < 51
    ensures n % 51 == rest
  {
  }

  lemma Threefold(t: nat, m: nat)
    requires t * m % 17 == 1
    ensures 3 * t * m % 51 == 3
  {
    var n := t * m;
    assert 3 * t * m == 3 * n;
    Remainder(3 * n, n / 17, 3);
  }

  /** Multiplying by x^k fixes a non-zero byte exactly when 51 divides k. */
  lemma OrderOfX(b: Bits, k: nat)
    requires b != ZERO
    ensures Times(b, k) == b <==> k % 51 == 0
  {
    assert Times(b, 0) == b;
    hide *;
    var r := k % 51;
    ReduceMod51(b, k, r);
    if r != 0 && Times(b, r) == b {
      var m, target := MultipleModulo51(r);
      FixedByMultiples(b, r, m);
      ReduceMod51(b, r * m, target);
      if target == 3 {
        Times3NotFixed(b);
      } else {
        CubeRoot(b);
      }
      assert false;
    }
  }

  // ---- The checksum -------------------------------------------------------------------------

  /** Coefficient k of n data bytes carries x^(n - k). */
  function Polynomial(data: ByteString): Bits {
    if data == [] then ZERO
    else Xor(Times(ToBits(data[0]), |data|), Polynomial(data[1..]))
  }

  function Checksum(data: ByteString): Byte {
    ToByte(Polynomial(data))
  }

  /** A byte string whose last byte is its check byte, stripped of it. */
  function ValidateChecksum(data: ByteString): Result<ByteString, ChecksumError> {
    if |data| < 2 then Err(InvalidChecksum)
    else if Checksum(data) != 0 then Err(InvalidChecksum)
    else Ok(data[..|data| - 1])
  }

  /** Appending a coefficient is one round of the program's loop (Horner's rule). */
  lemma {:induction false} Horner(data: ByteString, digit: Byte)
    ensures Polynomial(data + [digit]) == Double(Xor(Polynomial(data), ToBits(digit)))
  {
    hide Double, Xor, ToBits;
    var d := ToBits(digit);
    if data == [] {
      assert (data + [digit])[1..] == [];
      assert Polynomial(data + [digit]) == Xor(Times(d, 1), ZERO);
      TimesStep(d, 0);
      XorUnit(Times(d, 1));
      XorUnit(d);
    } else {
      assert (data + [digit])[1..] == data[1..] + [digit];
      Horner(data[1..], digit);
      var head := Times(ToBits(data[0]), |data|);
      TimesStep(ToBits(data[0]), |data|);
      var rest := Polynomial(data[1..]);
      DoubleLinear(head, Xor(rest, d));
      XorAssociates(head, rest, d);
    }
  }

  /** The loop of the program: add the digit, double, reduce by the mask on overflow. */
  method ComputeChecksum(data: ByteString) returns (check: Byte)
    ensures check == Checksum(data)
  {
    var result := ZERO;
    for i := 0 to |data|
      invariant result == Polynomial(data[..i])
    {
      assert data[..i + 1] == data[..i] + [data[i]];
      Horner(data[..i], data[i]);
      result := Step(result, ToBits(data[i]));
    }
    assert data[..|data|] == data;
    check := ToByte(result);
  }

  method Step(result: Bits, digit: Bits) returns (next: Bits)
    ensures next == Double(Xor(result, digit))
  {
    next := Xor(result, digit);
    var overflow := next.b7;
    next := ShiftLeft(next);
    if overflow {
      next := Xor(next, MASK);
    }
  }

  // ---- The same on numbers ------------------------------------------------------------------

  /** Bitwise exclusive or of two numbers. */
  function BitSum(a: nat, b: nat): nat {
    if a == 0 && b == 0 then 0 else (if a % 2 == b % 2 then 0 else 1) + 2 * BitSum(a / 2, b / 2)
  }

  lemma BitSumStep(p: nat, h: nat, q: nat, k: nat)
    requires p < 2 && q < 2
    ensures BitSum(p + 2 * h, q + 2 * k) == (if p == q then 0 else 1) + 2 * BitSum(h, k)
  {
    Halves(p, h);
    Halves(q, k);
    var a, b := p + 2 * h, q + 2 * k;
    if a == 0 && b == 0 {
      hide BitSum;
      NothingSums();
    }
  }

  lemma Halves(p: nat, h: nat)
    requires p < 2
    ensures (p + 2 * h) / 2 == h && (p + 2 * h) % 2 == p
  {
  }

  lemma JoinIs(low: bool, high: nat)
    ensures Join(low, high) == (if low then 1 else 0) + 2 * high
  {
  }

  lemma BitSumJoin(p: bool, h: nat, q: bool, k: nat)
    ensures BitSum(Join(p, h), Join(q, k)) == Join(p != q, BitSum(h, k))
  {
    hide *;
    BitSumStep(if p then 1 else 0, h, if q then 1 else 0, k);
    JoinIs(p, h);
    JoinIs(q, k);
    JoinIs(p != q, BitSum(h, k));
  }

  lemma XorOnBytes(a: Bits, b: Bits)
    ensures ToByte(Xor(a, b)) == BitSum(ToByte(a), ToByte(b))
  {
    hide Join, BitSum;
    var a7, b7 := Join(a.b7, 0), Join(b.b7, 0);
    var a6, b6 := Join(a.b6, a7), Join(b.b6, b7);
    var a5, b5 := Join(a.b5, a6), Join(b.b5, b6);
    var a4, b4 := Join(a.b4, a5), Join(b.b4, b5);
    var a3, b3 := Join(a.b3, a4), Join(b.b3, b4);
    var a2, b2 := Join(a.b2, a3), Join(b.b2, b3);
    var a1, b1 := Join(a.b1, a2), Join(b.b1, b2);
    NothingSums();
    BitSumJoin(a.b7, 0, b.b7, 0);
    BitSumJoin(a.b6, a7, b.b6, b7);
    BitSumJoin(a.b5, a6, b.b5, b6);
    BitSumJoin(a.b4, a5, b.b4, b5);
    BitSumJoin(a.b3, a4, b.b3, b4);
    BitSumJoin(a.b2, a3, b.b2, b3);
    BitSumJoin(a.b1, a2, b.b1, b2);
    BitSumJoin(a.b0, a1, b.b0, b1);
  }

  lemma NothingSums()
    ensures BitSum(0, 0) == 0
  {
  }

  lemma ByteIsSum(b: Bits)
    ensures ToByte(b) == (if b.b7 then 128 else 0) + (if b.b6 then 64 else 0) + (if b.b5 then 32 else 0)
                         + (if b.b4 then 16 else 0) + (if b.b3 then 8 else 0) + (if b.b2 then 4 else 0)
                         + (if b.b1 then 2 else 0) + (if b.b0 then 1 else 0)
  {
  }

  /** Twice the byte, and where that takes a ninth bit, without it and with 27 added bit by bit. */
  lemma DoubleOnBytes(b: Bits)
    ensures ToByte(Double(b)) == if ToByte(b) < 128 then 2 * ToByte(b) else BitSum(2 * ToByte(b) - 256, 27)
  {
    hide BitSum, ToByte;
    ByteIsSum(b);
    ByteIsSum(ShiftLeft(b));
    ByteIsSum(MASK);
    XorOnBytes(ShiftLeft(b), MASK);
    DoubleIsShift(b);
    hide Double, Xor;
  }

  lemma DoubleIsShift(b: Bits)
    ensures Double(b) == if b.b7 then Xor(ShiftLeft(b), MASK) else ShiftLeft(b)
  {
  }

  /** x^8 = x^4 + x^3 + x + 1. */
  lemma ReductionLaw(b: Bits)
    ensures Times(b, 8) == Xor(Xor(Times(b, 4), Times(b, 3)), Xor(Times(b, 1), b))
  {
    hide *;
    Times1(b);
    Times3(b);
    Times8Is(b);
    var b4 := Times(b, 3);
    TimesStep(b, 3);
    EighthPower(b);
  }

  lemma Times1(b: Bits)
    ensures Times(b, 1) == Double(b)
  {
    hide Double;
    assert Times(b, 0) == b;
  }

  lemma Times3(b: Bits)
    ensures Times(b, 3) == Double(Double(Double(b)))
  {
    hide Times, Double;
    Times1(b);
    TimesStep(b, 1);
    TimesStep(b, 2);
  }

  function Xor3(p: bool, q: bool, r: bool): bool { (p != q) != r }

  lemma ThirdPower(b: Bits)
    ensures Double(Double(Double(b)))
         == Bits(b.b4, b.b3 != b.b7, Xor3(b.b2, b.b6, b.b7), Xor3(b.b1, b.b5, b.b6), Xor3(b.b0, b.b5, b.b7),
                 b.b6 != b.b7, b.b5 != b.b6, b.b5)
  {
  }

  lemma FourthPower(b: Bits)
    ensures Double(Double(Double(Double(b))))
         == Bits(b.b3 != b.b7, Xor3(b.b2, b.b6, b.b7), Xor3(b.b1, b.b5, b.b6), Xor3(b.b0, b.b4, b.b5 != b.b7),
                 Xor3(b.b4, b.b6, b.b7), b.b5 != b.b6, b.b4 != b.b5, b.b4)
  {
    ThirdPower(b);
  }

  lemma EighthPower(b: Bits)
    ensures Times8(b) == Xor(Xor(Double(Double(Double(Double(b)))), Double(Double(Double(b)))), Xor(Double(b), b))
  {
    FirstPower(b);
    hide Double;
    ThirdPower(b);
    FourthPower(b);
    FourthPower(Double(Double(Double(Double(b)))));
  }

  lemma FirstPower(b: Bits)
    ensures Double(b) == Bits(b.b6, b.b5, b.b4, b.b3 != b.b7, b.b2 != b.b7, b.b1, b.b0 != b.b7, b.b7)
  {
  }

  /** One round on byte numbers. */
  function Round(result: nat, digit: nat): nat {
    var sum := BitSum(result, digit);
    if sum < 128 then 2 * sum else BitSum(2 * sum - 256, 27)
  }

  /** All rounds, starting from 0. */
  function Rounds(data: ByteString): nat {
    if data == [] then 0 else Round(Rounds(data[..|data| - 1]), data[|data| - 1])
  }

  /** The check byte is what the rounds on byte numbers come to. */
  lemma {:induction false} ChecksumIsRounds(data: ByteString)
    ensures Checksum(data) == Rounds(data)
  {
    if data == [] {
      assert ToByte(ZERO) == 0;
    } else {
      var front, digit := data[..|data| - 1], data[|data| - 1];
      ChecksumIsRounds(front);
      assert data == front + [digit];
      Horner(front, digit);
      hide ToByte, ToBits, Polynomial, Double, Xor, BitSum;
      ByteRoundTrip(digit);
      XorOnBytes(Polynomial(front), ToBits(digit));
      DoubleOnBytes(Xor(Polynomial(front), ToBits(digit)));
    }
  }

  lemma ZeroByte(b: Bits)
    ensures ToByte(b) == 0 <==> b == ZERO
  {
    assert ToByte(ZERO) == 0;
    hide *;
    BitsRoundTrip(b);
    BitsRoundTrip(ZERO);
  }

  /** Changing the coefficient of x^k by delta changes the value by delta * x^k. */
  lemma {:induction false} PolynomialUpdate(data: ByteString, i: nat, v: Byte)
    requires i < |data|
    ensures Polynomial(data[i := v])
         == Xor(Polynomial(data), Times(Xor(ToBits(data[i]), ToBits(v)), |data| - i))
  {
    hide Double, Xor, ToBits, Times;
    var changed := data[i := v];
    var n := |data|;
    if i == 0 {
      assert changed[1..] == data[1..];
      var old0, new0, rest := Times(ToBits(data[0]), n), Times(ToBits(v), n), Polynomial(data[1..]);
      TimesLinear(ToBits(data[0]), ToBits(v), n);
      XorSwapsTerm(old0, new0, rest);
    } else {
      assert changed[1..] == data[1..][i - 1 := v];
      PolynomialUpdate(data[1..], i - 1, v);
      XorAssociates(Times(ToBits(data[0]), n), Polynomial(data[1..]),
                    Times(Xor(ToBits(data[i]), ToBits(v)), n - i));
    }
  }

  lemma XorSwapsTerm(old0: Bits, new0: Bits, rest: Bits)
    ensures Xor(new0, rest) == Xor(Xor(old0, rest), Xor(old0, new0))
  {
  }

  /** The check byte is the only byte that completes the data to a valid string. */
  lemma CheckByteUnique(data: ByteString, check: Byte)
    requires data != []
    ensures ValidateChecksum(data + [check]) == Ok(data) <==> check == Checksum(data)
    ensures ValidateChecksum(data + [check]).Err? <==> check != Checksum(data)
  {
    hide Double, Xor, ToBits, ToByte;
    var p := Polynomial(data);
    Horner(data, check);
    ZeroByte(Double(Xor(p, ToBits(check))));
    DoubleKernel(Xor(p, ToBits(check)));
    XorZero(p, ToBits(check));
    ByteRoundTrip(check);
    BitsRoundTrip(p);
    assert (data + [check])[..|data|] == data;
  }

  lemma ValidIff(data: ByteString)
    ensures ValidateChecksum(data).Ok? <==> |data| >= 2 && Polynomial(data) == ZERO
  {
    hide ToByte, Polynomial;
    ZeroByte(Polynomial(data));
  }

  lemma DifferenceNonZero(x: Byte, y: Byte)
    requires x != y
    ensures Xor(ToBits(x), ToBits(y)) != ZERO
  {
    hide *;
    ByteRoundTrip(x);
    ByteRoundTrip(y);
    XorZero(ToBits(x), ToBits(y));
  }

  /** Changing any one byte of a valid string, of any length, is detected. */
  lemma SubstitutionDetected(data: ByteString, i: nat, v: Byte)
    requires ValidateChecksum(data).Ok?
    requires i < |data| && v != data[i]
    ensures ValidateChecksum(data[i := v]).Err?
  {
    hide *;
    ValidIff(data);
    ValidIff(data[i := v]);
    var delta := Xor(ToBits(data[i]), ToBits(v));
    DifferenceNonZero(data[i], v);
    PolynomialUpdate(data, i, v);
    TimesKernel(delta, |data| - i);
    XorUnit(Times(delta, |data| - i));
  }

  function Swap(data: ByteString, i: nat, j: nat): (s: ByteString)
    requires i < j < |data|
    ensures |s| == |data|
  {
    data[i := data[j]][j := data[i]]
  }

  lemma SwapIs(data: ByteString, i: nat, j: nat)
    requires i < j < |data|
    ensures Swap(data, i, j) == data[i := data[j]][j := data[i]]
  {
  }

  lemma XorSymmetric(a: Bits, b: Bits)
    ensures Xor(a, b) == Xor(b, a)
  {
  }

  /** A swap at distance k changes the value by (delta * x^k + delta) * x^(n - j). */
  lemma SwapPolynomial(data: ByteString, i: nat, j: nat)
    requires i < j < |data|
    ensures var delta := Xor(ToBits(data[i]), ToBits(data[j]));
            Polynomial(Swap(data, i, j))
            == Xor(Polynomial(data), Times(Xor(Times(delta, j - i), delta), |data| - j))
  {
    hide *;
    var n, k := |data|, j - i;
    var a, b := ToBits(data[i]), ToBits(data[j]);
    var delta := Xor(a, b);
    var once := data[i := data[j]];
    SwapIs(data, i, j);
    PolynomialUpdate(data, i, data[j]);
    PolynomialUpdate(once, j, data[i]);
    XorSymmetric(a, b);
    TimesSum(delta, k, n - j);
    TimesLinear(Times(delta, k), delta, n - j);
    XorAssociates(Polynomial(data), Times(delta, n - i), Times(delta, n - j));
  }

  /**
    Swapping two unequal bytes of a valid string is detected exactly when their distance is not a
    multiple of 51.
   */
  lemma SwapDetected(data: ByteString, i: nat, j: nat)
    requires ValidateChecksum(data).Ok?
    requires i < j < |data| && data[i] != data[j]
    ensures ValidateChecksum(Swap(data, i, j)).Err? <==> (j - i) % 51 != 0
  {
    hide *;
    var delta := Xor(ToBits(data[i]), ToBits(data[j]));
    var shifted := Times(delta, j - i);
    ValidIff(data);
    ValidIff(Swap(data, i, j));
    SwapPolynomial(data, i, j);
    XorUnit(Times(Xor(shifted, delta), |data| - j));
    TimesKernel(Xor(shifted, delta), |data| - j);
    XorZero(shifted, delta);
    DifferenceNonZero(data[i], data[j]);
    OrderOfX(delta, j - i);
  }

  /** No swap goes unnoticed in a string of at most 51 bytes, such as a 35-byte address. */
  lemma ShortSwapDetected(data: ByteString, i: nat, j: nat)
    requires ValidateChecksum(data).Ok? && |data| <= 51
    requires i < j < |data| && data[i] != data[j]
    ensures ValidateChecksum(Swap(data, i, j)).Err?
  {
    hide *;
    SwapDetected(data, i, j);
  }
}
