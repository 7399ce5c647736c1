/** A group of prime order with an encoding of its elements, and multiplication by numbers. */
module Group {
  import opened Bytes
  import opened Positional

  datatype Group<!P> = Group(order: nat, base: P, zero: P, add: (P, P) -> P,
                             encode: P -> ByteString, decode: ByteString -> Option<P>)

  predicate IsPrime(p: nat) {
    p >= 2 && forall d :: 2 <= d < p ==> p % d != 0
  }

  /** n times x. */
  function Mul<P>(g: Group<P>, n: nat, x: P): P {
    if n == 0 then g.zero else g.add(Mul(g, n - 1, x), x)
  }

  /** What is asked of the group: its laws, and a canonical 32-byte encoding. */
  ghost predicate PrimeOrder<P(!new)>(g: Group<P>) {
    && IsPrime(g.order) && g.order <= Pow(256, 32)
    && (forall x, y, z :: g.add(g.add(x, y), z) == g.add(x, g.add(y, z)))
    && (forall x, y :: g.add(x, y) == g.add(y, x))
    && (forall x :: g.add(x, g.zero) == x)
    && (forall x :: Mul(g, g.order, x) == g.zero)
    && g.base != g.zero
    && (forall x :: |g.encode(x)| == 32 && g.decode(g.encode(x)) == Some(x))
    && (forall b :: g.decode(b).Some? ==> g.encode(g.decode(b).value) == b)
  }

  /** The laws at particular elements. */
  lemma LawsAt<P(!new)>(g: Group<P>, x: P, y: P, z: P)
    requires PrimeOrder(g)
    ensures g.order >= 2
    ensures g.add(g.add(x, y), z) == g.add(x, g.add(y, z))
    ensures g.add(x, y) == g.add(y, x)
    ensures g.add(x, g.zero) == x
    ensures Mul(g, g.order, x) == g.zero
  {
    hide Mul, Pow;
  }

  lemma {:induction false} MulAdd<P(!new)>(g: Group<P>, m: nat, n: nat, x: P)
    requires PrimeOrder(g)
    ensures Mul(g, m + n, x) == g.add(Mul(g, m, x), Mul(g, n, x))
  {
    hide PrimeOrder;
    LawsAt(g, Mul(g, m, x), x, x);
    if n > 0 {
      MulAdd(g, m, n - 1, x);
      LawsAt(g, Mul(g, m, x), Mul(g, n - 1, x), x);
    }
  }

  lemma {:induction false} MulZero<P(!new)>(g: Group<P>, n: nat)
    requires PrimeOrder(g)
    ensures Mul(g, n, g.zero) == g.zero
  {
    hide PrimeOrder;
    if n > 0 {
      MulZero(g, n - 1);
      LawsAt(g, g.zero, g.zero, g.zero);
    }
  }

  lemma Unfold<P>(g: Group<P>, n: nat, x: P)
    ensures Mul(g, 0, x) == g.zero
    ensures n > 0 ==> Mul(g, n, x) == g.add(Mul(g, n - 1, x), x)
  {
  }

  lemma Distribute(m: nat, n: nat)
    ensures m > 0 ==> m * n == (m - 1) * n + n
    ensures m == 0 ==> m * n == 0
    ensures m * n >= 0
  {
  }

  lemma {:induction false} MulMul<P(!new)>(g: Group<P>, m: nat, n: nat, x: P)
    requires PrimeOrder(g)
    ensures Mul(g, m * n, x) == Mul(g, m, Mul(g, n, x))
    decreases m
  {
    hide *;
    Unfold(g, m, Mul(g, n, x));
    Unfold(g, 0, x);
    Distribute(m, n);
    if m > 0 {
      Distribute(m - 1, n);
      MulMul(g, m - 1, n, x);
      MulAdd(g, (m - 1) * n, n, x);
    }
  }

  /** A multiple of the order makes no difference. */
  lemma MulMultiple<P(!new)>(g: Group<P>, q: nat, d: nat, r: nat, x: P)
    requires PrimeOrder(g) && Mul(g, d, x) == g.zero
    ensures Mul(g, q * d + r, x) == Mul(g, r, x)
  {
    hide PrimeOrder, Mul;
    MulAdd(g, r, q * d, x);
    MulMul(g, q, d, x);
    MulZero(g, q);
    LawsAt(g, Mul(g, r, x), x, x);
  }

  /** The scalar of a number. */
  function Reduce(order: nat, n: nat): (r: nat)
    ensures order > 0 ==> r < order
  {
    if order == 0 then n else n % order
  }

  /** Only the remainder by the order matters. */
  lemma MulReduce<P(!new)>(g: Group<P>, n: nat, x: P)
    requires PrimeOrder(g)
    ensures Mul(g, Reduce(g.order, n), x) == Mul(g, n, x)
  {
    hide PrimeOrder, Mul;
    LawsAt(g, x, x, x);
    Recombine(n, g.order);
    MulMultiple(g, n / g.order, g.order, n % g.order, x);
  }

  lemma Cancel<P(!new)>(g: Group<P>, x: P, y: P, z: P)
    requires PrimeOrder(g) && g.add(x, y) == g.add(x, z)
    ensures y == z
  {
    hide PrimeOrder;
    LawsAt(g, x, x, x);
    var negative := Mul(g, g.order - 1, x);
    assert g.add(negative, x) == g.zero;
    hide Mul;
    LawsAt(g, negative, x, y);
    LawsAt(g, negative, x, z);
    LawsAt(g, y, g.zero, z);
    LawsAt(g, z, g.zero, y);
  }

  lemma PrimeRemainder(p: nat, d: nat) returns (q: nat, r: nat)
    requires IsPrime(p) && 1 < d < p
    ensures p == q * d + r && 0 < r < d
  {
    q, r := p / d, p % d;
    Recombine(p, d);
  }

  /** If d times x is zero, so is (order mod d) times x, and so on down to x itself. */
  lemma {:induction false} NoTorsion<P(!new)>(g: Group<P>, d: nat, x: P)
    requires PrimeOrder(g) && 0 < d < g.order && Mul(g, d, x) == g.zero
    ensures x == g.zero
    decreases d
  {
    hide *;
    IsPrimeOrder(g);
    LawsAt(g, x, g.zero, x);
    if d == 1 {
      Unfold(g, 1, x);
    } else {
      var q, r := PrimeRemainder(g.order, d);
      MulMultiple(g, q, d, r, x);
      NoTorsion(g, r, x);
    }
  }

  lemma IsPrimeOrder<P(!new)>(g: Group<P>)
    requires PrimeOrder(g)
    ensures IsPrime(g.order)
  {
    hide Mul, Pow, IsPrime;
  }

  /** Different scalars take an element other than zero to different elements. */
  lemma MulInjective<P(!new)>(g: Group<P>, m: nat, n: nat, x: P)
    requires PrimeOrder(g) && m < g.order && n < g.order && x != g.zero
    requires Mul(g, m, x) == Mul(g, n, x)
    ensures m == n
  {
    hide PrimeOrder, Mul;
    var low, high := if m <= n then m else n, if m <= n then n else m;
    MulAdd(g, low, high - low, x);
    LawsAt(g, Mul(g, low, x), x, x);
    Cancel(g, Mul(g, low, x), Mul(g, high - low, x), g.zero);
    if low < high {
      NoTorsion(g, high - low, x);
    }
  }

  // ---- The laws can be met ------------------------------------------------------------------

  function Flag(x: bool): (b: ByteString)
    ensures |b| == 32
  {
    [if x then 1 else 0] + Fixed(0, 256, 31)
  }

  /** The group of two elements. */
  function Parity(): Group<bool> {
    Group(2, true, false, (x: bool, y: bool) => x != y, Flag,
          b => if b == Flag(false) then Some(false) else if b == Flag(true) then Some(true) else None)
  }

  lemma ParityHasPrimeOrder()
    ensures PrimeOrder(Parity())
  {
    var g := Parity();
    PowMonotone(256, 1, 32);
    assert Pow(256, 1) == 256;
    hide Pow, Fixed;
    assert Flag(false)[0] == 0 && Flag(true)[0] == 1;
    forall x: bool
      ensures Mul(g, 2, x) == false
    {
      Unfold(g, 2, x);
      Unfold(g, 1, x);
    }
  }
}
