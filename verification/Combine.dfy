/** Combining addresses of one wallet (address/address.go), under any bracketing. */
module Combine {
  import opened Bytes
  import opened Address

  function CombineAddresses(one: Address, two: Address): Result<Address, AddressError> {
    if one.spendKey != two.spendKey then Err(KeysDoNotMatch)
    else if one.network != two.network then Err(NetworksDoNotMatch)
    else if one.Dual? && two.Dual? && one.viewKey != two.viewKey then Err(ViewKeysDoNotMatch)
    else
      var features := one.features.Combine(two.features);
      if one.Dual? then NewDual(one.viewKey, one.spendKey, one.network, features, None)
      else if two.Dual? then NewDual(two.viewKey, one.spendKey, one.network, features, None)
      else Ok(Single(one.network, features, one.spendKey))
  }

  /** A way to bracket a list of addresses. */
  datatype Bracket = Leaf(a: Address) | Join(left: Bracket, right: Bracket) {
    function Leaves(): seq<Address> {
      match this
      case Leaf(a) => [a]
      case Join(left, right) => left.Leaves() + right.Leaves()
    }

    function Eval(): Result<Address, AddressError> {
      match this
      case Leaf(a) => Ok(a)
      case Join(left, right) =>
        match left.Eval()
        case Err(e) => Err(e)
        case Ok(one) =>
          match right.Eval()
          case Err(e) => Err(e)
          case Ok(two) => CombineAddresses(one, two)
    }
  }

  ghost predicate AgreePair(x: Address, y: Address) {
    x.spendKey == y.spendKey && x.network == y.network && (x.Dual? && y.Dual? ==> x.viewKey == y.viewKey)
  }

  ghost predicate Agree(s: seq<Address>) {
    forall x, y :: x in s && y in s ==> AgreePair(x, y)
  }

  /** v is the union of the addresses in s. */
  ghost predicate Unites(v: Address, s: seq<Address>) {
    && (forall x :: x in s ==> AgreePair(v, x))
    && (v.Dual? <==> exists x :: x in s && x.Dual?)
    && (v.features.paymentId <==> exists x :: x in s && x.features.paymentId)
    && (v.features.interactive <==> exists x :: x in s && x.features.interactive)
    && (v.features.oneSided <==> exists x :: x in s && x.features.oneSided)
  }

  lemma {:induction false} LeavesNotEmpty(t: Bracket)
    ensures t.Leaves() != []
  {
    if t.Join? {
      LeavesNotEmpty(t.left);
    }
  }

  lemma UnitesAgree(v: Address, s: seq<Address>)
    requires Unites(v, s)
    ensures Agree(s)
  {
    forall x, y | x in s && y in s
      ensures AgreePair(x, y)
    {
      assert AgreePair(v, x) && AgreePair(v, y);
    }
  }

  lemma UnitesJoin(v: Address, s: seq<Address>, w: Address, t: seq<Address>)
    requires Unites(v, s) && Unites(w, t) && s != [] && t != []
    ensures CombineAddresses(v, w).Ok? <==> Agree(s + t)
    ensures CombineAddresses(v, w).Ok? ==> Unites(CombineAddresses(v, w).value, s + t)
  {
    if CombineAddresses(v, w).Ok? {
      var u := CombineAddresses(v, w).value;
      forall x | x in s + t
        ensures AgreePair(u, x)
      {
        assert x in s || x in t;
      }
      assert Unites(u, s + t);
      UnitesAgree(u, s + t);
    } else {
      var x, y := Witnesses(v, s, w, t);
      assert x in s + t && y in s + t;
    }
  }

  /** If two unions cannot be combined, some pair of their members disagrees. */
  lemma Witnesses(v: Address, s: seq<Address>, w: Address, t: seq<Address>) returns (x: Address, y: Address)
    requires Unites(v, s) && Unites(w, t) && s != [] && t != []
    requires CombineAddresses(v, w).Err?
    ensures x in s && y in t && !AgreePair(x, y)
  {
    x, y := s[0], t[0];
    assert AgreePair(v, x) && AgreePair(w, y);
    if v.Dual? && w.Dual? && v.viewKey != w.viewKey {
      x :| x in s && x.Dual?;
      y :| y in t && y.Dual?;
      assert AgreePair(v, x) && AgreePair(w, y);
    }
  }

  /** Whether any bracketing succeeds depends only on the leaves agreeing; the result is their union. */
  lemma {:induction false} AnyBracketing(t: Bracket)
    ensures t.Eval().Ok? <==> Agree(t.Leaves())
    ensures t.Eval().Ok? ==> Unites(t.Eval().value, t.Leaves())
    ensures t.Eval().Ok? && t.Join? && t.Eval().value.Dual? ==> t.Eval().value.memo == []
  {
    if t.Leaf? {
      assert t.a in t.Leaves();
    } else {
      var l, r := t.left.Leaves(), t.right.Leaves();
      AnyBracketing(t.left);
      AnyBracketing(t.right);
      LeavesNotEmpty(t.left);
      LeavesNotEmpty(t.right);
      if Agree(l + r) {
        assert Agree(l) by { forall x, y | x in l && y in l ensures AgreePair(x, y) { assert x in l + r && y in l + r; } }
        assert Agree(r) by { forall x, y | x in r && y in r ensures AgreePair(x, y) { assert x in l + r && y in l + r; } }
      }
      if t.left.Eval().Ok? && t.right.Eval().Ok? {
        UnitesJoin(t.left.Eval().value, l, t.right.Eval().value, r);
      }
    }
  }

  ghost predicate SameMembers(s: seq<Address>, t: seq<Address>) {
    forall x :: x in s <==> x in t
  }

  /**
    Order, bracketing and repetition do not matter: two combinations of the same addresses both
    fail, or both succeed with the same address.
   */
  lemma CombinationIsASetFunction(t: Bracket, u: Bracket)
    requires t.Join? && u.Join?
    requires SameMembers(t.Leaves(), u.Leaves())
    ensures t.Eval().Ok? <==> u.Eval().Ok?
    ensures t.Eval().Ok? ==> t.Eval() == u.Eval()
  {
    AnyBracketing(t);
    AnyBracketing(u);
    assert Agree(t.Leaves()) <==> Agree(u.Leaves());
    if t.Eval().Ok? {
      var v, w := t.Eval().value, u.Eval().value;
      LeavesNotEmpty(t);
      var x := t.Leaves()[0];
      assert x in t.Leaves() && x in u.Leaves();
      assert v.spendKey == w.spendKey == x.spendKey && v.network == w.network;
      if v.Dual? {
        var d :| d in t.Leaves() && d.Dual?;
        assert d in u.Leaves() && AgreePair(v, d) && AgreePair(w, d);
      }
    }
  }

  function DropMemo(a: Address): Address {
    if a.Dual? then a.(memo := []) else a
  }

  /** The two-argument laws: commutative, associative, idempotent up to dropping the memo. */
  lemma CombineLaws(a: Address, b: Address, c: Address)
    ensures CombineAddresses(a, a) == Ok(DropMemo(a))
    ensures CombineAddresses(a, b).Ok? <==> CombineAddresses(b, a).Ok?
    ensures CombineAddresses(a, b).Ok? ==> CombineAddresses(a, b) == CombineAddresses(b, a)
    ensures var left := Join(Join(Leaf(a), Leaf(b)), Leaf(c));
            var right := Join(Leaf(a), Join(Leaf(b), Leaf(c)));
            (left.Eval().Ok? <==> right.Eval().Ok?) && (left.Eval().Ok? ==> left.Eval() == right.Eval())
  {
    var left := Join(Join(Leaf(a), Leaf(b)), Leaf(c));
    var right := Join(Leaf(a), Join(Leaf(b), Leaf(c)));
    CombinationIsASetFunction(Join(Leaf(a), Leaf(b)), Join(Leaf(b), Leaf(a)));
    CombinationIsASetFunction(left, right);
  }

  /** Which disagreement is reported: of spend keys before that of networks, and that before view keys. */
  lemma WhyNotCombined(a: Address, b: Address)
    ensures CombineAddresses(a, b) == Err(KeysDoNotMatch) <==> a.spendKey != b.spendKey
    ensures CombineAddresses(a, b) == Err(NetworksDoNotMatch) <==> a.spendKey == b.spendKey && a.network != b.network
    ensures CombineAddresses(a, b) == Err(ViewKeysDoNotMatch) <==>
              && a.spendKey == b.spendKey && a.network == b.network
              && a.Dual? && b.Dual? && a.viewKey != b.viewKey
    ensures CombineAddresses(a, b).Ok? <==> AgreePair(a, b)
  {
  }
}
