/** Bytes, byte strings and the failure type shared by every component. */
module Bytes {

  type Byte = x: int | 0 <= x < 256
  type ByteString = seq<Byte>

  type UInt32 = x: int | 0 <= x < 0x1_0000_0000

  datatype Option<+T> = None | Some(value: T)

  datatype Result<+T, +E> = Ok(value: T) | Err(error: E)

  /** All the byte strings of a list, one after the other. */
  function Concat(parts: seq<ByteString>): ByteString {
    if parts == [] then [] else parts[0] + Concat(parts[1..])
  }

  lemma {:induction false} ConcatSplit(xs: seq<ByteString>, ys: seq<ByteString>)
    ensures Concat(xs + ys) == Concat(xs) + Concat(ys)
  {
    if xs == [] {
      assert xs + ys == ys;
    } else {
      assert (xs + ys)[1..] == xs[1..] + ys;
      ConcatSplit(xs[1..], ys);
    }
  }

  lemma ConcatCons(x: ByteString, xs: seq<ByteString>)
    ensures Concat([x] + xs) == x + Concat(xs)
  {
    assert ([x] + xs)[1..] == xs;
  }

  lemma ConcatSnoc(xs: seq<ByteString>, x: ByteString)
    ensures Concat(xs + [x]) == Concat(xs) + x
  {
    ConcatSplit(xs, [x]);
    assert [x][1..] == [];
    assert Concat([x]) == x;
  }
}
