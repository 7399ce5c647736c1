/** The common shape of both sides of get_peers: reactions between waits, and what a run of them comes to. */
module Reactions {
  import opened Bytes
  import opened RpcMessages

  /** The next wait, and the bytes it starts to write, if any. */
  datatype Reaction<Pc> = Reaction(pc: Pc, out: ByteString)

  /** What a side returns, has written and has left unread on a given input. */
  datatype Outcome<R> = Outcome(result: Result<R, RpcError>, output: ByteString, rest: ByteString)

  /** The same, with these bytes written before. */
  function After<R>(out: ByteString, o: Outcome<R>): Outcome<R> {
    o.(output := out + o.output)
  }

  lemma AfterAfter<R>(a: ByteString, b: ByteString, o: Outcome<R>)
    ensures After(a, After(b, o)) == After(a + b, o)
    ensures After([], o) == o
  {
    assert a + (b + o.output) == a + b + o.output;
    assert [] + o.output == o.output;
  }
}
