/** The RPC transport over a raw byte stream (p2p/rpc/streamtransport.go). */
module StreamTransport {
  import opened Bytes
  import opened Frames

  datatype TransportError = EndOfStream

  class StreamTransport {
    /** Whether frames are read as canonical ones; starts false. */
    var canonical: bool
    /** The bytes of the stream not read yet. */
    var input: ByteString
    /** The bytes written so far. */
    var output: ByteString

    constructor (input: ByteString)
      ensures !canonical && this.input == input && output == []
    {
      canonical := false;
      this.input := input;
      output := [];
    }

    function Mode(): Kind
      reads this
    {
      if canonical then Canonical else Negotiation
    }

    /** One read of the stream: it returns some bytes, not always as many as wanted. */
    method Read(wanted: nat) returns (chunk: ByteString)
      requires 1 <= wanted && input != []
      modifies this`input
      ensures 1 <= |chunk| <= wanted && chunk + input == old(input)
    {
      var k: nat :| 1 <= k <= wanted && k <= |input|;
      chunk := input[..k];
      input := input[k..];
    }

    /** Reads until n bytes are there, whatever the sizes of the chunks. */
    method ReadFull(n: nat) returns (r: Result<ByteString, TransportError>)
      modifies this`input
      ensures |old(input)| >= n ==> r == Ok(old(input)[..n]) && input == old(input)[n..]
      ensures |old(input)| < n ==> r.Err? && input == []
    {
      var got: ByteString := [];
      while |got| < n
        invariant |got| <= n
        invariant got + input == old(input)
        decreases n - |got|
      {
        if input == [] {
          assert got == old(input);
          return Err(EndOfStream);
        }
        var chunk := Read(n - |got|);
        assert (got + chunk) + input == old(input);
        got := got + chunk;
      }
      r := Ok(got);
    }

    /** Reads exactly one frame of the current kind. */
    method ReceiveFrame() returns (r: Result<ByteString, TransportError>)
      modifies this`input
      ensures CutFrame(Mode(), old(input)).Some? ==>
                r == Ok(CutFrame(Mode(), old(input)).value.frame) && input == CutFrame(Mode(), old(input)).value.rest
      ensures CutFrame(Mode(), old(input)).None? ==> r.Err? && input == []
    {
      ghost var all := input;
      var header := ReadFull(HeaderSize(Mode()));
      if header.Err? {
        return Err(EndOfStream);
      }
      assert canonical ==> header.value[..4] == all[..4];
      var length := BodyLength(Mode(), header.value);
      if length == 0 {
        return header;
      }
      var body := ReadFull(length);
      if body.Err? {
        return Err(EndOfStream);
      }
      assert header.value + body.value == all[..HeaderSize(Mode()) + length];
      r := Ok(header.value + body.value);
    }

    /** Writes the bytes as they are. */
    method SendFrame(payload: ByteString)
      modifies this`output
      ensures output == old(output) + payload
    {
      output := output + payload;
    }

    method BeginCanonicalFraming()
      modifies this`canonical
      ensures canonical
    {
      canonical := true;
    }

    /**
      A receiver that reads all the negotiation frames, switches, and reads all the canonical ones
      gets exactly the frames that were sent, and leaves exactly the bytes after them.
     */
    method ReceiveSession(ghost negotiation: seq<ByteString>, ghost frames: seq<ByteString>, ghost rest: ByteString,
                          m: nat, n: nat)
      returns (first: seq<ByteString>, second: seq<ByteString>)
      requires !canonical && m == |negotiation| && n == |frames|
      requires AreFrames(Negotiation, negotiation) && AreFrames(Canonical, frames)
      requires input == Concat(negotiation) + Concat(frames) + rest
      modifies this`input, this`canonical
      ensures first == negotiation && second == frames && input == rest && canonical
    {
      assert input == Concat(negotiation) + (Concat(frames) + rest);
      first := ReceiveMany(negotiation, Concat(frames) + rest, m);
      BeginCanonicalFraming();
      second := ReceiveMany(frames, rest, n);
    }

    method ReceiveMany(ghost frames: seq<ByteString>, ghost rest: ByteString, n: nat) returns (got: seq<ByteString>)
      requires n == |frames| && AreFrames(Mode(), frames) && input == Concat(frames) + rest
      modifies this`input
      ensures got == frames && input == rest
    {
      got := [];
      for i := 0 to n
        invariant got == frames[..i]
        invariant input == Concat(frames[i..]) + rest
      {
        ghost var tail := frames[i..];
        assert tail[0] == frames[i] && tail[1..] == frames[i + 1..];
        assert input == frames[i] + (Concat(frames[i + 1..]) + rest);
        CutOfFrame(Mode(), frames[i], Concat(frames[i + 1..]) + rest);
        var r := ReceiveFrame();
        got := got + [r.value];
      }
      assert frames[n..] == [];
      assert frames[..n] == frames;
    }
  }

  /** The same for the specification of the cuts: a switch at the boundary recovers both lists. */
  lemma SwitchRecoversBoth(negotiation: seq<ByteString>, frames: seq<ByteString>, rest: ByteString)
    requires AreFrames(Negotiation, negotiation) && AreFrames(Canonical, frames)
    ensures var first := CutFrames(Negotiation, |negotiation|, Concat(negotiation) + Concat(frames) + rest);
            && first.Some? && first.value.frames == negotiation
            && CutFrames(Canonical, |frames|, first.value.rest) == Some(Reading(frames, rest))
  {
    assert Concat(negotiation) + Concat(frames) + rest == Concat(negotiation) + (Concat(frames) + rest);
    CutFramesOfConcat(Negotiation, negotiation, Concat(frames) + rest);
    CutFramesOfConcat(Canonical, frames, rest);
  }
}
