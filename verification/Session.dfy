/**
  The encrypted session and the byte stream on top of it (p2p/frame.go, session.go, yamuxadapter.go,
  handshake.go). One write is one sealed frame; reads may ask for any number of bytes.
 */
module Session {
  import opened Bytes
  import opened Positional

  // ---- Frames on the connection -------------------------------------------------------------

  const MAX_FRAME_LENGTH := 0xFFFF

  datatype SessionError = FrameTooLong | NonceExhausted | EndOfStream | CannotDecrypt

  function Be16(n: nat): (b: ByteString)
    ensures |b| == 2
  {
    Fixed(n, 256, 2)
  }

  /** | length (2, big-endian) | payload | */
  function FrameBytes(payload: ByteString): ByteString {
    Be16(|payload|) + payload
  }

  datatype Cut = Cut(payload: ByteString, rest: ByteString)

  /** The next frame on the connection, if all of it is there. */
  function CutFrame(wire: ByteString): (c: Option<Cut>)
    ensures c.Some? ==> |c.value.rest| < |wire|
  {
    if |wire| < 2 then None
    else
      var n := Value(wire[..2], 256);
      if |wire| - 2 < n then None else Some(Cut(wire[2..2 + n], wire[2 + n..]))
  }

  lemma CutOfFrame(payload: ByteString, rest: ByteString)
    requires |payload| <= MAX_FRAME_LENGTH
    ensures CutFrame(FrameBytes(payload) + rest) == Some(Cut(payload, rest))
  {
    assert Pow(256, 2) == 0x1_0000;
    hide Fixed, Value, Pow;
    ValueOfFixed(|payload|, 256, 2);
    var wire := FrameBytes(payload) + rest;
    assert wire[..2] == Be16(|payload|);
    assert wire[2..2 + |payload|] == payload && wire[2 + |payload|..] == rest;
  }

  /** Two bytes of length, the more significant first, and the payload. */
  lemma FrameLayout(payload: ByteString)
    requires |payload| <= 65535
    ensures var f := FrameBytes(payload);
            |f| == 2 + |payload| && 256 * f[0] as nat + f[1] as nat == |payload| && f[2..] == payload
  {
    assert Pow(256, 2) == 0x1_0000;
    hide Fixed, Value, Pow;
    ValueOfFixed(|payload|, 256, 2);
    TwoBytes(Be16(|payload|));
  }

  lemma TwoBytes(b: ByteString)
    requires |b| == 2
    ensures Value(b, 256) == 256 * b[0] as nat + b[1] as nat
  {
    assert b == [b[0]] + [b[1]];
    ValueSnoc([], b[0], 256);
    ValueSnoc([b[0]], b[1], 256);
    assert [] + [b[0]] == [b[0]];
  }

  lemma NoFrame(wire: ByteString)
    ensures CutFrame(wire).None? <==> |wire| < 2 || |wire| - 2 < 256 * wire[0] as nat + wire[1] as nat
  {
    if |wire| >= 2 {
      TwoBytes(wire[..2]);
    }
  }

  lemma CutIsFrame(wire: ByteString)
    requires CutFrame(wire).Some?
    ensures var c := CutFrame(wire).value; |c.payload| <= 65535 && wire == FrameBytes(c.payload) + c.rest
  {
    var header, c := wire[..2], CutFrame(wire).value;
    assert AreDigits(header, 256);
    assert |c.payload| == Value(header, 256);
    assert wire == header + c.payload + c.rest;
    hide CutFrame, Value, Fixed;
    FixedOfValue(header, 256);
    ValueBound(header, 256);
    assert Pow(256, 2) == 0x1_0000;
  }

  /** A frame is cut off exactly where one stands; there is none exactly if fewer bytes are there than it announces. */
  lemma CutFrameIff(wire: ByteString, c: Cut)
    ensures CutFrame(wire) == Some(c) <==> |c.payload| <= 65535 && wire == FrameBytes(c.payload) + c.rest
    ensures CutFrame(wire).None? <==> |wire| < 2 || |wire| - 2 < 256 * wire[0] as nat + wire[1] as nat
  {
    hide CutFrame, FrameBytes;
    NoFrame(wire);
    if |c.payload| <= 65535 && wire == FrameBytes(c.payload) + c.rest {
      CutOfFrame(c.payload, c.rest);
    }
    if CutFrame(wire) == Some(c) {
      CutIsFrame(wire);
    }
  }

  // ---- Sealing and opening ------------------------------------------------------------------

  type CipherKey = ByteString

  /** Authenticated encryption keyed by a key and a counter (Noise Protocol Framework, revision 34, section 5.1). */
  datatype Aead = Aead(seal: (CipherKey, nat, ByteString) -> ByteString,
                       open: (CipherKey, nat, ByteString) -> Option<ByteString>)

  const TAG_SIZE := 16

  // 2^64 - 1 is reserved
  const MAX_NONCE: nat := 0xFFFF_FFFF_FFFF_FFFE

  const MAX_PLAINTEXT := 65519

  ghost predicate Sound(aead: Aead) {
    forall key, n, p :: aead.open(key, n, aead.seal(key, n, p)) == Some(p) && |aead.seal(key, n, p)| == |p| + TAG_SIZE
  }

  /** A frame sealed under one counter does not open under another. */
  ghost predicate Authentic(aead: Aead) {
    forall key, n, m, p {:trigger aead.open(key, m, aead.seal(key, n, p))} ::
      0 <= n <= MAX_NONCE && 0 <= m <= MAX_NONCE && n != m ==> aead.open(key, m, aead.seal(key, n, p)).None?
  }

  /** A scheme that meets both laws: the counter in the clear as the tag. */
  function CounterTag(): Aead {
    Aead((key, n, p) => p + Fixed(n, 256, TAG_SIZE),
         (key, n, c) =>
           if |c| >= TAG_SIZE && c[|c| - TAG_SIZE..] == Fixed(n, 256, TAG_SIZE) then Some(c[..|c| - TAG_SIZE]) else None)
  }

  lemma LawsCanBeMet()
    ensures Sound(CounterTag()) && Authentic(CounterTag())
  {
    var aead := CounterTag();
    PowMonotone(256, 8, TAG_SIZE);
    assert Pow(256, 8) == MAX_NONCE + 2;
    hide Fixed, Value, Pow;
    forall key, n: nat, m: nat, p
      ensures aead.open(key, n, aead.seal(key, n, p)) == Some(p)
      ensures 0 <= n <= MAX_NONCE && 0 <= m <= MAX_NONCE && n != m ==> aead.open(key, m, aead.seal(key, n, p)).None?
    {
      var c := aead.seal(key, n, p);
      assert c[..|c| - TAG_SIZE] == p && c[|c| - TAG_SIZE..] == Fixed(n, 256, TAG_SIZE);
      if n <= MAX_NONCE && m <= MAX_NONCE {
        ValueOfFixed(n, 256, TAG_SIZE);
        ValueOfFixed(m, 256, TAG_SIZE);
      }
    }
  }

  datatype CipherState = CipherState(key: CipherKey, nonce: nat)

  /** What sending leaves behind: the counter has moved on even if the frame turns out too long to write. */
  datatype Sent = Sent(tx: CipherState, wire: ByteString, result: Result<(), SessionError>)

  function Send(aead: Aead, tx: CipherState, wire: ByteString, plaintext: ByteString): Sent {
    if tx.nonce > MAX_NONCE then Sent(tx, wire, Err(NonceExhausted))
    else
      var ciphertext := aead.seal(tx.key, tx.nonce, plaintext);
      var tx' := tx.(nonce := tx.nonce + 1);
      if |ciphertext| > MAX_FRAME_LENGTH then Sent(tx', wire, Err(FrameTooLong))
      else Sent(tx', wire + FrameBytes(ciphertext), Ok(()))
  }

  /** What receiving leaves behind: the counter moves on only if the frame opens. */
  datatype Received = Received(rx: CipherState, wire: ByteString, result: Result<ByteString, SessionError>)

  function Receive(aead: Aead, rx: CipherState, wire: ByteString): Received {
    match CutFrame(wire)
    case None => Received(rx, [], Err(EndOfStream))
    case Some(cut) =>
      if rx.nonce > MAX_NONCE then Received(rx, cut.rest, Err(NonceExhausted))
      else
        match aead.open(rx.key, rx.nonce, cut.payload)
        case None => Received(rx, cut.rest, Err(CannotDecrypt))
        case Some(plaintext) => Received(rx.(nonce := rx.nonce + 1), cut.rest, Ok(plaintext))
  }

  /** When the counters are used up nothing happens; a plaintext over 65519 bytes costs a counter; else a frame goes out. */
  lemma SendOutcome(aead: Aead, tx: CipherState, wire: ByteString, plaintext: ByteString)
    requires Sound(aead)
    ensures Send(aead, tx, wire, plaintext)
         == if tx.nonce > 0xFFFF_FFFF_FFFF_FFFE then Sent(tx, wire, Err(NonceExhausted))
            else if |plaintext| > 65519 then Sent(CipherState(tx.key, tx.nonce + 1), wire, Err(FrameTooLong))
            else Sent(CipherState(tx.key, tx.nonce + 1),
                      wire + FrameBytes(aead.seal(tx.key, tx.nonce, plaintext)), Ok(()))
  {
    hide FrameBytes;
    assert aead.open(tx.key, tx.nonce, aead.seal(tx.key, tx.nonce, plaintext)) == Some(plaintext);
  }

  /** A frame is taken off whatever comes of it; the counter moves on only if it opens. Part of a frame is the end. */
  lemma ReceiveOutcome(aead: Aead, rx: CipherState, payload: ByteString, rest: ByteString, part: ByteString)
    requires |payload| <= 65535
    requires |part| < 2 || |part| - 2 < 256 * part[0] as nat + part[1] as nat
    ensures Receive(aead, rx, part) == Received(rx, [], Err(EndOfStream))
    ensures Receive(aead, rx, FrameBytes(payload) + rest)
         == if rx.nonce > 0xFFFF_FFFF_FFFF_FFFE then Received(rx, rest, Err(NonceExhausted))
            else if aead.open(rx.key, rx.nonce, payload).None? then Received(rx, rest, Err(CannotDecrypt))
            else Received(CipherState(rx.key, rx.nonce + 1), rest, Ok(aead.open(rx.key, rx.nonce, payload).value))
  {
    hide CutFrame, FrameBytes;
    CutFrameIff(part, Cut([], []));
    CutOfFrame(payload, rest);
  }

  // ---- The program --------------------------------------------------------------------------

  class Wire {
    var bytes: ByteString

    constructor ()
      ensures bytes == []
    {
      bytes := [];
    }
  }

  /** One end of a session together with the byte-stream adapter over it. */
  class Endpoint {
    const aead: Aead
    var tx: CipherState
    var rx: CipherState
    const outgoing: Wire
    const incoming: Wire
    /** Bytes of the last frame that no read has taken yet. */
    var readBuf: ByteString

    /** After the handshake the initiator sends with the first cipher state and receives with the second. */
    constructor Initiator(aead: Aead, cs1: CipherState, cs2: CipherState, outgoing: Wire, incoming: Wire)
      ensures this.aead == aead && tx == cs1 && rx == cs2 && readBuf == []
      ensures this.outgoing == outgoing && this.incoming == incoming
    {
      this.aead := aead;
      tx, rx := cs1, cs2;
      this.outgoing, this.incoming := outgoing, incoming;
      readBuf := [];
    }

    /** The responder uses them the other way round. */
    constructor Responder(aead: Aead, cs1: CipherState, cs2: CipherState, outgoing: Wire, incoming: Wire)
      ensures this.aead == aead && tx == cs2 && rx == cs1 && readBuf == []
      ensures this.outgoing == outgoing && this.incoming == incoming
    {
      this.aead := aead;
      tx, rx := cs2, cs1;
      this.outgoing, this.incoming := outgoing, incoming;
      readBuf := [];
    }

    method SendFrame(plaintext: ByteString) returns (r: Result<(), SessionError>)
      modifies this`tx, outgoing
      ensures Sent(tx, outgoing.bytes, r) == Send(aead, old(tx), old(outgoing.bytes), plaintext)
    {
      if tx.nonce > MAX_NONCE {
        return Err(NonceExhausted);
      }
      var ciphertext := aead.seal(tx.key, tx.nonce, plaintext);
      tx := tx.(nonce := tx.nonce + 1);
      if |ciphertext| > MAX_FRAME_LENGTH {
        return Err(FrameTooLong);
      }
      outgoing.bytes := outgoing.bytes + Be16(|ciphertext|);
      if ciphertext != [] {
        outgoing.bytes := outgoing.bytes + ciphertext;
      }
      assert old(outgoing.bytes) + Be16(|ciphertext|) + ciphertext
          == old(outgoing.bytes) + (Be16(|ciphertext|) + ciphertext);
      r := Ok(());
    }

    method ReceiveFrame() returns (r: Result<ByteString, SessionError>)
      modifies this`rx, incoming
      ensures Received(rx, incoming.bytes, r) == Receive(aead, old(rx), old(incoming.bytes))
    {
      var wire := incoming.bytes;
      if |wire| < 2 {
        incoming.bytes := [];
        return Err(EndOfStream);
      }
      var n := Value(wire[..2], 256);
      if |wire| - 2 < n {
        incoming.bytes := [];
        return Err(EndOfStream);
      }
      var ciphertext := wire[2..2 + n];
      incoming.bytes := wire[2 + n..];
      if rx.nonce > MAX_NONCE {
        return Err(NonceExhausted);
      }
      var plaintext := aead.open(rx.key, rx.nonce, ciphertext);
      if plaintext.None? {
        return Err(CannotDecrypt);
      }
      rx := rx.(nonce := rx.nonce + 1);
      r := Ok(plaintext.value);
    }

    /** One frame a write; all of it is reported written. */
    method Write(p: ByteString) returns (r: Result<nat, SessionError>)
      modifies this`tx, outgoing
      ensures var sent := Send(aead, old(tx), old(outgoing.bytes), p);
              && tx == sent.tx && outgoing.bytes == sent.wire
              && r == (if sent.result.Ok? then Ok(|p|) else Err(sent.result.error))
    {
      var sent := SendFrame(p);
      r := if sent.Ok? then Ok(|p|) else Err(sent.error);
    }

    /** Drains the leftover first; otherwise skips empty frames until one has bytes. */
    method Read(n: nat) returns (r: Result<ByteString, SessionError>)
      modifies this`rx, this`readBuf, incoming
      ensures ReadOutcome(rx, incoming.bytes, readBuf, r)
           == ReadSpec(aead, old(rx), old(incoming.bytes), old(readBuf), n)
    {
      if n == 0 {
        return Ok([]);
      }
      while readBuf == []
        invariant ReadSpec(aead, rx, incoming.bytes, readBuf, n)
               == ReadSpec(aead, old(rx), old(incoming.bytes), old(readBuf), n)
        decreases |incoming.bytes|, readBuf == []
      {
        var frame := ReceiveFrame();
        if frame.Err? {
          return Err(frame.error);
        }
        readBuf := frame.value;
      }
      var k := if n < |readBuf| then n else |readBuf|;
      r := Ok(readBuf[..k]);
      readBuf := readBuf[k..];
    }
  }

  datatype ReadOutcome =
    ReadOutcome(rx: CipherState, wire: ByteString, readBuf: ByteString, result: Result<ByteString, SessionError>)

  function ReadSpec(aead: Aead, rx: CipherState, wire: ByteString, readBuf: ByteString, n: nat): ReadOutcome
    decreases |wire|
  {
    if n == 0 then ReadOutcome(rx, wire, readBuf, Ok([]))
    else if readBuf != [] then
      var k := if n < |readBuf| then n else |readBuf|;
      ReadOutcome(rx, wire, readBuf[k..], Ok(readBuf[..k]))
    else
      var got := Receive(aead, rx, wire);
      if got.result.Err? then ReadOutcome(got.rx, got.wire, readBuf, Err(got.result.error))
      else ReadSpec(aead, got.rx, got.wire, got.result.value, n)
  }
}
