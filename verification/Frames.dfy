/**
  The two self-delimiting frame kinds that share one RPC stream (p2p/rpc/negotiation.go,
  canonicalframe.go, streamtransport.go). Nothing on the wire tells them apart.
 */
module Frames {
  import opened Bytes
  import opened Positional

  datatype Kind = Negotiation | Canonical

  datatype FrameError = IdTooLong | TooShort | LengthMismatch

  const MAX_PROTOCOL_ID_LEN := 255
  const LIMIT32: nat := 0x1_0000_0000

  const FLAG_NONE: Byte := 0
  const FLAG_NOT_SUPPORTED: Byte := 4

  function HasTerminate(flags: Byte): bool { flags / 2 % 2 == 1 }

  function HasNotSupported(flags: Byte): bool { flags / 4 % 2 == 1 }

  // ---- Encoding and decoding ----------------------------------------------------------------

  /** | length (1) | flags (1) | protocol id | */
  function EncodeNegotiation(flags: Byte, id: ByteString): Result<ByteString, FrameError> {
    if |id| > MAX_PROTOCOL_ID_LEN then Err(IdTooLong) else Ok([|id|, flags] + id)
  }

  /** The same, of an id that fits. */
  function IdFrame(flags: Byte, id: ByteString): ByteString
    requires |id| <= 255
  {
    [|id|, flags] + id
  }

  datatype NegotiationFrame = NegotiationFrame(flags: Byte, id: ByteString)

  function DecodeNegotiation(frame: ByteString): Result<NegotiationFrame, FrameError> {
    if |frame| < 2 then Err(TooShort)
    else if frame[0] != |frame| - 2 then Err(LengthMismatch)
    else Ok(NegotiationFrame(frame[1], frame[2..]))
  }

  /** A big-endian 32-bit word; larger lengths wrap around. */
  function Be32(n: nat): (b: ByteString)
    ensures |b| == 4
  {
    Fixed(n, 256, 4)
  }

  /** | length (4, big-endian) | payload | */
  function EncodeCanonical(payload: ByteString): ByteString {
    Be32(|payload|) + payload
  }

  function DecodeCanonical(frame: ByteString): Result<ByteString, FrameError> {
    if |frame| < 4 then Err(TooShort)
    else if Value(frame[..4], 256) != |frame| - 4 then Err(LengthMismatch)
    else Ok(frame[4..])
  }

  // ---- Cutting a frame off a stream ---------------------------------------------------------

  function HeaderSize(kind: Kind): nat {
    if kind.Negotiation? then 2 else 4
  }

  function BodyLength(kind: Kind, header: ByteString): nat
    requires |header| >= HeaderSize(kind)
  {
    if kind.Negotiation? then header[0] else Value(header[..4], 256)
  }

  /** One complete frame, and nothing after it. */
  predicate IsFrame(kind: Kind, f: ByteString) {
    |f| >= HeaderSize(kind) && |f| == HeaderSize(kind) + BodyLength(kind, f)
  }

  /** How many bytes the read in progress still waits for, given the bytes it has: header first, then body. */
  function Missing(kind: Kind, got: ByteString): nat {
    if |got| < HeaderSize(kind) then HeaderSize(kind) - |got|
    else
      var size := HeaderSize(kind) + BodyLength(kind, got);
      if |got| < size then size - |got| else 0
  }

  datatype Cut = Cut(frame: ByteString, rest: ByteString)

  function CutFrame(kind: Kind, input: ByteString): (c: Option<Cut>)
    ensures c.Some? ==> c.value.frame + c.value.rest == input && |c.value.rest| < |input|
    ensures c.Some? ==> IsFrame(kind, c.value.frame)
  {
    if |input| < HeaderSize(kind) then None
    else
      var size := HeaderSize(kind) + BodyLength(kind, input);
      if |input| < size then None
      else
        assert kind.Canonical? ==> input[..size][..4] == input[..4];
        Some(Cut(input[..size], input[size..]))
  }

  lemma NegotiationRoundTrip(flags: Byte, id: ByteString)
    requires |id| <= MAX_PROTOCOL_ID_LEN
    ensures var f := EncodeNegotiation(flags, id).value;
            IsFrame(Negotiation, f) && DecodeNegotiation(f) == Ok(NegotiationFrame(flags, id))
  {
  }

  lemma CanonicalRoundTrip(payload: ByteString)
    requires |payload| < LIMIT32
    ensures var f := EncodeCanonical(payload);
            IsFrame(Canonical, f) && DecodeCanonical(f) == Ok(payload)
  {
    assert Pow(256, 4) == LIMIT32;
    hide Fixed, Value, Pow;
    ValueOfFixed(|payload|, 256, 4);
    var f := EncodeCanonical(payload);
    assert f[..4] == Be32(|payload|) && f[4..] == payload;
  }

  /** The first four bytes spell the length, the most significant one first. */
  lemma CanonicalLayout(payload: ByteString)
    requires |payload| < 0x1_0000_0000
    ensures var f := EncodeCanonical(payload);
            && |f| == 4 + |payload| && f[4..] == payload
            && 0x100_0000 * f[0] as nat + 0x1_0000 * f[1] as nat + 0x100 * f[2] as nat + f[3] as nat == |payload|
  {
    assert Pow(256, 4) == 0x1_0000_0000;
    hide Fixed, Value, Pow;
    var f, b := EncodeCanonical(payload), Be32(|payload|);
    ValueOfFixed(|payload|, 256, 4);
    assert b == [] + [b[0]] + [b[1]] + [b[2]] + [b[3]];
    ValueSnoc([], b[0], 256);
    ValueSnoc([] + [b[0]], b[1], 256);
    ValueSnoc([] + [b[0]] + [b[1]], b[2], 256);
    ValueSnoc([] + [b[0]] + [b[1]] + [b[2]], b[3], 256);
    assert Value([], 256) == 0 by { ValueOfNothing(); }
  }

  lemma ValueOfNothing()
    ensures Value([], 256) == 0
  {
  }

  /** What decodes is exactly one whole frame; a part of a header and a wrong length are told apart. */
  lemma DecodesWholeFrames(f: ByteString)
    ensures DecodeNegotiation(f) == if |f| < 2 then Err(TooShort)
                                    else if IsFrame(Negotiation, f) then Ok(NegotiationFrame(f[1], f[2..]))
                                    else Err(LengthMismatch)
    ensures DecodeCanonical(f) == if |f| < 4 then Err(TooShort)
                                  else if IsFrame(Canonical, f) then Ok(f[4..])
                                  else Err(LengthMismatch)
    ensures |f| >= 2 ==> (IsFrame(Negotiation, f) <==> f[0] == |f| - 2)
    ensures IsFrame(Canonical, f) <==> |f| >= 4 && |f| - 4 < LIMIT32 && f == EncodeCanonical(f[4..])
  {
    hide Fixed, Value;
    if IsFrame(Canonical, f) {
      CanonicalFrameIs(f);
    } else if |f| >= 4 && |f| - 4 < LIMIT32 && f == EncodeCanonical(f[4..]) {
      CanonicalRoundTrip(f[4..]);
    }
  }

  /** A whole canonical frame is the encoding of its payload. */
  lemma CanonicalFrameIs(f: ByteString)
    requires IsFrame(Canonical, f)
    ensures |f[4..]| < LIMIT32 && f == EncodeCanonical(f[4..])
  {
    assert Pow(256, 4) == LIMIT32;
    hide Fixed, Value, Pow;
    var header := f[..4];
    assert AreDigits(header, 256);
    ValueBound(header, 256);
    FixedOfValue(header, 256);
    assert f == header + f[4..];
  }

  /** The wrap-around in the other direction: a longer payload never decodes. */
  lemma OversizedPayloadRefused(payload: ByteString)
    requires |payload| >= LIMIT32
    ensures DecodeCanonical(EncodeCanonical(payload)).Err?
  {
    assert Pow(256, 4) == LIMIT32;
    var f := EncodeCanonical(payload);
    assert f[..4] == Be32(|payload|) && AreDigits(f[..4], 256);
    hide Fixed, Value, Pow;
    ValueBound(f[..4], 256);
  }

  /** While reading a frame, the read in progress waits for part of that frame, and for nothing when it is complete. */
  lemma MissingOfPrefix(kind: Kind, f: ByteString, k: nat)
    requires IsFrame(kind, f) && k <= |f|
    ensures Missing(kind, f[..k]) <= |f| - k
    ensures Missing(kind, f[..k]) == 0 <==> k == |f|
  {
    if k >= HeaderSize(kind) {
      assert kind.Canonical? ==> f[..k][..4] == f[..4];
    }
  }

  lemma CutOfFrame(kind: Kind, f: ByteString, rest: ByteString)
    requires IsFrame(kind, f)
    ensures CutFrame(kind, f + rest) == Some(Cut(f, rest))
  {
    var input := f + rest;
    assert kind.Canonical? ==> input[..4] == f[..4];
    assert input[..|f|] == f && input[|f|..] == rest;
  }

  // ---- Lists of frames ----------------------------------------------------------------------

  predicate AreFrames(kind: Kind, fs: seq<ByteString>) {
    forall i :: 0 <= i < |fs| ==> IsFrame(kind, fs[i])
  }

  datatype Reading = Reading(frames: seq<ByteString>, rest: ByteString)

  /** Cutting n frames of one kind, one after the other. */
  function CutFrames(kind: Kind, n: nat, input: ByteString): Option<Reading> {
    if n == 0 then Some(Reading([], input))
    else
      match CutFrame(kind, input)
      case None => None
      case Some(cut) =>
        match CutFrames(kind, n - 1, cut.rest)
        case None => None
        case Some(r) => Some(Reading([cut.frame] + r.frames, r.rest))
  }

  lemma {:induction false} CutFramesOfConcat(kind: Kind, fs: seq<ByteString>, rest: ByteString)
    requires AreFrames(kind, fs)
    ensures CutFrames(kind, |fs|, Concat(fs) + rest) == Some(Reading(fs, rest))
  {
    if fs == [] {
      assert Concat(fs) + rest == rest;
    } else {
      assert Concat(fs) + rest == fs[0] + (Concat(fs[1..]) + rest);
      CutOfFrame(kind, fs[0], Concat(fs[1..]) + rest);
      CutFramesOfConcat(kind, fs[1..], rest);
      assert fs == [fs[0]] + fs[1..];
    }
  }

  lemma CutFramesStep(kind: Kind, n: nat, input: ByteString)
    requires n > 0 && CutFrames(kind, n, input).Some?
    ensures CutFrame(kind, input).Some? && CutFrames(kind, n - 1, CutFrame(kind, input).value.rest).Some?
    ensures var cut := CutFrame(kind, input).value;
            var tail := CutFrames(kind, n - 1, cut.rest).value;
            CutFrames(kind, n, input).value == Reading([cut.frame] + tail.frames, tail.rest)
  {
    hide CutFrame;
  }

  /** The only frames that can be cut off are the ones whose bytes are there. */
  lemma {:induction false} CutFramesUnique(kind: Kind, n: nat, input: ByteString)
    requires CutFrames(kind, n, input).Some?
    ensures var r := CutFrames(kind, n, input).value;
            |r.frames| == n && AreFrames(kind, r.frames) && Concat(r.frames) + r.rest == input
  {
    hide CutFrame, IsFrame;
    if n > 0 {
      hide CutFrames, Concat;
      CutFramesStep(kind, n, input);
      var cut := CutFrame(kind, input).value;
      CutFramesUnique(kind, n - 1, cut.rest);
      var tail := CutFrames(kind, n - 1, cut.rest).value;
      ConcatCons(cut.frame, tail.frames);
      assert cut.frame + Concat(tail.frames) + tail.rest == cut.frame + (Concat(tail.frames) + tail.rest);
    }
  }
}
