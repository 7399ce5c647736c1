/**
  Whole runs of an encrypted session: two ends writing and reading in any order. Nothing is lost,
  repeated or reordered, and the counters of the two ends stay in step.
 */
module SessionRuns {
  import opened Bytes
  import opened Session

  /** One direction: the sender, the bytes on the connection, the receiver, and what has happened so far. */
  datatype Direction = Direction(tx: CipherState, wire: ByteString, rx: CipherState, readBuf: ByteString,
                                 written: seq<ByteString>, delivered: ByteString)

  /** Both directions of a session: `there` from initiator to responder, `back` the other way. */
  datatype Duplex = Duplex(there: Direction, back: Direction)

  /** The handshake hands both ends the same two cipher states; each end sends with the one the other receives with. */
  function Established(cs1: CipherState, cs2: CipherState): Duplex {
    Duplex(Direction(cs1, [], cs1, [], [], []), Direction(cs2, [], cs2, [], [], []))
  }

  /** The direction from one end to the other, before anything has been written or read. */
  function DirectionOf(sender: Endpoint, receiver: Endpoint): Direction
    reads sender, receiver, sender.outgoing
  {
    Direction(sender.tx, sender.outgoing.bytes, receiver.rx, receiver.readBuf, [], [])
  }

  /** The two ends as their handshakes make them, each from the same two cipher states: an established session. */
  method Establish(aead: Aead, cs1: CipherState, cs2: CipherState) returns (initiator: Endpoint, responder: Endpoint)
    ensures initiator.outgoing == responder.incoming && responder.outgoing == initiator.incoming
    ensures Duplex(DirectionOf(initiator, responder), DirectionOf(responder, initiator)) == Established(cs1, cs2)
  {
    var there := new Wire();
    var back := new Wire();
    initiator := new Endpoint.Initiator(aead, cs1, cs2, there, back);
    responder := new Endpoint.Responder(aead, cs1, cs2, back, there);
  }

  /** A write, one round of the reading loop that takes a frame in, or a read of at most n of the bytes at hand. */
  datatype Action = Write(p: ByteString) | Fetch | Deliver(n: nat)

  predicate CanAct(d: Direction, action: Action) {
    match action
    case Write(p) => true
    case Fetch => d.readBuf == [] && CutFrame(d.wire).Some?
    case Deliver(n) => n > 0 && d.readBuf != []
  }

  function Act(aead: Aead, d: Direction, action: Action): Direction {
    match action
    case Write(p) =>
      var sent := Send(aead, d.tx, d.wire, p);
      d.(tx := sent.tx, wire := sent.wire, written := if sent.result.Ok? then d.written + [p] else d.written)
    case Fetch =>
      var got := Receive(aead, d.rx, d.wire);
      d.(rx := got.rx, wire := got.wire, readBuf := if got.result.Ok? then got.result.value else d.readBuf)
    case Deliver(n) =>
      var k := if n < |d.readBuf| then n else |d.readBuf|;
      d.(readBuf := d.readBuf[k..], delivered := d.delivered + d.readBuf[..k])
  }

  datatype Event = There(action: Action) | Back(action: Action)

  predicate CanHappen(s: Duplex, e: Event) {
    match e
    case There(action) => CanAct(s.there, action)
    case Back(action) => CanAct(s.back, action)
  }

  function Happen(aead: Aead, s: Duplex, e: Event): Duplex {
    match e
    case There(action) => s.(there := Act(aead, s.there, action))
    case Back(action) => s.(back := Act(aead, s.back, action))
  }

  ghost predicate IsRun(aead: Aead, cs1: CipherState, cs2: CipherState, states: seq<Duplex>, events: seq<Event>) {
    && cs1.nonce == 0 && cs2.nonce == 0
    && |states| == |events| + 1
    && states[0] == Established(cs1, cs2)
    && forall i :: 0 <= i < |events| ==>
         CanHappen(states[i], events[i]) && states[i + 1] == Happen(aead, states[i], events[i])
  }

  /** Every write fits one frame. */
  predicate WritesFit(events: seq<Event>) {
    forall i :: 0 <= i < |events| && events[i].action.Write? ==> |events[i].action.p| <= MAX_PLAINTEXT
  }

  // ---- The invariant ------------------------------------------------------------------------

  /** The frames of written[from..] on the connection, sealed under consecutive counters. */
  function Frames(aead: Aead, key: CipherKey, written: seq<ByteString>, from: nat): ByteString
    decreases |written| - from
  {
    if from >= |written| then []
    else FrameBytes(aead.seal(key, from, written[from])) + Frames(aead, key, written, from + 1)
  }

  ghost predicate InStep(aead: Aead, d: Direction) {
    && d.tx.key == d.rx.key
    && d.tx.nonce == |d.written| <= MAX_NONCE + 1
    && d.rx.nonce <= d.tx.nonce
    && d.wire == Frames(aead, d.tx.key, d.written, d.rx.nonce)
    && d.delivered + d.readBuf == Concat(d.written[..d.rx.nonce])
    && (forall i :: 0 <= i < |d.written| ==> |d.written[i]| <= MAX_PLAINTEXT)
  }

  lemma {:induction false} FramesGrow(aead: Aead, key: CipherKey, written: seq<ByteString>, p: ByteString, from: nat)
    requires from <= |written|
    ensures Frames(aead, key, written + [p], from)
         == Frames(aead, key, written, from) + FrameBytes(aead.seal(key, |written|, p))
    decreases |written| - from
  {
    hide FrameBytes;
    if from < |written| {
      FramesGrow(aead, key, written, p, from + 1);
    } else {
      assert Frames(aead, key, written + [p], from + 1) == [];
    }
  }

  /** A write of up to 65519 bytes adds exactly its frame; out of counters it changes nothing. */
  lemma WriteKeepsStep(aead: Aead, d: Direction, p: ByteString)
    requires Sound(aead) && InStep(aead, d) && |p| <= MAX_PLAINTEXT
    ensures InStep(aead, Act(aead, d, Write(p)))
    ensures Send(aead, d.tx, d.wire, p).result.Ok? <==> d.tx.nonce <= MAX_NONCE
  {
    hide FrameBytes;
    assert aead.open(d.tx.key, d.tx.nonce, aead.seal(d.tx.key, d.tx.nonce, p)) == Some(p);
    if d.tx.nonce <= MAX_NONCE {
      FramesGrow(aead, d.tx.key, d.written, p, d.rx.nonce);
      assert (d.written + [p])[..d.rx.nonce] == d.written[..d.rx.nonce];
    }
  }

  /** The next frame on the connection always opens, to the next write. */
  lemma FetchKeepsStep(aead: Aead, d: Direction)
    requires Sound(aead) && InStep(aead, d) && CanAct(d, Fetch)
    ensures InStep(aead, Act(aead, d, Fetch))
    ensures d.rx.nonce < |d.written| && Receive(aead, d.rx, d.wire).result == Ok(d.written[d.rx.nonce])
  {
    var m := d.rx.nonce;
    assert m < |d.written|;
    var p := d.written[m];
    var c := aead.seal(d.tx.key, m, p);
    assert aead.open(d.tx.key, m, c) == Some(p);
    hide FrameBytes, Session.CutFrame;
    CutOfFrame(c, Frames(aead, d.tx.key, d.written, m + 1));
    ConcatSnoc(d.written[..m], p);
    assert d.written[..m + 1] == d.written[..m] + [p];
    assert d.delivered + [] == d.delivered;
  }

  lemma DeliverKeepsStep(aead: Aead, d: Direction, n: nat)
    requires InStep(aead, d) && CanAct(d, Deliver(n))
    ensures InStep(aead, Act(aead, d, Deliver(n)))
    ensures 1 <= |Act(aead, d, Deliver(n)).delivered| - |d.delivered| <= n
  {
    var k := if n < |d.readBuf| then n else |d.readBuf|;
    assert d.delivered + d.readBuf[..k] + d.readBuf[k..] == d.delivered + d.readBuf;
  }

  lemma {:induction false} RunKeepsStep(aead: Aead, cs1: CipherState, cs2: CipherState,
                                        states: seq<Duplex>, events: seq<Event>, i: nat)
    requires Sound(aead) && IsRun(aead, cs1, cs2, states, events) && WritesFit(events) && i < |states|
    ensures InStep(aead, states[i].there) && InStep(aead, states[i].back)
  {
    hide InStep, Act, CanAct, Sound;
    if i == 0 {
      FreshIsInStep(aead, cs1);
      FreshIsInStep(aead, cs2);
    } else {
      RunKeepsStep(aead, cs1, cs2, states, events, i - 1);
      var e := events[i - 1];
      ActKeepsStep(aead, if e.There? then states[i - 1].there else states[i - 1].back, e.action);
    }
  }

  lemma FreshIsInStep(aead: Aead, cs: CipherState)
    requires cs.nonce == 0
    ensures InStep(aead, Direction(cs, [], cs, [], [], []))
  {
  }

  lemma ActKeepsStep(aead: Aead, d: Direction, action: Action)
    requires Sound(aead) && InStep(aead, d) && CanAct(d, action)
    requires action.Write? ==> |action.p| <= MAX_PLAINTEXT
    ensures InStep(aead, Act(aead, d, action))
  {
    hide InStep, Act, CanAct, Sound;
    match action
    case Write(p) => WriteKeepsStep(aead, d, p);
    case Fetch => FetchKeepsStep(aead, d);
    case Deliver(n) => DeliverKeepsStep(aead, d, n);
  }

  /** What was delivered, what is left over and the writes still under way are together all that was written. */
  ghost predicate Conserved(d: Direction) {
    && d.tx.nonce == |d.written|
    && d.rx.nonce <= |d.written|
    && d.delivered + d.readBuf + Concat(d.written[d.rx.nonce..]) == Concat(d.written)
  }

  /** The main result: at any point of any run whose writes fit, both directions conserve every byte. */
  lemma BytesAreConserved(aead: Aead, cs1: CipherState, cs2: CipherState,
                          states: seq<Duplex>, events: seq<Event>, i: nat)
    requires Sound(aead) && IsRun(aead, cs1, cs2, states, events) && WritesFit(events) && i < |states|
    ensures Conserved(states[i].there) && Conserved(states[i].back)
  {
    hide IsRun;
    RunKeepsStep(aead, cs1, cs2, states, events, i);
    InStepConserves(aead, states[i].there);
    InStepConserves(aead, states[i].back);
  }

  lemma InStepConserves(aead: Aead, d: Direction)
    requires InStep(aead, d)
    ensures Conserved(d)
  {
    ConcatSplit(d.written[..d.rx.nonce], d.written[d.rx.nonce..]);
    assert d.written[..d.rx.nonce] + d.written[d.rx.nonce..] == d.written;
  }

  // ---- Writes that do not fit ---------------------------------------------------------------

  /** A write keeps the two ends in step exactly when it fits one frame (or is refused for want of counters). */
  lemma WriteKeepsStepIff(aead: Aead, d: Direction, p: ByteString)
    requires Sound(aead) && InStep(aead, d)
    ensures InStep(aead, Act(aead, d, Write(p))) <==> |p| <= MAX_PLAINTEXT || d.tx.nonce > MAX_NONCE
  {
    if |p| <= MAX_PLAINTEXT {
      WriteKeepsStep(aead, d, p);
    } else {
      assert aead.open(d.tx.key, d.tx.nonce, aead.seal(d.tx.key, d.tx.nonce, p)) == Some(p);
    }
  }

  type Numbered = (nat, ByteString)

  /** Frames on the connection with the counters they were sealed under. */
  function LateFrames(aead: Aead, key: CipherKey, late: seq<Numbered>): ByteString {
    if late == [] then []
    else FrameBytes(aead.seal(key, late[0].0, late[0].1)) + LateFrames(aead, key, late[1..])
  }

  lemma {:induction false} LateFramesGrow(aead: Aead, key: CipherKey, late: seq<Numbered>, x: Numbered)
    ensures LateFrames(aead, key, late + [x]) == LateFrames(aead, key, late) + FrameBytes(aead.seal(key, x.0, x.1))
  {
    hide FrameBytes;
    if late == [] {
      assert (late + [x])[1..] == [];
    } else {
      assert (late + [x])[1..] == late[1..] + [x];
      LateFramesGrow(aead, key, late[1..], x);
    }
  }

  /**
    A counter of the sender's has been used up on a frame that was never sent: the writes before it can
    still arrive, while all the later frames are sealed under counters the receiver does not get to.
   */
  ghost predicate Severed(aead: Aead, d: Direction, before: seq<ByteString>, late: seq<Numbered>) {
    && d.tx.key == d.rx.key
    && |before| < d.tx.nonce <= MAX_NONCE + 1
    && d.rx.nonce <= |before|
    && before <= d.written
    && d.wire == Frames(aead, d.tx.key, before, d.rx.nonce) + LateFrames(aead, d.tx.key, late)
    && d.delivered + d.readBuf == Concat(before[..d.rx.nonce])
    && (forall i :: 0 <= i < |before| ==> |before[i]| <= MAX_PLAINTEXT)
    && (forall i :: 0 <= i < |late| ==> |before| < late[i].0 <= MAX_NONCE && |late[i].1| <= MAX_PLAINTEXT)
  }

  lemma OversizedWriteSevers(aead: Aead, d: Direction, p: ByteString)
    requires Sound(aead) && InStep(aead, d) && d.tx.nonce <= MAX_NONCE && |p| > MAX_PLAINTEXT
    ensures Send(aead, d.tx, d.wire, p).result == Err(FrameTooLong)
    ensures Severed(aead, Act(aead, d, Write(p)), d.written, [])
  {
    assert aead.open(d.tx.key, d.tx.nonce, aead.seal(d.tx.key, d.tx.nonce, p)) == Some(p);
    assert d.wire + [] == d.wire;
  }

  lemma WriteKeepsSevered(aead: Aead, d: Direction, p: ByteString, before: seq<ByteString>, late: seq<Numbered>)
    returns (late': seq<Numbered>)
    requires Sound(aead) && Severed(aead, d, before, late)
    ensures Severed(aead, Act(aead, d, Write(p)), before, late')
  {
    hide FrameBytes, Frames, LateFrames, Concat;
    assert aead.open(d.tx.key, d.tx.nonce, aead.seal(d.tx.key, d.tx.nonce, p)) == Some(p);
    hide Sound;
    late' := late;
    if d.tx.nonce <= MAX_NONCE && |p| <= MAX_PLAINTEXT {
      var c := aead.seal(d.tx.key, d.tx.nonce, p);
      late' := late + [(d.tx.nonce, p)];
      LateFramesGrow(aead, d.tx.key, late, (d.tx.nonce, p));
      assert d.wire + FrameBytes(c)
          == Frames(aead, d.tx.key, before, d.rx.nonce) + (LateFrames(aead, d.tx.key, late) + FrameBytes(c));
      assert before <= d.written + [p];
    }
  }

  /** The receiver still gets what was written before, and then only frames that do not open. */
  lemma FetchKeepsSevered(aead: Aead, d: Direction, before: seq<ByteString>, late: seq<Numbered>)
    returns (late': seq<Numbered>)
    requires Sound(aead) && Authentic(aead) && Severed(aead, d, before, late) && CanAct(d, Fetch)
    ensures Severed(aead, Act(aead, d, Fetch), before, late')
    ensures Receive(aead, d.rx, d.wire).result
         == if d.rx.nonce < |before| then Ok(before[d.rx.nonce]) else Err(CannotDecrypt)
  {
    hide FrameBytes, Session.CutFrame;
    var m, key := d.rx.nonce, d.tx.key;
    var rest := LateFrames(aead, key, late);
    late' := late;
    if m < |before| {
      var p := before[m];
      var c := aead.seal(key, m, p);
      assert aead.open(key, m, c) == Some(p);
      assert d.wire == FrameBytes(c) + (Frames(aead, key, before, m + 1) + rest);
      hide Frames, LateFrames;
      CutOfFrame(c, Frames(aead, key, before, m + 1) + rest);
      ConcatSnoc(before[..m], p);
      assert before[..m + 1] == before[..m] + [p];
      assert d.delivered + [] == d.delivered;
    } else {
      assert Frames(aead, key, before, m) == [] && d.wire == rest;
      NothingToCut();
      late' := late[1..];
      var n, p := late[0].0, late[0].1;
      var c := aead.seal(key, n, p);
      assert aead.open(key, n, c) == Some(p);
      assert aead.open(key, m, c).None?;
      assert d.wire == FrameBytes(c) + LateFrames(aead, key, late');
      hide Frames, LateFrames;
      CutOfFrame(c, LateFrames(aead, key, late'));
      assert [] + LateFrames(aead, key, late') == LateFrames(aead, key, late');
    }
  }

  lemma NothingToCut()
    ensures Session.CutFrame([]).None?
  {
  }

  lemma DeliverKeepsSevered(aead: Aead, d: Direction, n: nat, before: seq<ByteString>, late: seq<Numbered>)
    requires Severed(aead, d, before, late) && CanAct(d, Deliver(n))
    ensures Severed(aead, Act(aead, d, Deliver(n)), before, late)
  {
    var k := if n < |d.readBuf| then n else |d.readBuf|;
    assert d.delivered + d.readBuf[..k] + d.readBuf[k..] == d.delivered + d.readBuf;
  }

  predicate CanActAll(aead: Aead, d: Direction, actions: seq<Action>)
    decreases |actions|
  {
    actions == [] || (CanAct(d, actions[0]) && CanActAll(aead, Act(aead, d, actions[0]), actions[1..]))
  }

  function ActAll(aead: Aead, d: Direction, actions: seq<Action>): Direction
    decreases |actions|
  {
    if actions == [] then d else ActAll(aead, Act(aead, d, actions[0]), actions[1..])
  }

  lemma {:induction false} RunKeepsSevered(aead: Aead, d: Direction, actions: seq<Action>,
                                           before: seq<ByteString>, late: seq<Numbered>)
    returns (late': seq<Numbered>)
    requires Sound(aead) && Authentic(aead) && Severed(aead, d, before, late) && CanActAll(aead, d, actions)
    ensures Severed(aead, ActAll(aead, d, actions), before, late')
    decreases |actions|
  {
    late' := late;
    if actions != [] {
      hide Severed, Act, CanAct, Sound, Authentic;
      match actions[0] {
        case Write(p) => late' := WriteKeepsSevered(aead, d, p, before, late);
        case Fetch => late' := FetchKeepsSevered(aead, d, before, late);
        case Deliver(n) => DeliverKeepsSevered(aead, d, n, before, late);
      }
      late' := RunKeepsSevered(aead, Act(aead, d, actions[0]), actions[1..], before, late');
    }
  }

  /**
    After a refused oversized write nothing that is written any more is ever received: over every
    continuation of the run, what the receiver gets stays a beginning of the writes before it, and once
    it has those every further frame is refused.
   */
  lemma OversizedWriteBreaksTheSession(aead: Aead, d: Direction, p: ByteString, actions: seq<Action>)
    requires Sound(aead) && Authentic(aead) && InStep(aead, d)
    requires d.tx.nonce <= MAX_NONCE && |p| > MAX_PLAINTEXT
    requires CanActAll(aead, Act(aead, d, Write(p)), actions)
    ensures Send(aead, d.tx, d.wire, p).result == Err(FrameTooLong)
    ensures var after := ActAll(aead, Act(aead, d, Write(p)), actions);
            && after.delivered + after.readBuf <= Concat(d.written)
            && (after.rx.nonce == |d.written| && CanAct(after, Fetch) ==>
                  Receive(aead, after.rx, after.wire).result == Err(CannotDecrypt))
  {
    hide Act, CanAct, Sound, Authentic, InStep, ActAll, CanActAll, Receive, Send, Severed;
    OversizedWriteSevers(aead, d, p);
    var late := RunKeepsSevered(aead, Act(aead, d, Write(p)), actions, d.written, []);
    var after := ActAll(aead, Act(aead, d, Write(p)), actions);
    SeveredDelivery(aead, after, d.written, late);
    if CanAct(after, Fetch) {
      var _ := FetchKeepsSevered(aead, after, d.written, late);
    }
  }

  lemma SeveredDelivery(aead: Aead, d: Direction, before: seq<ByteString>, late: seq<Numbered>)
    requires Severed(aead, d, before, late)
    ensures d.rx.nonce <= |before| && d.delivered + d.readBuf <= Concat(before)
  {
    assert d.rx.nonce <= |before| && d.delivered + d.readBuf == Concat(before[..d.rx.nonce]) by {
      hide Frames, LateFrames, Concat;
    }
    hide Severed, Concat;
    ConcatSplit(before[..d.rx.nonce], before[d.rx.nonce..]);
    assert before[..d.rx.nonce] + before[d.rx.nonce..] == before;
  }

  // ---- Reads --------------------------------------------------------------------------------

  /** A successful read of n > 0 bytes returns between one and n of them, in order. */
  lemma {:induction false} ReadReturnsSomeBytes(aead: Aead, rx: CipherState, wire: ByteString, readBuf: ByteString, n: nat)
    requires n > 0
    ensures var o := ReadSpec(aead, rx, wire, readBuf, n);
            o.result.Ok? ==> 1 <= |o.result.value| <= n && (readBuf != [] ==> o.result.value + o.readBuf == readBuf)
    decreases |wire|
  {
    if readBuf == [] {
      var got := Receive(aead, rx, wire);
      if got.result.Ok? {
        ReadReturnsSomeBytes(aead, got.rx, got.wire, got.result.value, n);
      }
    }
  }

  /** The first write from number i on that has any bytes; the number of writes if there is none. */
  function FirstBytes(written: seq<ByteString>, i: nat): (j: nat)
    requires i <= |written|
    ensures i <= j <= |written|
    ensures forall k :: i <= k < j ==> written[k] == []
    ensures j < |written| ==> written[j] != []
    decreases |written| - i
  {
    if i < |written| && written[i] == [] then FirstBytes(written, i + 1) else i
  }

  function Smaller(m: nat, n: nat): nat { if m < n then m else n }

  /**
    A read of n > 0 bytes takes from what is left over, or else from the next write that has any bytes,
    passing over the empty ones, as many as there are up to n, and leaves the rest over. It fails, at
    the end of the stream, only if there are none.
   */
  lemma {:induction false} ReadFindsBytes(aead: Aead, d: Direction, n: nat)
    requires Sound(aead) && InStep(aead, d) && n > 0
    ensures var o := ReadSpec(aead, d.rx, d.wire, d.readBuf, n);
            var j := FirstBytes(d.written, d.rx.nonce);
            if d.readBuf != [] then
              var k := Smaller(n, |d.readBuf|);
              o == ReadOutcome(d.rx, d.wire, d.readBuf[k..], Ok(d.readBuf[..k]))
            else if j < |d.written| then
              var k := Smaller(n, |d.written[j]|);
              && o.result == Ok(d.written[j][..k]) && o.readBuf == d.written[j][k..] && o.rx.nonce == j + 1
            else
              o == ReadOutcome(CipherState(d.rx.key, |d.written|), [], [], Err(EndOfStream))
    decreases |d.written| - d.rx.nonce
  {
    if d.readBuf == [] {
      if d.rx.nonce == |d.written| {
        assert d.wire == [];
        NothingToCut();
      } else {
        hide FrameBytes, Concat;
        FrameIsThere(aead, d);
        FetchKeepsStep(aead, d);
        var next := Act(aead, d, Fetch);
        hide InStep, Sound;
        var p := d.written[d.rx.nonce];
        assert next.written == d.written && next.rx.nonce == d.rx.nonce + 1 && next.readBuf == p;
        FetchShrinks(aead, d);
        ReadFindsBytes(aead, next, n);
      }
    }
  }

  lemma FrameIsThere(aead: Aead, d: Direction)
    requires Sound(aead) && InStep(aead, d) && d.rx.nonce < |d.written|
    ensures Session.CutFrame(d.wire).Some?
  {
    hide FrameBytes;
    var m := d.rx.nonce;
    var c := aead.seal(d.tx.key, m, d.written[m]);
    assert aead.open(d.tx.key, m, c) == Some(d.written[m]);
    CutOfFrame(c, Frames(aead, d.tx.key, d.written, m + 1));
  }

  lemma FetchShrinks(aead: Aead, d: Direction)
    requires d.readBuf == [] && Session.CutFrame(d.wire).Some?
    ensures var next := Act(aead, d, Fetch);
            Receive(aead, d.rx, d.wire).result.Ok? ==>
              forall n: nat :: n > 0 ==> ReadSpec(aead, d.rx, d.wire, d.readBuf, n)
                                         == ReadSpec(aead, next.rx, next.wire, next.readBuf, n)
  {
    hide FrameBytes, Session.CutFrame;
  }

  /** A read into an empty buffer does nothing. */
  lemma EmptyRead(aead: Aead, rx: CipherState, wire: ByteString, readBuf: ByteString)
    ensures ReadSpec(aead, rx, wire, readBuf, 0) == ReadOutcome(rx, wire, readBuf, Ok([]))
  {
  }

  /** k rounds of the reading loop. */
  function Fetched(aead: Aead, d: Direction, k: nat): Direction
    decreases k
  {
    if k == 0 then d else Fetched(aead, Act(aead, d, Fetch), k - 1)
  }

  predicate CanFetch(aead: Aead, d: Direction, k: nat)
    decreases k
  {
    k > 0 ==> CanAct(d, Fetch) && CanFetch(aead, Act(aead, d, Fetch), k - 1)
  }

  /** A successful call of Read is some rounds of the loop and then one delivery: the actions of the runs above. */
  lemma {:induction false} ReadIsActions(aead: Aead, d: Direction, n: nat) returns (k: nat)
    requires n > 0 && ReadSpec(aead, d.rx, d.wire, d.readBuf, n).result.Ok?
    ensures CanFetch(aead, d, k) && CanAct(Fetched(aead, d, k), Deliver(n))
    ensures var o, after := ReadSpec(aead, d.rx, d.wire, d.readBuf, n), Act(aead, Fetched(aead, d, k), Deliver(n));
            && o.rx == after.rx && o.wire == after.wire && o.readBuf == after.readBuf
            && after.delivered == d.delivered + o.result.value
            && after.tx == d.tx && after.written == d.written
    decreases |d.wire|
  {
    if d.readBuf != [] {
      k := 0;
    } else {
      var next := Act(aead, d, Fetch);
      k := ReadIsActions(aead, next, n);
      k := k + 1;
    }
  }
}
