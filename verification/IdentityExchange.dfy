/**
  The simultaneous exchange of identity messages (p2p/session.go, identity.go): both ends send and
  receive at the same time over a two-way pipe of any capacity. The variant that writes first and
  reads afterwards is the same machine with `concurrent` off.
 */
module IdentityExchange {
  import opened Bytes
  import opened Positional
  import opened Pipe
  import Session

  // ---- The identity frame -------------------------------------------------------------------

  const MAJOR_VERSION: Byte := 0
  const MAX_MESSAGE_SIZE := 1024

  datatype IdentityError = MessageTooLong | TooShort | UnsupportedVersion | CannotDecrypt

  /** | version (1) | length (2, little-endian) | message | */
  function EncodeIdentity(message: ByteString): Result<ByteString, IdentityError> {
    if |message| > MAX_MESSAGE_SIZE then Err(MessageTooLong)
    else Ok([MAJOR_VERSION, |message| % 256, |message| / 256] + message)
  }

  /** Bytes after the message are ignored. */
  function DecodeIdentity(frame: ByteString): Result<ByteString, IdentityError> {
    if |frame| < 3 then Err(TooShort)
    else if frame[0] > MAJOR_VERSION then Err(UnsupportedVersion)
    else
      var length := frame[1] as nat + 256 * (frame[2] as nat);
      if length > MAX_MESSAGE_SIZE then Err(MessageTooLong)
      else if length > |frame| - 3 then Err(TooShort)
      else Ok(frame[3..3 + length])
  }

  lemma IdentityRoundTrip(message: ByteString, rest: ByteString)
    requires |message| <= MAX_MESSAGE_SIZE
    ensures EncodeIdentity(message).Ok?
    ensures DecodeIdentity(EncodeIdentity(message).value + rest) == Ok(message)
  {
    var f := EncodeIdentity(message).value + rest;
    assert f[3..3 + |message|] == message;
  }

  /** Version 0, two bytes of length, the less significant first, and the message; over 1024 bytes there is no frame. */
  lemma IdentityLayout(message: ByteString)
    ensures |message| > 1024 ==> EncodeIdentity(message) == Err(MessageTooLong)
    ensures |message| <= 1024 ==>
              EncodeIdentity(message).Ok?
              && var f := EncodeIdentity(message).value;
                 && |f| == 3 + |message| && f[0] == 0 && f[1] as nat + 256 * f[2] as nat == |message|
                 && f[3..] == message
  {
  }

  /** What decodes is a frame and anything after it. */
  lemma DecodeIdentityIff(frame: ByteString, message: ByteString)
    ensures DecodeIdentity(frame) == Ok(message) <==>
              && |message| <= 1024 && |frame| >= 3 + |message|
              && EncodeIdentity(message) == Ok(frame[..3 + |message|])
  {
    if |message| <= 1024 && |frame| >= 3 + |message| {
      var f := frame[..3 + |message|];
      if EncodeIdentity(message) == Ok(f) {
        IdentityRoundTrip(message, frame[3 + |message|..]);
        assert f + frame[3 + |message|..] == frame;
      }
      if DecodeIdentity(frame) == Ok(message) {
        assert f == [frame[0], frame[1], frame[2]] + message;
      }
    }
  }

  /** All else is refused for the first of these: no header, another version, a length over 1024, too few bytes. */
  lemma WhyIdentityIsRefused(frame: ByteString)
    ensures DecodeIdentity(frame).Err? ==>
              DecodeIdentity(frame).error
              == if |frame| < 3 then TooShort
                 else if frame[0] != 0 then UnsupportedVersion
                 else if frame[1] as nat + 256 * frame[2] as nat > 1024 then MessageTooLong
                 else TooShort
  {
  }

  // ---- The machine --------------------------------------------------------------------------

  /** The two messages, the cipher states they travel under, the pipe, and which variant runs. */
  datatype Setup = Setup(aead: Session.Aead, messageA: ByteString, messageB: ByteString,
                         cipherA: Session.CipherState, cipherB: Session.CipherState,
                         capacity: Capacity, concurrent: bool)
  {
    function Flip(): Setup {
      Setup(aead, messageB, messageA, cipherB, cipherA, capacity, concurrent)
    }
  }

  /** A's sealed message. */
  function Sealed(x: Setup): ByteString {
    var frame := EncodeIdentity(x.messageA);
    x.aead.seal(x.cipherA.key, x.cipherA.nonce, if frame.Ok? then frame.value else [])
  }

  /** What A puts on the connection, in two write calls: length, then ciphertext. */
  function Frame(x: Setup): ByteString {
    Session.Be16(|Sealed(x)|) + Sealed(x)
  }

  /** A direction: the pipe and the write calls still to be made. */
  datatype Lane = Lane(flow: Flow, queue: seq<ByteString>)

  /** Where a side's main loop is: send result taken, receive result taken, returned. */
  datatype Progress = Progress(sent: bool, got: Option<Result<ByteString, IdentityError>>, returned: bool)

  /** Lane ab carries A's bytes to B, ba the other way. */
  datatype State = State(ab: Lane, ba: Lane, a: Progress, b: Progress) {
    function Flip(): State { State(ba, ab, b, a) }
  }

  function StartLane(x: Setup): Lane {
    Lane(Flow(Session.Be16(|Sealed(x)|), [], []), [Sealed(x)])
  }

  function Init(x: Setup): State {
    var idle := Progress(false, None, false);
    State(StartLane(x), StartLane(x.Flip()), idle, idle)
  }

  /** How many bytes the read in progress waits for: the length, then the payload. */
  function Missing(got: ByteString): nat {
    if |got| < 2 then 2 - |got|
    else
      var size := 2 + Value(got[..2], 256);
      if |got| < size then size - |got| else 0
  }

  /** B reads until it has a frame; in the sequential variant not before its own write is over. */
  predicate ReaderB(x: Setup, s: State) {
    s.b.got.None? && (x.concurrent || s.b.sent)
  }

  function WantsB(x: Setup, s: State): nat {
    if ReaderB(x, s) then Missing(s.ab.flow.acc) else 0
  }

  /** What B makes of a frame of A's. */
  function Interpret(x: Setup, frame: ByteString): Result<ByteString, IdentityError> {
    if |frame| < 2 then Err(TooShort)
    else
      match x.aead.open(x.cipherA.key, x.cipherA.nonce, frame[2..])
      case None => Err(CannotDecrypt)
      case Some(plaintext) => DecodeIdentity(plaintext)
  }

  /** Steps of A's sender, A's main loop and, by `TakeReceive`, of B's receiver and main loop on A's lane. */
  datatype Action = Transfer(m: Move) | WriteNext | TakeSend | TakeReceive | Return

  predicate CanActA(x: Setup, s: State, action: Action) {
    match action
    case Transfer(m) => CanMove(x.capacity, WantsB(x, s), s.ab.flow, m)
    case WriteNext => s.ab.flow.pending == [] && s.ab.queue != []
    case TakeSend => !s.a.sent && s.ab.flow.pending == [] && s.ab.queue == []
    case TakeReceive => ReaderB(x, s) && WantsB(x, s) == 0
    case Return => s.a.sent && s.a.got.Some? && !s.a.returned
  }

  function ActA(x: Setup, s: State, action: Action): State
    requires CanActA(x, s, action)
  {
    match action
    case Transfer(m) => s.(ab := s.ab.(flow := Moved(s.ab.flow, m)))
    case WriteNext => s.(ab := Lane(s.ab.flow.(pending := s.ab.queue[0]), s.ab.queue[1..]))
    case TakeSend => s.(a := s.a.(sent := true))
    case TakeReceive =>
      s.(ab := s.ab.(flow := s.ab.flow.(acc := [])), b := s.b.(got := Some(Interpret(x, s.ab.flow.acc))))
    case Return => s.(a := s.a.(returned := true))
  }

  datatype Step = Step(ofA: bool, action: Action)

  predicate Enabled(x: Setup, s: State, step: Step) {
    if step.ofA then CanActA(x, s, step.action) else CanActA(x.Flip(), s.Flip(), step.action)
  }

  function Next(x: Setup, s: State, step: Step): State
    requires Enabled(x, s, step)
  {
    if step.ofA then ActA(x, s, step.action) else ActA(x.Flip(), s.Flip(), step.action).Flip()
  }

  ghost predicate IsRun(x: Setup, states: seq<State>, steps: seq<Step>) {
    && |states| == |steps| + 1
    && states[0] == Init(x)
    && forall i :: 0 <= i < |steps| ==>
         Enabled(x, states[i], steps[i]) && states[i + 1] == Next(x, states[i], steps[i])
  }

  ghost predicate Stuck(x: Setup, s: State) {
    forall step :: !Enabled(x, s, step)
  }

  predicate Ended(s: State) {
    s.a.returned && s.b.returned
  }

  // ---- The invariant of one lane ------------------------------------------------------------

  ghost predicate WellFormed(x: Setup) {
    Session.Sound(x.aead) && |x.messageA| <= MAX_MESSAGE_SIZE && |x.messageB| <= MAX_MESSAGE_SIZE
  }

  /** Until B has A's frame, the bytes read, under way and to be written are exactly that frame. */
  ghost predicate LaneInv(x: Setup, s: State) {
    && (s.b.got.None? ==> Unread(s.ab.flow) + Concat(s.ab.queue) == Frame(x) && |s.ab.flow.acc| <= |Frame(x)|)
    && (s.ab.queue == [] || s.ab.queue == [Sealed(x)])
    && (s.b.got.Some? ==> s.ab == Lane(IDLE, []) && s.b.got == Some(Ok(x.messageA)) && (x.concurrent || s.b.sent))
    && (s.a.sent ==> s.ab.flow.pending == [] && s.ab.queue == [])
    && (s.a.returned ==> s.a.sent && s.a.got.Some?)
    && Fits(x.capacity, |s.ab.flow.channel|)
    && (!x.concurrent && !s.b.sent ==> s.ab.flow.acc == [])
  }

  ghost predicate Inv(x: Setup, s: State) {
    LaneInv(x, s) && LaneInv(x.Flip(), s.Flip())
  }

  lemma SealedSize(x: Setup)
    requires WellFormed(x)
    ensures EncodeIdentity(x.messageA).Ok?
    ensures Session.TAG_SIZE <= |Sealed(x)| <= 1043
  {
    var plain := EncodeIdentity(x.messageA).value;
    assert x.aead.open(x.cipherA.key, x.cipherA.nonce, x.aead.seal(x.cipherA.key, x.cipherA.nonce, plain)) == Some(plain);
  }

  lemma FrameLength(x: Setup)
    requires WellFormed(x)
    ensures |Frame(x)| == 2 + |Sealed(x)| && Value(Frame(x)[..2], 256) == |Sealed(x)|
  {
    SealedSize(x);
    assert Pow(256, 2) == 0x1_0000;
    hide Fixed, Value, Pow, Sealed;
    ValueOfFixed(|Sealed(x)|, 256, 2);
    assert Frame(x)[..2] == Session.Be16(|Sealed(x)|);
  }

  lemma MissingOfPrefix(x: Setup, k: nat)
    requires WellFormed(x) && k <= |Frame(x)|
    ensures Missing(Frame(x)[..k]) <= |Frame(x)| - k
    ensures Missing(Frame(x)[..k]) == 0 <==> k == |Frame(x)|
  {
    FrameLength(x);
    hide Value, Frame, Sealed;
    if k >= 2 {
      assert Frame(x)[..k][..2] == Frame(x)[..2];
    }
  }

  lemma InterpretFrame(x: Setup)
    requires WellFormed(x)
    ensures Interpret(x, Frame(x)) == Ok(x.messageA)
  {
    var plain := EncodeIdentity(x.messageA).value;
    IdentityRoundTrip(x.messageA, []);
    assert plain + [] == plain;
    assert x.aead.open(x.cipherA.key, x.cipherA.nonce, Sealed(x)) == Some(plain);
    hide EncodeIdentity, DecodeIdentity, Sealed;
    assert Frame(x)[2..] == Sealed(x);
  }

  lemma InitInv(x: Setup)
    requires WellFormed(x)
    ensures Inv(x, Init(x))
  {
    InitLane(x);
    InitLane(x.Flip());
  }

  lemma InitLane(x: Setup)
    ensures LaneInv(x, Init(x))
  {
    hide Sealed, Fixed;
    assert [Sealed(x)][1..] == [];
    assert Concat([Sealed(x)]) == Sealed(x);
  }

  lemma ConcatOne(b: ByteString)
    ensures Concat([b]) == b
  {
    assert [b][1..] == [];
  }

  /** What B has read is a beginning of A's frame. */
  lemma ReaderHasPrefix(x: Setup, s: State)
    requires WellFormed(x) && LaneInv(x, s) && s.b.got.None?
    ensures var k := |s.ab.flow.acc|;
            && s.ab.flow.acc == Frame(x)[..k]
            && k + Missing(s.ab.flow.acc) <= |Frame(x)|
            && (Missing(s.ab.flow.acc) == 0 <==> s.ab.flow.acc == Frame(x))
            && (s.ab.flow.acc == Frame(x) ==> s.ab.flow == Flow([], [], Frame(x)) && s.ab.queue == [])
  {
    SealedSize(x);
    hide Frame, Sealed, Missing, EncodeIdentity;
    var f := s.ab.flow;
    var all := Unread(f) + Concat(s.ab.queue);
    assert f.acc == all[..|f.acc|];
    ConcatOne(Sealed(x));
    MissingOfPrefix(x, |f.acc|);
    if f.acc == Frame(x) {
      assert |all| == |f.acc| + |f.channel| + |f.pending| + |Concat(s.ab.queue)|;
    }
  }

  /** A step of A's keeps the invariant of both lanes. */
  lemma ActAKeepsInv(x: Setup, s: State, action: Action)
    requires WellFormed(x) && Inv(x, s) && CanActA(x, s, action)
    ensures Inv(x, ActA(x, s, action))
  {
    match action
    case Transfer(m) =>
      hide Frame, Sealed, Missing, CanMove, Moved, Unread;
      MoveKeepsBytes(x.capacity, WantsB(x, s), s.ab.flow, m);
      TransferKeeps(x, s, m);
    case WriteNext =>
      hide Frame, Sealed, Missing;
      assert s.ab.queue[1..] == [];
      assert Concat(s.ab.queue) == s.ab.queue[0];
      assert Unread(s.ab.flow) + s.ab.queue[0] == Unread(s.ab.flow.(pending := s.ab.queue[0])) + Concat([]);
    case TakeSend =>
      hide Frame, Sealed, Missing;
    case TakeReceive =>
      ReaderHasPrefix(x, s);
      InterpretFrame(x);
      hide Frame, Sealed, Missing, Interpret;
    case Return =>
      hide Frame, Sealed, Missing;
  }

  lemma TransferKeeps(x: Setup, s: State, m: Move)
    requires WellFormed(x) && Inv(x, s) && CanMove(x.capacity, WantsB(x, s), s.ab.flow, m)
    ensures Inv(x, ActA(x, s, Transfer(m)))
  {
    hide Frame, Sealed, Missing, CanMove, Moved, Unread, Fits;
    var wanted := WantsB(x, s);
    MoveKeepsBytes(x.capacity, wanted, s.ab.flow, m);
    PendingStaysEmpty(x.capacity, wanted, s.ab.flow, m);
    if s.b.got.None? {
      ReaderHasPrefix(x, s);
    }
  }

  lemma PendingStaysEmpty(capacity: Capacity, wanted: nat, f: Flow, m: Move)
    requires CanMove(capacity, wanted, f, m)
    ensures f.pending == [] ==> Moved(f, m).pending == []
    ensures wanted == 0 ==> Moved(f, m).acc == f.acc
  {
  }

  lemma StepKeepsInv(x: Setup, s: State, step: Step)
    requires WellFormed(x) && Inv(x, s) && Enabled(x, s, step)
    ensures Inv(x, Next(x, s, step))
  {
    hide LaneInv, CanActA, ActA;
    if step.ofA {
      ActAKeepsInv(x, s, step.action);
    } else {
      ActAKeepsInv(x.Flip(), s.Flip(), step.action);
    }
  }

  // ---- Every step makes progress ------------------------------------------------------------

  ghost function LaneMeasure(lane: Lane): nat {
    Weight(lane.flow) + 4 * |Concat(lane.queue)|
  }

  ghost function StepsLeft(p: Progress): nat {
    (if p.sent then 0 else 1) + (if p.got.Some? then 0 else 1) + (if p.returned then 0 else 1)
  }

  ghost function Measure(s: State): nat {
    LaneMeasure(s.ab) + LaneMeasure(s.ba) + StepsLeft(s.a) + StepsLeft(s.b)
  }

  lemma ActADecreases(x: Setup, s: State, action: Action)
    requires WellFormed(x) && Inv(x, s) && CanActA(x, s, action)
    ensures Measure(ActA(x, s, action)) < Measure(s)
  {
    SealedSize(x);
    hide Frame, Sealed, Missing, Interpret;
    match action
    case Transfer(m) =>
      MoveKeepsBytes(x.capacity, WantsB(x, s), s.ab.flow, m);
      hide CanMove, Moved, Weight;
    case WriteNext =>
      ConcatOne(Sealed(x));
      assert s.ab.queue[1..] == [];
    case TakeSend =>
    case TakeReceive =>
    case Return =>
  }

  lemma StepDecreases(x: Setup, s: State, step: Step)
    requires WellFormed(x) && Inv(x, s) && Enabled(x, s, step)
    ensures Measure(Next(x, s, step)) < Measure(s)
  {
    hide CanActA, ActA, LaneInv, LaneMeasure;
    if step.ofA {
      ActADecreases(x, s, step.action);
    } else {
      ActADecreases(x.Flip(), s.Flip(), step.action);
    }
  }

  // ---- When some step can be taken ----------------------------------------------------------

  /** A's whole frame fits into the pipe at once. */
  predicate FitsWhole(x: Setup) {
    Fits(x.capacity, |Frame(x)|)
  }

  /** While A is sending it can go on if B reads, or if the pipe takes the whole frame. */
  lemma SenderMoves(x: Setup, s: State) returns (action: Action)
    requires WellFormed(x) && LaneInv(x, s) && !s.a.sent
    requires ReaderB(x, s) || s.b.got.Some? || FitsWhole(x)
    ensures CanActA(x, s, action)
  {
    hide Frame, Sealed, Missing;
    if s.ab.flow.pending == [] {
      action := if s.ab.queue == [] then TakeSend else WriteNext;
    } else if ReaderB(x, s) {
      ReaderHasPrefix(x, s);
      var m := SomeMove(x.capacity, WantsB(x, s), s.ab.flow);
      action := Transfer(m);
    } else {
      action := Transfer(Push(1));
    }
  }

  /** While B reads, either it has the frame or more of it can come. */
  lemma ReaderMoves(x: Setup, s: State) returns (action: Action)
    requires WellFormed(x) && LaneInv(x, s) && ReaderB(x, s)
    ensures CanActA(x, s, action)
  {
    ReaderHasPrefix(x, s);
    hide Frame, Sealed, Missing;
    if WantsB(x, s) == 0 {
      action := TakeReceive;
    } else if s.ab.flow.channel + s.ab.flow.pending != [] {
      var m := SomeMove(x.capacity, WantsB(x, s), s.ab.flow);
      action := Transfer(m);
    } else {
      assert Unread(s.ab.flow) == s.ab.flow.acc + (s.ab.flow.channel + s.ab.flow.pending);
      assert Unread(s.ab.flow) + [] == Unread(s.ab.flow) == s.ab.flow.acc;
      action := WriteNext;
    }
  }

  /** The exchange cannot get stuck if both halves run concurrently, or if one of the frames fits into the pipe. */
  predicate Unblocked(x: Setup) {
    x.concurrent || FitsWhole(x) || FitsWhole(x.Flip())
  }

  lemma NoDeadlockOf(x: Setup, s: State) returns (step: Step)
    requires WellFormed(x) && WellFormed(x.Flip()) && Inv(x, s) && !Ended(s)
    requires x.concurrent || FitsWhole(x)
    ensures Enabled(x, s, step)
  {
    hide Frame, Sealed, Missing, LaneInv, CanActA;
    var fx, fs := x.Flip(), s.Flip();
    if !s.a.sent {
      var action := SenderMoves(x, s);
      return Step(true, action);
    } else if s.a.got.None? {
      var action := ReaderMoves(fx, fs);
      return Step(false, action);
    } else if !s.a.returned {
      ReturnIsPossible(x, s);
      return Step(true, Return);
    } else if !s.b.sent {
      var action := SenderMoves(fx, fs);
      return Step(false, action);
    } else if s.b.got.None? {
      var action := ReaderMoves(x, s);
      return Step(true, action);
    } else {
      ReturnIsPossible(fx, fs);
      return Step(false, Return);
    }
  }

  lemma ReturnIsPossible(x: Setup, s: State)
    requires s.a.sent && s.a.got.Some? && !s.a.returned
    ensures CanActA(x, s, Return)
  {
  }

  lemma NoDeadlock(x: Setup, s: State) returns (step: Step)
    requires WellFormed(x) && Inv(x, s) && !Ended(s) && Unblocked(x)
    ensures Enabled(x, s, step)
  {
    hide Frame, Sealed, LaneInv, CanActA;
    if x.concurrent || FitsWhole(x) {
      step := NoDeadlockOf(x, s);
    } else {
      step := NoDeadlockOf(x.Flip(), s.Flip());
      step := Step(!step.ofA, step.action);
    }
  }

  // ---- Whole runs ---------------------------------------------------------------------------

  lemma {:induction false} RunKeepsInv(x: Setup, states: seq<State>, steps: seq<Step>, i: nat)
    requires WellFormed(x) && IsRun(x, states, steps) && i < |states|
    ensures Inv(x, states[i])
  {
    hide Inv, Next, Enabled, Init, WellFormed;
    if i == 0 {
      InitInv(x);
    } else {
      RunKeepsInv(x, states, steps, i - 1);
      StepKeepsInv(x, states[i - 1], steps[i - 1]);
    }
  }

  /** No run goes on for ever. */
  lemma {:induction false} RunsAreBounded(x: Setup, states: seq<State>, steps: seq<Step>, i: nat)
    requires WellFormed(x) && IsRun(x, states, steps) && i < |states|
    ensures Measure(states[i]) + i <= Measure(Init(x))
  {
    hide Inv, Next, Enabled, Init, WellFormed, Measure;
    if i > 0 {
      RunsAreBounded(x, states, steps, i - 1);
      RunKeepsInv(x, states, steps, i - 1);
      StepDecreases(x, states[i - 1], steps[i - 1]);
    }
  }

  /**
    Every maximal run of the concurrent exchange, over a pipe of any capacity including none, ends
    with each side returned and holding exactly the other's message. So does every maximal run of
    the sequential variant whose pipe takes one of the frames whole.
   */
  lemma MaximalRunsExchange(x: Setup, states: seq<State>, steps: seq<Step>)
    requires WellFormed(x) && IsRun(x, states, steps) && Unblocked(x)
    requires Stuck(x, states[|steps|])
    ensures var s := states[|steps|];
            && s.a == Progress(true, Some(Ok(x.messageB)), true)
            && s.b == Progress(true, Some(Ok(x.messageA)), true)
            && s.ab == Lane(IDLE, []) && s.ba == Lane(IDLE, [])
  {
    var s := states[|steps|];
    RunKeepsInv(x, states, steps, |steps|);
    hide IsRun, Frame, Sealed, Missing, CanActA;
    if !Ended(s) {
      var step := NoDeadlock(x, s);
    }
  }

  /** Before its write is over a side of the sequential variant reads nothing, so neither can finish if no frame fits. */
  ghost predicate Blocked(x: Setup, s: State) {
    !s.a.sent && !s.b.sent && s.a.got.None? && s.b.got.None? && !s.a.returned && !s.b.returned
  }

  lemma SenderIsBlocked(x: Setup, s: State, action: Action)
    requires WellFormed(x) && LaneInv(x, s) && Blocked(x, s) && CanActA(x, s, action)
    requires !x.concurrent && !FitsWhole(x)
    ensures Blocked(x, ActA(x, s, action))
  {
    hide Frame, Sealed, Missing, Interpret;
    var f := s.ab.flow;
    assert |Frame(x)| == |f.acc| + |f.channel| + |f.pending| + |Concat(s.ab.queue)|;
  }

  /** Otherwise no run of the sequential variant ever gets either side to return: each maximal one is a deadlock. */
  lemma {:induction false} SequentialRunsDeadlock(x: Setup, states: seq<State>, steps: seq<Step>, i: nat)
    requires WellFormed(x) && IsRun(x, states, steps) && !Unblocked(x) && i < |states|
    ensures Blocked(x, states[i])
  {
    hide LaneInv, CanActA, ActA, FitsWhole;
    if i > 0 {
      SequentialRunsDeadlock(x, states, steps, i - 1);
      RunKeepsInv(x, states, steps, i - 1);
      var s, step := states[i - 1], steps[i - 1];
      if step.ofA {
        SenderIsBlocked(x, s, step.action);
      } else {
        SenderIsBlocked(x.Flip(), s.Flip(), step.action);
      }
    }
  }

  /** Any run can be prolonged to a maximal one. */
  lemma {:induction false} CanBeFinished(x: Setup, states: seq<State>, steps: seq<Step>)
    returns (states': seq<State>, steps': seq<Step>)
    requires WellFormed(x) && IsRun(x, states, steps)
    ensures IsRun(x, states', steps') && states <= states' && Stuck(x, states'[|steps'|])
    decreases Measure(states[|steps|])
  {
    hide WellFormed, Inv, Init, Enabled, Next, Measure;
    var s := states[|steps|];
    if Stuck(x, s) {
      states', steps' := states, steps;
    } else {
      var step :| Enabled(x, s, step);
      RunKeepsInv(x, states, steps, |steps|);
      StepDecreases(x, s, step);
      states', steps' := CanBeFinished(x, states + [Next(x, s, step)], steps + [step]);
    }
  }

  /** So if neither frame fits, the sequential variant always has a run into a state that is stuck with no message taken. */
  lemma DeadlockIsReached(x: Setup) returns (states: seq<State>, steps: seq<Step>)
    requires WellFormed(x) && !Unblocked(x)
    ensures IsRun(x, states, steps) && Stuck(x, states[|steps|])
    ensures var s := states[|steps|];
            s.a.got.None? && s.b.got.None? && !s.a.returned && !s.b.returned
  {
    hide WellFormed, Init, Enabled, Next, Unblocked;
    states, steps := CanBeFinished(x, [Init(x)], []);
    SequentialRunsDeadlock(x, states, steps, |steps|);
  }
}
