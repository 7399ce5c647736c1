/**
  The responder's accept loops and the one WaitGroup they share (p2p/responder.go), as a state
  machine over the atomic steps of all its goroutines, in any interleaving.
 */
module Responder {
  import opened Bytes

  // ---- Sums over all goroutines of a kind ---------------------------------------------------

  function Total<T>(weight: T -> nat, s: seq<T>): nat {
    if s == [] then 0 else weight(s[0]) + Total(weight, s[1..])
  }

  lemma {:induction false} TotalUpdate<T>(weight: T -> nat, s: seq<T>, i: nat, x: T)
    requires i < |s|
    ensures Total(weight, s[i := x]) + weight(s[i]) == Total(weight, s) + weight(x)
    ensures Total(weight, s) >= weight(s[i])
  {
    if i == 0 {
      assert s[i := x][1..] == s[1..];
    } else {
      assert s[i := x][1..] == s[1..][i - 1 := x];
      TotalUpdate(weight, s[1..], i - 1, x);
    }
  }

  lemma {:induction false} TotalSnoc<T>(weight: T -> nat, s: seq<T>, x: T)
    ensures Total(weight, s + [x]) == Total(weight, s) + weight(x)
  {
    if s == [] {
      assert (s + [x])[1..] == [];
    } else {
      assert (s + [x])[1..] == s[1..] + [x];
      TotalSnoc(weight, s[1..], x);
    }
  }

  lemma {:induction false} TotalZero<T>(weight: T -> nat, s: seq<T>)
    ensures Total(weight, s) == 0 <==> (forall i :: 0 <= i < |s| ==> weight(s[i]) == 0)
  {
    if s != [] {
      TotalZero(weight, s[1..]);
      forall i | 0 <= i < |s| - 1
        ensures s[1..][i] == s[i + 1]
      {
      }
      if forall i :: 0 <= i < |s| ==> weight(s[i]) == 0 {
        assert weight(s[0]) == 0;
      }
      assert forall i :: 0 < i < |s| ==> s[i] == s[1..][i - 1];
    }
  }

  // ---- The goroutines -----------------------------------------------------------------------

  /** Serve: between accepting a connection and its goroutine lie Add and the spawn. */
  datatype Main = Accepting | Accepted | Registered | Waiting | Returned

  /** A connection: set-up, the identity callback, the substream loop, and the deferred Done at the end. */
  datatype Conn = SettingUp | Identified | Looping | GotStream | StreamRegistered | ConnLeaving | ConnGone

  /** A substream: serving, then the deferred Done. */
  datatype Sub = Serving | SubLeaving | SubGone

  datatype State = State(main: Main, conns: seq<Conn>, subs: seq<Sub>, counter: int)

  const INIT := State(Accepting, [], [], 0)

  datatype Step =
    | Accept | AcceptFails | AddConn | SpawnConn | WaitDone
    | Identify(i: nat) | StartLoop(i: nat) | SetUpFails(i: nat)
    | AcceptStream(i: nat) | SessionEnds(i: nat) | AddStream(i: nat) | SpawnStream(i: nat) | ConnDone(i: nat)
    | Served(j: nat) | StreamDone(j: nat)

  predicate ConnAt(s: State, i: nat, phase: Conn) {
    i < |s.conns| && s.conns[i] == phase
  }

  predicate SubAt(s: State, j: nat, phase: Sub) {
    j < |s.subs| && s.subs[j] == phase
  }

  predicate Enabled(s: State, step: Step) {
    match step
    case Accept => s.main == Accepting
    case AcceptFails => s.main == Accepting
    case AddConn => s.main == Accepted
    case SpawnConn => s.main == Registered
    case WaitDone => s.main == Waiting && s.counter == 0
    case Identify(i) => ConnAt(s, i, SettingUp)
    case StartLoop(i) => ConnAt(s, i, Identified)
    case SetUpFails(i) => ConnAt(s, i, SettingUp) || ConnAt(s, i, Identified)
    case AcceptStream(i) => ConnAt(s, i, Looping)
    case SessionEnds(i) => ConnAt(s, i, Looping)
    case AddStream(i) => ConnAt(s, i, GotStream)
    case SpawnStream(i) => ConnAt(s, i, StreamRegistered)
    case ConnDone(i) => ConnAt(s, i, ConnLeaving)
    case Served(j) => SubAt(s, j, Serving)
    case StreamDone(j) => SubAt(s, j, SubLeaving)
  }

  function Next(s: State, step: Step): State
    requires Enabled(s, step)
  {
    match step
    case Accept => s.(main := Accepted)
    case AcceptFails => s.(main := Waiting)
    case AddConn => s.(main := Registered, counter := s.counter + 1)
    case SpawnConn => s.(main := Accepting, conns := s.conns + [SettingUp])
    case WaitDone => s.(main := Returned)
    case Identify(i) => s.(conns := s.conns[i := Identified])
    case StartLoop(i) => s.(conns := s.conns[i := Looping])
    case SetUpFails(i) => s.(conns := s.conns[i := ConnLeaving])
    case AcceptStream(i) => s.(conns := s.conns[i := GotStream])
    case SessionEnds(i) => s.(conns := s.conns[i := ConnLeaving])
    case AddStream(i) => s.(conns := s.conns[i := StreamRegistered], counter := s.counter + 1)
    case SpawnStream(i) => s.(conns := s.conns[i := Looping], subs := s.subs + [Serving])
    case ConnDone(i) => s.(conns := s.conns[i := ConnGone], counter := s.counter - 1)
    case Served(j) => s.(subs := s.subs[j := SubLeaving])
    case StreamDone(j) => s.(subs := s.subs[j := SubGone], counter := s.counter - 1)
  }

  predicate IsRun(s: State, steps: seq<Step>)
    decreases |steps|
  {
    steps == [] || (Enabled(s, steps[0]) && IsRun(Next(s, steps[0]), steps[1..]))
  }

  function After(s: State, steps: seq<Step>): State
    requires IsRun(s, steps)
    decreases |steps|
  {
    if steps == [] then s else After(Next(s, steps[0]), steps[1..])
  }

  // ---- The counter --------------------------------------------------------------------------

  /** Goroutines a connection accounts for: itself until its Done, and a substream about to start. */
  function ConnUnits(c: Conn): nat {
    match c
    case ConnGone => 0
    case StreamRegistered => 2
    case _ => 1
  }

  function SubUnits(s: Sub): nat {
    if s == SubGone then 0 else 1
  }

  /** Live goroutines, and those registered that are about to start. */
  function Live(s: State): nat {
    (if s.main == Registered then 1 else 0) + Total(ConnUnits, s.conns) + Total(SubUnits, s.subs)
  }

  predicate Inv(s: State) {
    s.counter == Live(s) && (s.main == Returned ==> Live(s) == 0)
  }

  predicate AllGone(s: State) {
    && (forall i :: 0 <= i < |s.conns| ==> s.conns[i] == ConnGone)
    && (forall j :: 0 <= j < |s.subs| ==> s.subs[j] == SubGone)
  }

  lemma LiveMeans(s: State)
    ensures Live(s) == 0 <==> s.main != Registered && AllGone(s)
    ensures forall i :: 0 <= i < |s.conns| && s.conns[i] != ConnGone ==> Live(s) > 0
    ensures forall j :: 0 <= j < |s.subs| && s.subs[j] != SubGone ==> Live(s) > 0
  {
    TotalZero(ConnUnits, s.conns);
    TotalZero(SubUnits, s.subs);
  }

  /** The connection whose phase a step changes. */
  function ConnOf(step: Step): (i: Option<nat>) {
    match step
    case Identify(i) => Some(i)
    case StartLoop(i) => Some(i)
    case SetUpFails(i) => Some(i)
    case AcceptStream(i) => Some(i)
    case SessionEnds(i) => Some(i)
    case AddStream(i) => Some(i)
    case SpawnStream(i) => Some(i)
    case ConnDone(i) => Some(i)
    case _ => None
  }

  function SubOf(step: Step): Option<nat> {
    match step
    case Served(j) => Some(j)
    case StreamDone(j) => Some(j)
    case _ => None
  }

  function WeightAt<T>(weight: T -> nat, s: seq<T>, i: Option<nat>): nat {
    if i.Some? && i.value < |s| then weight(s[i.value]) else 0
  }

  /** What one step does to the sums over all goroutines, for any weights. */
  lemma TotalsAfter(conn: Conn -> nat, sub: Sub -> nat, s: State, step: Step)
    requires Enabled(s, step)
    ensures var t := Next(s, step);
            Total(conn, t.conns) + WeightAt(conn, s.conns, ConnOf(step))
            == Total(conn, s.conns) + WeightAt(conn, t.conns, ConnOf(step))
               + (if step.SpawnConn? then conn(SettingUp) else 0)
    ensures var t := Next(s, step);
            Total(sub, t.subs) + WeightAt(sub, s.subs, SubOf(step))
            == Total(sub, s.subs) + WeightAt(sub, t.subs, SubOf(step))
               + (if step.SpawnStream? then sub(Serving) else 0)
  {
    hide Total;
    var t := Next(s, step);
    TotalSnoc(conn, s.conns, SettingUp);
    TotalSnoc(sub, s.subs, Serving);
    if ConnOf(step).Some? {
      var i := ConnOf(step).value;
      TotalUpdate(conn, s.conns, i, t.conns[i]);
    } else if SubOf(step).Some? {
      var j := SubOf(step).value;
      TotalUpdate(sub, s.subs, j, t.subs[j]);
    }
  }

  lemma StepKeepsInv(s: State, step: Step)
    requires Inv(s) && Enabled(s, step)
    ensures Inv(Next(s, step)) && s.main != Returned
  {
    hide Total;
    LiveMeans(s);
    TotalsAfter(ConnUnits, SubUnits, s, step);
  }

  lemma {:induction false} RunKeepsInv(s: State, steps: seq<Step>)
    requires Inv(s) && IsRun(s, steps)
    ensures Inv(After(s, steps))
    decreases |steps|
  {
    if steps != [] {
      StepKeepsInv(s, steps[0]);
      RunKeepsInv(Next(s, steps[0]), steps[1..]);
    }
  }

  /** In every interleaving the counter is the number of goroutines that are live or about to start. */
  lemma CounterCountsGoroutines(steps: seq<Step>)
    requires IsRun(INIT, steps)
    ensures After(INIT, steps).counter == Live(After(INIT, steps))
  {
    RunKeepsInv(INIT, steps);
  }

  /**
    The WaitGroup is used as its contract asks: it never goes below zero, an Add that finds it at
    zero comes from Serve itself before it waits, and a substream's Add always finds it positive.
   */
  lemma WaitGroupDiscipline(steps: seq<Step>, step: Step)
    requires IsRun(INIT, steps) && Enabled(After(INIT, steps), step)
    ensures Next(After(INIT, steps), step).counter >= 0
    ensures step.AddStream? ==> After(INIT, steps).counter > 0
    ensures step.AddConn? ==> After(INIT, steps).main !in {Waiting, Returned}
  {
    hide IsRun, After;
    RunKeepsInv(INIT, steps);
    var s := After(INIT, steps);
    StepKeepsInv(s, step);
    LiveMeans(s);
  }

  /** Once Serve has returned nothing is live, and no step of anything can follow. */
  lemma NothingAfterReturn(steps: seq<Step>, step: Step)
    requires IsRun(INIT, steps) && After(INIT, steps).main == Returned
    ensures AllGone(After(INIT, steps)) && !Enabled(After(INIT, steps), step)
  {
    hide IsRun, After, Enabled;
    RunKeepsInv(INIT, steps);
    var s := After(INIT, steps);
    LiveMeans(s);
    if Enabled(s, step) {
      StepKeepsInv(s, step);
    }
  }

  // ---- Serve does return --------------------------------------------------------------------

  function MainWork(m: Main): nat {
    match m
    case Returned => 0
    case Waiting => 1
    case Accepting => 2
    case Registered => 7
    case Accepted => 8
  }

  function ConnWork(c: Conn): nat {
    match c
    case ConnGone => 0
    case ConnLeaving => 1
    case Looping => 2
    case Identified => 3
    case SettingUp => 4
    case StreamRegistered => 5
    case GotStream => 6
  }

  function SubWork(s: Sub): nat {
    match s
    case SubGone => 0
    case SubLeaving => 1
    case Serving => 2
  }

  function Work(s: State): nat {
    MainWork(s.main) + Total(ConnWork, s.conns) + Total(SubWork, s.subs)
  }

  predicate IsAccept(step: Step) {
    step.Accept? || step.AcceptStream?
  }

  /** Every step but an accept brings all the goroutines closer to their ends; an accept adds a fixed amount. */
  lemma StepTakesWork(s: State, step: Step)
    requires Enabled(s, step)
    ensures Work(Next(s, step)) + 1 <= Work(s) + (if IsAccept(step) then 7 else 0)
  {
    hide Total;
    TotalsAfter(ConnWork, SubWork, s, step);
  }

  function Accepts(steps: seq<Step>): nat {
    ConnAccepts(steps) + StreamAccepts(steps)
  }

  lemma {:induction false} RunTakesWork(s: State, steps: seq<Step>)
    requires IsRun(s, steps)
    ensures |steps| + Work(After(s, steps)) <= Work(s) + 7 * Accepts(steps)
    decreases |steps|
  {
    if steps != [] {
      StepTakesWork(s, steps[0]);
      RunTakesWork(Next(s, steps[0]), steps[1..]);
    }
  }

  /** Until Serve has returned there is always a step: it never waits for a Done that will not come. */
  lemma SomeStep(s: State) returns (step: Step)
    requires Inv(s) && s.main != Returned
    ensures Enabled(s, step) && !IsAccept(step)
  {
    LiveMeans(s);
    if exists i :: 0 <= i < |s.conns| && s.conns[i] != ConnGone {
      var i: nat :| i < |s.conns| && s.conns[i] != ConnGone;
      match s.conns[i] {
        case SettingUp => step := Identify(i);
        case Identified => step := StartLoop(i);
        case Looping => step := SessionEnds(i);
        case GotStream => step := AddStream(i);
        case StreamRegistered => step := SpawnStream(i);
        case ConnLeaving => step := ConnDone(i);
      }
    } else if exists j :: 0 <= j < |s.subs| && s.subs[j] != SubGone {
      var j: nat :| j < |s.subs| && s.subs[j] != SubGone;
      step := if s.subs[j] == Serving then Served(j) else StreamDone(j);
    } else {
      match s.main {
        case Accepting => step := AcceptFails;
        case Accepted => step := AddConn;
        case Registered => step := SpawnConn;
        case Waiting => step := WaitDone;
      }
    }
  }

  /**
    A run with n accepts has at most 2 + 7n steps, and one that cannot go on has ended with Serve
    returned and every goroutine gone.
   */
  lemma RunsEndWithReturn(steps: seq<Step>)
    requires IsRun(INIT, steps)
    ensures |steps| <= 2 + 7 * Accepts(steps)
    ensures (forall step :: !Enabled(After(INIT, steps), step)) <==> After(INIT, steps).main == Returned
    ensures After(INIT, steps).main == Returned ==> AllGone(After(INIT, steps))
  {
    RunTakesWork(INIT, steps);
    RunKeepsInv(INIT, steps);
    hide IsRun, After;
    var s := After(INIT, steps);
    if s.main == Returned {
      forall step
        ensures !Enabled(s, step)
      {
        NothingAfterReturn(steps, step);
      }
      LiveMeans(s);
    } else {
      var step := SomeStep(s);
    }
  }

  // ---- Nothing accepted is lost -------------------------------------------------------------

  function ConnAccepts(steps: seq<Step>): nat {
    if steps == [] then 0 else (if steps[0].Accept? then 1 else 0) + ConnAccepts(steps[1..])
  }

  function StreamAccepts(steps: seq<Step>): nat {
    if steps == [] then 0 else (if steps[0].AcceptStream? then 1 else 0) + StreamAccepts(steps[1..])
  }

  /** Connections given a goroutine, and the one Serve has in hand. */
  function ConnsTaken(s: State): nat {
    |s.conns| + if s.main == Accepted || s.main == Registered then 1 else 0
  }

  function StreamInHand(c: Conn): nat {
    if c == GotStream || c == StreamRegistered then 1 else 0
  }

  function StreamsTaken(s: State): nat {
    |s.subs| + Total(StreamInHand, s.conns)
  }

  lemma StepTakesAccepted(s: State, step: Step)
    requires Enabled(s, step)
    ensures ConnsTaken(Next(s, step)) == ConnsTaken(s) + (if step.Accept? then 1 else 0)
    ensures StreamsTaken(Next(s, step)) == StreamsTaken(s) + (if step.AcceptStream? then 1 else 0)
  {
    hide Total;
    TotalsAfter(StreamInHand, SubUnits, s, step);
  }

  lemma {:induction false} RunTakesAccepted(s: State, steps: seq<Step>)
    requires IsRun(s, steps)
    ensures ConnsTaken(After(s, steps)) == ConnsTaken(s) + ConnAccepts(steps)
    ensures StreamsTaken(After(s, steps)) == StreamsTaken(s) + StreamAccepts(steps)
    decreases |steps|
  {
    if steps != [] {
      StepTakesAccepted(s, steps[0]);
      RunTakesAccepted(Next(s, steps[0]), steps[1..]);
    }
  }

  /** By the time Serve returns, every connection and substream accepted had its goroutine, and it has finished. */
  lemma EveryAcceptIsHandled(steps: seq<Step>)
    requires IsRun(INIT, steps) && After(INIT, steps).main == Returned
    ensures AllGone(After(INIT, steps))
    ensures |After(INIT, steps).conns| == ConnAccepts(steps)
    ensures |After(INIT, steps).subs| == StreamAccepts(steps)
  {
    RunTakesAccepted(INIT, steps);
    RunKeepsInv(INIT, steps);
    hide IsRun, After;
    LiveMeans(After(INIT, steps));
    TotalZero(StreamInHand, After(INIT, steps).conns);
  }

  // ---- In what order a connection goes on ---------------------------------------------------

  /** A connection that is past the identity callback has had it, and one in its loop has then entered it. */
  ghost predicate Ordered(steps: seq<Step>, conns: seq<Conn>) {
    forall i: nat :: i < |conns| && conns[i] !in {SettingUp, ConnLeaving, ConnGone} ==>
      && Identify(i) in steps
      && (conns[i] != Identified ==> HappensAfter(steps, Identify(i), StartLoop(i)))
  }

  ghost predicate HappensAfter(steps: seq<Step>, a: Step, b: Step) {
    exists j, k :: 0 <= j < k < |steps| && steps[j] == a && steps[k] == b
  }

  lemma HappensStill(steps: seq<Step>, step: Step, a: Step, b: Step)
    ensures HappensAfter(steps, a, b) ==> HappensAfter(steps + [step], a, b)
    ensures a in steps ==> a in steps + [step] && HappensAfter(steps + [step], a, step)
    ensures step in steps + [step]
  {
    var all := steps + [step];
    assert all[|steps|] == step;
    if HappensAfter(steps, a, b) {
      var j, k :| 0 <= j < k < |steps| && steps[j] == a && steps[k] == b;
      assert all[j] == a && all[k] == b;
    }
    if a in steps {
      var j :| 0 <= j < |steps| && steps[j] == a;
      assert all[j] == a;
    }
  }

  lemma {:induction false} AfterSnoc(s: State, steps: seq<Step>, step: Step)
    requires IsRun(s, steps + [step])
    ensures IsRun(s, steps) && Enabled(After(s, steps), step)
    ensures After(s, steps + [step]) == Next(After(s, steps), step)
    decreases |steps|
  {
    var all := steps + [step];
    if steps != [] {
      assert all[0] == steps[0] && all[1..] == steps[1..] + [step];
      AfterSnoc(Next(s, steps[0]), steps[1..], step);
    } else {
      assert all[1..] == [];
    }
  }

  lemma {:induction false} RunIsOrdered(steps: seq<Step>)
    requires IsRun(INIT, steps)
    ensures Ordered(steps, After(INIT, steps).conns)
    decreases |steps|
  {
    if steps != [] {
      var n := |steps| - 1;
      var front, step := steps[..n], steps[n];
      assert steps == front + [step];
      AfterSnoc(INIT, front, step);
      RunIsOrdered(front);
      hide IsRun, After;
      var s := After(INIT, front);
      forall i: nat | i < |Next(s, step).conns| && Next(s, step).conns[i] !in {SettingUp, ConnLeaving, ConnGone}
        ensures Identify(i) in steps
        ensures Next(s, step).conns[i] != Identified ==> HappensAfter(steps, Identify(i), StartLoop(i))
      {
        HappensStill(front, step, Identify(i), StartLoop(i));
      }
    }
  }

  /** No substream is accepted on a connection before its handshake and the identity callback are over. */
  lemma StreamsComeAfterIdentity(steps: seq<Step>, i: nat)
    requires IsRun(INIT, steps) && Enabled(After(INIT, steps), AcceptStream(i))
    ensures HappensAfter(steps, Identify(i), StartLoop(i))
  {
    hide IsRun, After;
    RunIsOrdered(steps);
  }
}
