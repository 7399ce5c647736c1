/**
  One direction of a reliable byte pipe between a writer and a reader, in single transfers.

  A write call is in progress until all its bytes are taken; `pending` is what is left of it. The
  pipe itself holds at most `capacity` bytes: none at all for a rendezvous pipe, where bytes pass
  only from a blocked write straight into a waiting read.
 */
module Pipe {
  import opened Bytes

  /** None is unbounded; Some(0) is a rendezvous. */
  type Capacity = Option<nat>

  predicate Fits(capacity: Capacity, n: nat) {
    capacity.None? || n <= capacity.value
  }

  /** What the writer has yet to hand over, what is under way, and what the reader has of its current frame. */
  datatype Flow = Flow(pending: ByteString, channel: ByteString, acc: ByteString)

  const IDLE := Flow([], [], [])

  /** Bytes move in chunks of any size: into the channel, out of it, or from write to read directly. */
  datatype Move = Push(k: nat) | Pull(k: nat) | Hand(k: nat)

  predicate CanMove(capacity: Capacity, wanted: nat, f: Flow, m: Move) {
    match m
    case Push(k) => 1 <= k <= |f.pending| && Fits(capacity, |f.channel| + k)
    case Pull(k) => 1 <= k <= |f.channel| && k <= wanted
    case Hand(k) => f.channel == [] && 1 <= k <= |f.pending| && k <= wanted
  }

  function Moved(f: Flow, m: Move): Flow
    requires m.k <= if m.Pull? then |f.channel| else |f.pending|
  {
    match m
    case Push(k) => Flow(f.pending[k..], f.channel + f.pending[..k], f.acc)
    case Pull(k) => Flow(f.pending, f.channel[k..], f.acc + f.channel[..k])
    case Hand(k) => Flow(f.pending[k..], [], f.acc + f.pending[..k])
  }

  /** All the bytes written that the reader has not turned into frames yet. */
  function Unread(f: Flow): ByteString {
    f.acc + f.channel + f.pending
  }

  function Weight(f: Flow): nat {
    |f.acc| + 2 * |f.channel| + 3 * |f.pending|
  }

  /** A transfer loses, repeats and reorders nothing, and brings the bytes closer to the reader. */
  lemma MoveKeepsBytes(capacity: Capacity, wanted: nat, f: Flow, m: Move)
    requires CanMove(capacity, wanted, f, m)
    ensures Unread(Moved(f, m)) == Unread(f)
    ensures Weight(Moved(f, m)) < Weight(f)
    ensures |f.acc| <= |Moved(f, m).acc| <= |f.acc| + wanted
    ensures |Moved(f, m).pending| <= |f.pending|
    ensures Fits(capacity, |f.channel|) ==> Fits(capacity, |Moved(f, m).channel|)
    ensures f.channel + f.pending != []
  {
  }

  /** Bytes under way and a reader that wants some can always meet, whatever the capacity. */
  lemma SomeMove(capacity: Capacity, wanted: nat, f: Flow) returns (m: Move)
    requires wanted > 0 && f.channel + f.pending != []
    ensures CanMove(capacity, wanted, f, m)
  {
    m := if f.channel != [] then Pull(1) else Hand(1);
  }
}
