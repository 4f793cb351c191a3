/**
 * The shared-memory body ring as a concurrent protocol: one producer and one consumer that
 * touch the buffer byte by byte and share only two counters. Every step below is one atomic
 * load, one byte moved, or one atomic update; a run is any sequence of enabled steps.
 */
module RingProtocol {
  import opened Bytes
  import opened Modular
  import opened RingGeometry

  /** Counters as the design thinks of them, or as 64-bit words that wrap around. */
  datatype Width = Unbounded | Wrapping

  function Plus(w: Width, a: nat, n: nat): nat {
    if w.Unbounded? then a + n else (a + n) % WORD
  }

  /** `a - b`, or `a.wrapping_sub(b)`. */
  function Minus(w: Width, a: nat, b: nat): nat {
    if w.Wrapping? then (a - b) % WORD else if b <= a then a - b else 0
  }

  /** What the producer holds in local variables. */
  datatype Producer =
    | Ready
    | HeadLoaded(h: nat)
    | Writing(h: nat, t: nat, written: seq<byte>)

  datatype Consumer =
    | Waiting
    | Reading(limit: nat, got: seq<byte>)

  datatype State = State(buf: seq<byte>, head: nat, tail: nat, prod: Producer, cons: Consumer) {
    function Capacity(): nat {
      |buf|
    }
  }

  function Init(buf: seq<byte>): State {
    State(buf, 0, 0, Ready, Waiting)
  }

  datatype Step =
    | LoadHead            // producer: head.load
    | LoadTail            // producer: tail.load, then refuse when full
    | CopyByte(b: byte)   // producer: the next byte into the next slot of the slices
    | Abandon             // producer: nothing to commit (read failed or returned nothing)
    | Commit              // producer: head.fetch_add
    | OpenRead            // consumer: head.load
    | ReadByte            // consumer: the next committed byte out of its slot
    | Release             // consumer: advance tail past the bytes read

  function Offered(w: Width, s: State): Slices
    requires s.prod.Writing? && 0 < s.Capacity()
  {
    WriteSlices(Minus(w, s.prod.h, s.prod.t), SlotOf(s.prod.h, s.Capacity()), SlotOf(s.prod.t, s.Capacity()),
                s.Capacity())
  }

  predicate Enabled(w: Width, s: State, step: Step) {
    && 0 < s.Capacity()
    && match step
       case LoadHead => s.prod.Ready?
       case LoadTail => s.prod.HeadLoaded?
       case CopyByte(_) => s.prod.Writing? && |s.prod.written| < Offered(w, s).Len()
       case Abandon => s.prod.Writing?
       case Commit => s.prod.Writing? && s.prod.written != []
       case OpenRead => s.cons.Waiting?
       case ReadByte => s.cons.Reading? && |s.cons.got| < Minus(w, s.cons.limit, s.tail)
       case Release => s.cons.Reading?
  }

  function Do(w: Width, s: State, step: Step): State
    requires Enabled(w, s, step)
  {
    match step
    case LoadHead => s.(prod := HeadLoaded(s.head))
    case LoadTail =>
      if Minus(w, s.prod.h, s.tail) >= s.Capacity() then s.(prod := Ready)
      else s.(prod := Writing(s.prod.h, s.tail, []))
    case CopyByte(b) =>
      s.(buf := s.buf[Offered(w, s).Slot(|s.prod.written|) := b],
         prod := s.prod.(written := s.prod.written + [b]))
    case Abandon => s.(prod := Ready)
    case Commit => s.(head := Plus(w, s.head, |s.prod.written|), prod := Ready)
    case OpenRead => s.(cons := Reading(s.head, []))
    case ReadByte =>
      s.(cons := s.cons.(got := s.cons.got + [s.buf[SlotOf(Plus(w, s.tail, |s.cons.got|), s.Capacity())]]))
    case Release => s.(tail := Plus(w, s.tail, |s.cons.got|), cons := Waiting)
  }

  /** The bytes a step publishes. */
  function Sent(s: State, step: Step): seq<byte> {
    if step.Commit? && s.prod.Writing? then s.prod.written else []
  }

  /** The bytes a step hands over to the consumer's owner. */
  function Received(s: State, step: Step): seq<byte> {
    if step.Release? && s.cons.Reading? then s.cons.got else []
  }

  predicate IsRun(w: Width, s: State, steps: seq<Step>)
    decreases |steps|
  {
    steps == [] || (Enabled(w, s, steps[0]) && IsRun(w, Do(w, s, steps[0]), steps[1..]))
  }

  function Final(w: Width, s: State, steps: seq<Step>): State
    requires IsRun(w, s, steps)
    decreases |steps|
  {
    if steps == [] then s else Final(w, Do(w, s, steps[0]), steps[1..])
  }

  function AllSent(w: Width, s: State, steps: seq<Step>): seq<byte>
    requires IsRun(w, s, steps)
    decreases |steps|
  {
    if steps == [] then [] else Sent(s, steps[0]) + AllSent(w, Do(w, s, steps[0]), steps[1..])
  }

  function AllReceived(w: Width, s: State, steps: seq<Step>): seq<byte>
    requires IsRun(w, s, steps)
    decreases |steps|
  {
    if steps == [] then [] else Received(s, steps[0]) + AllReceived(w, Do(w, s, steps[0]), steps[1..])
  }

  /** The queue a ring stands for: the bytes in its occupied slots, oldest first. */
  function Window(w: Width, s: State): (q: seq<byte>)
    requires 0 < s.Capacity()
    ensures |q| == Minus(w, s.head, s.tail)
  {
    seq(Minus(w, s.head, s.tail), j requires j >= 0 => s.buf[SlotOf(Plus(w, s.tail, j), s.Capacity())])
  }

  // What every step keeps, with counters that never wrap.

  ghost predicate Holds(s: State, from: nat, bytes: seq<byte>)
    requires 0 < s.Capacity()
  {
    forall j :: 0 <= j < |bytes| ==> s.buf[SlotOf(from + j, s.Capacity())] == bytes[j]
  }

  ghost predicate ProducerOk(s: State)
    requires 0 < s.Capacity()
  {
    match s.prod
    case Ready => true
    case HeadLoaded(h) => h == s.head
    case Writing(h, t, written) =>
      && h == s.head
      && t <= s.tail <= s.head < t + s.Capacity()   // the loaded tail may be stale
      && s.head + |written| <= t + s.Capacity()
      && Holds(s, s.head, written)
  }

  ghost predicate ConsumerOk(s: State)
    requires 0 < s.Capacity()
  {
    s.cons.Reading? ==> s.tail + |s.cons.got| <= s.cons.limit <= s.head && Holds(s, s.tail, s.cons.got)
  }

  ghost predicate Inv(s: State) {
    Occupancy(s.head, s.tail, s.Capacity()) && ProducerOk(s) && ConsumerOk(s)
  }

  /** No step changes a slot that still holds a byte the consumer has not released. */
  ghost predicate UnreadUntouched(s: State, s': State)
    requires 0 < s.Capacity() == s'.Capacity()
  {
    forall i :: s.tail <= i < s.head ==> s'.buf[SlotOf(i, s.Capacity())] == s.buf[SlotOf(i, s.Capacity())]
  }

  /** One byte copied: it lands in the slot of position head + k, away from everything else. */
  lemma CopyStep(s: State, b: byte)
    requires Inv(s) && Enabled(Unbounded, s, CopyByte(b))
    ensures Inv(Do(Unbounded, s, CopyByte(b)))
    ensures UnreadUntouched(s, Do(Unbounded, s, CopyByte(b)))
  {
    var c, k := s.Capacity(), |s.prod.written|;
    var s' := Do(Unbounded, s, CopyByte(b));
    SlicesInOrder(s.prod.h, s.prod.t, c);
    assert s'.buf == s.buf[SlotOf(s.head + k, c) := b];
    forall i | s.tail <= i < s.head + k
      ensures s'.buf[SlotOf(i, c)] == s.buf[SlotOf(i, c)]
    {
      DistinctSlots(i, s.head + k, c);
    }
    forall j | 0 <= j <= k
      ensures s'.buf[SlotOf(s.head + j, c)] == s'.prod.written[j]
    {
    }
  }

  lemma StepSafe(s: State, step: Step)
    requires Inv(s) && Enabled(Unbounded, s, step)
    ensures Inv(Do(Unbounded, s, step))
    ensures UnreadUntouched(s, Do(Unbounded, s, step))
    ensures Do(Unbounded, s, step).head == s.head + |Sent(s, step)|
  {
    if step.CopyByte? {
      CopyStep(s, step.b);
    }
  }

  lemma CommitExtends(s: State)
    requires Inv(s) && Enabled(Unbounded, s, Commit)
    ensures Window(Unbounded, Do(Unbounded, s, Commit)) == Window(Unbounded, s) + s.prod.written
  {
    var q, q' := Window(Unbounded, s), Window(Unbounded, Do(Unbounded, s, Commit));
    forall j | 0 <= j < |q'|
      ensures q'[j] == (q + s.prod.written)[j]
    {
      if |q| <= j {
        assert s.buf[SlotOf(s.head + (j - |q|), s.Capacity())] == s.prod.written[j - |q|];
        assert s.head + (j - |q|) == s.tail + j;
      }
    }
  }

  lemma ReleaseShortens(s: State)
    requires Inv(s) && Enabled(Unbounded, s, Release)
    ensures Window(Unbounded, s) == s.cons.got + Window(Unbounded, Do(Unbounded, s, Release))
  {
    var s' := Do(Unbounded, s, Release);
    var q, q', g := Window(Unbounded, s), Window(Unbounded, s'), s.cons.got;
    forall j | 0 <= j < |q|
      ensures q[j] == (g + q')[j]
    {
      if j < |g| {
        assert s.buf[SlotOf(s.tail + j, s.Capacity())] == g[j];
      } else {
        assert s.tail + j == s'.tail + (j - |g|);
      }
    }
  }

  lemma CopyInvisible(s: State, b: byte)
    requires Inv(s) && Enabled(Unbounded, s, CopyByte(b))
    ensures Window(Unbounded, Do(Unbounded, s, CopyByte(b))) == Window(Unbounded, s)
  {
    CopyStep(s, b);
  }

  /** Each step keeps the invariant, disturbs no unread byte and acts on the queue. */
  lemma StepKeeps(s: State, step: Step)
    requires Inv(s) && Enabled(Unbounded, s, step)
    ensures Inv(Do(Unbounded, s, step))
    ensures UnreadUntouched(s, Do(Unbounded, s, step))
    ensures Do(Unbounded, s, step).head == s.head + |Sent(s, step)|
    ensures Window(Unbounded, s) + Sent(s, step) == Received(s, step) + Window(Unbounded, Do(Unbounded, s, step))
  {
    StepSafe(s, step);
    StepMovesQueue(s, step);
  }

  lemma StepMovesQueue(s: State, step: Step)
    requires Inv(s) && Enabled(Unbounded, s, step)
    ensures 0 < Do(Unbounded, s, step).Capacity()
    ensures Window(Unbounded, s) + Sent(s, step) == Received(s, step) + Window(Unbounded, Do(Unbounded, s, step))
  {
    match step
    case Commit => CommitExtends(s);
    case Release => ReleaseShortens(s);
    case CopyByte(b) => CopyInvisible(s, b);
    case _ =>
      assert Window(Unbounded, s) == Window(Unbounded, Do(Unbounded, s, step));
  }

  /**
   * The ring is a FIFO queue under every interleaving: from any state of a run, what was in
   * the queue followed by what is sent equals what is received followed by what remains.
   */
  lemma {:induction false} RunIsFifo(s: State, steps: seq<Step>)
    requires Inv(s) && IsRun(Unbounded, s, steps)
    ensures Inv(Final(Unbounded, s, steps))
    ensures Window(Unbounded, s) + AllSent(Unbounded, s, steps) ==
            AllReceived(Unbounded, s, steps) + Window(Unbounded, Final(Unbounded, s, steps))
    ensures s.head + |AllSent(Unbounded, s, steps)| == Final(Unbounded, s, steps).head
    decreases |steps|
  {
    if steps != [] {
      var step, rest := steps[0], steps[1..];
      var s' := Do(Unbounded, s, step);
      StepKeeps(s, step);
      RunIsFifo(s', rest);
      Chain(Window(Unbounded, s), Sent(s, step), Received(s, step), Window(Unbounded, s'),
            AllSent(Unbounded, s', rest), AllReceived(Unbounded, s', rest),
            Window(Unbounded, Final(Unbounded, s', rest)));
    }
  }

  /** Two queue equations in a row make one. */
  lemma Chain<T>(q: seq<T>, sent: seq<T>, received: seq<T>, q': seq<T>, moreSent: seq<T>, moreReceived: seq<T>, q'': seq<T>)
    requires q + sent == received + q' && q' + moreSent == moreReceived + q''
    ensures q + (sent + moreSent) == (received + moreReceived) + q''
  {
    assert q + (sent + moreSent) == (q + sent) + moreSent;
    assert (received + q') + moreSent == received + (q' + moreSent);
    assert received + (moreReceived + q'') == (received + moreReceived) + q'';
  }

  /** From an empty ring, whatever its memory holds. */
  ghost predicate Conserves(w: Width, buf: seq<byte>, steps: seq<Step>)
    requires buf != [] && IsRun(w, Init(buf), steps)
  {
    && 0 < Final(w, Init(buf), steps).Capacity()
    && AllSent(w, Init(buf), steps) == AllReceived(w, Init(buf), steps) + Window(w, Final(w, Init(buf), steps))
  }

  lemma NothingLostOrInvented(buf: seq<byte>, steps: seq<Step>)
    requires buf != [] && IsRun(Unbounded, Init(buf), steps)
    ensures Conserves(Unbounded, buf, steps)
  {
    RunIsFifo(Init(buf), steps);
    assert Window(Unbounded, Init(buf)) == [];
  }

  // What the ring can always do, not only what it never does.

  /** A producer is turned away exactly when the ring it has loaded is full, and offered all the room otherwise. */
  lemma RefusedIffFull(s: State)
    requires Inv(s) && s.prod.HeadLoaded?
    ensures var s' := Do(Unbounded, s, LoadTail);
            && (s'.prod.Ready? <==> s.head - s.tail == s.Capacity())
            && (s.head - s.tail < s.Capacity() ==>
                  s'.prod.Writing? && Offered(Unbounded, s').Len() == s.Capacity() - (s.head - s.tail))
  {
    SlicesInOrder(s.head, s.tail, s.Capacity());
  }

  lemma NoSteps(w: Width, s: State)
    ensures IsRun(w, s, []) && Final(w, s, []) == s && AllSent(w, s, []) == [] && AllReceived(w, s, []) == []
  {
  }

  lemma OneStep(w: Width, s: State, step: Step, rest: seq<Step>) returns (steps: seq<Step>)
    requires Enabled(w, s, step) && IsRun(w, Do(w, s, step), rest)
    ensures IsRun(w, s, steps) && Final(w, s, steps) == Final(w, Do(w, s, step), rest)
    ensures AllSent(w, s, steps) == Sent(s, step) + AllSent(w, Do(w, s, step), rest)
    ensures AllReceived(w, s, steps) == Received(s, step) + AllReceived(w, Do(w, s, step), rest)
  {
    steps := [step] + rest;
    assert steps[1..] == rest;
  }

  /** The run sends exactly these bytes, and neither the tail nor the consumer moves. */
  ghost predicate Sends(s: State, steps: seq<Step>, bytes: seq<byte>) {
    && IsRun(Unbounded, s, steps)
    && AllSent(Unbounded, s, steps) == bytes && AllReceived(Unbounded, s, steps) == []
    && Final(Unbounded, s, steps).prod.Ready? && Final(Unbounded, s, steps).cons == s.cons
    && Final(Unbounded, s, steps).tail == s.tail
  }

  /** The rest of a write: copy, byte by byte, then commit. */
  lemma CopyAndCommit(s: State, bytes: seq<byte>) returns (steps: seq<Step>)
    requires Inv(s) && s.prod.Writing? && s.prod.written + bytes != []
    requires s.head + |s.prod.written| + |bytes| <= s.prod.t + s.Capacity()
    ensures Sends(s, steps, s.prod.written + bytes)
    decreases |bytes|
  {
    assert 0 < s.Capacity();
    hide IsRun, Final, AllSent, AllReceived, Inv;
    if bytes == [] {
      assert s.prod.written + bytes == s.prod.written;
      var s' := Do(Unbounded, s, Commit);
      NoSteps(Unbounded, s');
      steps := OneStep(Unbounded, s, Commit, []);
      assert s.prod.written + [] == s.prod.written;
    } else {
      RoomToCopy(s);
      var s' := Do(Unbounded, s, CopyByte(bytes[0]));
      CopyStep(s, bytes[0]);
      assert s'.prod.written + bytes[1..] == s.prod.written + bytes;
      steps := CopyAndCommit(s', bytes[1..]);
      steps := OneStep(Unbounded, s, CopyByte(bytes[0]), steps);
    }
  }

  lemma RoomToCopy(s: State)
    requires Inv(s) && s.prod.Writing? && s.head + |s.prod.written| < s.prod.t + s.Capacity()
    ensures |s.prod.written| < Offered(Unbounded, s).Len()
  {
    SlicesInOrder(s.prod.h, s.prod.t, s.Capacity());
  }

  /** Whatever fits can be sent, by a producer at rest and whatever the consumer is doing. */
  lemma WhatFitsCanBeSent(s: State, bytes: seq<byte>) returns (steps: seq<Step>)
    requires Inv(s) && s.prod.Ready? && |bytes| <= s.Capacity() - (s.head - s.tail)
    ensures Sends(s, steps, bytes)
  {
    if bytes == [] {
      steps := [];
    } else {
      var s1 := Do(Unbounded, s, LoadHead);
      var s2 := Do(Unbounded, s1, LoadTail);
      StepSafe(s, LoadHead);
      StepSafe(s1, LoadTail);
      RefusedIffFull(s1);
      assert s2.prod.written + bytes == bytes;
      steps := CopyAndCommit(s2, bytes);
      steps := TwoLoads(s, steps, bytes);
    }
  }

  lemma TwoLoads(s: State, rest: seq<Step>, bytes: seq<byte>) returns (steps: seq<Step>)
    requires Enabled(Unbounded, s, LoadHead)
    requires Sends(Do(Unbounded, Do(Unbounded, s, LoadHead), LoadTail), rest, bytes)
    ensures Sends(s, steps, bytes)
  {
    hide IsRun, Final, AllSent, AllReceived;
    steps := OneStep(Unbounded, Do(Unbounded, s, LoadHead), LoadTail, rest);
    steps := OneStep(Unbounded, s, LoadHead, steps);
  }

  /** The rest of a read: every byte up to the limit, then release. */
  lemma ReadAndRelease(s: State) returns (steps: seq<Step>)
    requires Inv(s) && s.cons.Reading?
    ensures IsRun(Unbounded, s, steps) && AllSent(Unbounded, s, steps) == []
    ensures var s' := Final(Unbounded, s, steps);
            s'.cons.Waiting? && s'.tail == s.cons.limit && s'.head == s.head && s'.prod == s.prod
    decreases s.cons.limit - s.tail - |s.cons.got|
  {
    hide IsRun, Final, AllSent, AllReceived;
    if s.tail + |s.cons.got| == s.cons.limit {
      NoSteps(Unbounded, Do(Unbounded, s, Release));
      steps := OneStep(Unbounded, s, Release, []);
    } else {
      StepSafe(s, ReadByte);
      steps := ReadAndRelease(Do(Unbounded, s, ReadByte));
      steps := OneStep(Unbounded, s, ReadByte, steps);
    }
  }

  /** All that is in the queue can be received, whatever the producer is doing. */
  lemma WholeWindowCanBeReceived(s: State) returns (steps: seq<Step>)
    requires Inv(s) && s.cons.Waiting?
    ensures IsRun(Unbounded, s, steps)
    ensures AllReceived(Unbounded, s, steps) == Window(Unbounded, s) && AllSent(Unbounded, s, steps) == []
    ensures Final(Unbounded, s, steps).head == Final(Unbounded, s, steps).tail == s.head
  {
    hide IsRun, Final, AllSent, AllReceived;
    StepSafe(s, OpenRead);
    steps := ReadAndRelease(Do(Unbounded, s, OpenRead));
    steps := OneStep(Unbounded, s, OpenRead, steps);
    RunIsFifo(s, steps);
    var left := Window(Unbounded, Final(Unbounded, s, steps));
    assert |left| == 0;
    assert AllReceived(Unbounded, s, steps) + left == AllReceived(Unbounded, s, steps);
    assert Window(Unbounded, s) + [] == Window(Unbounded, s);
  }

  /**
   * Over runs: wherever a run from an empty ring has led, a producer at rest can send any bytes
   * that fit, and a waiting consumer can receive exactly the bytes sent and not yet received.
   */
  lemma EveryRunCanGoOn(buf: seq<byte>, run: seq<Step>, bytes: seq<byte>) returns (send: seq<Step>, receive: seq<Step>)
    requires buf != [] && IsRun(Unbounded, Init(buf), run)
    ensures var s := Final(Unbounded, Init(buf), run);
            && (s.prod.Ready? && |bytes| <= |buf| - (s.head - s.tail) ==> Sends(s, send, bytes))
            && (s.cons.Waiting? ==>
                  && IsRun(Unbounded, s, receive)
                  && AllSent(Unbounded, Init(buf), run) ==
                     AllReceived(Unbounded, Init(buf), run) + AllReceived(Unbounded, s, receive))
  {
    var s := Final(Unbounded, Init(buf), run);
    RunIsFifo(Init(buf), run);
    NothingLostOrInvented(buf, run);
    SameCapacity(Unbounded, Init(buf), run);
    send, receive := [], [];
    if s.prod.Ready? && |bytes| <= |buf| - (s.head - s.tail) {
      send := WhatFitsCanBeSent(s, bytes);
    }
    if s.cons.Waiting? {
      receive := WholeWindowCanBeReceived(s);
    }
  }

  lemma {:induction false} SameCapacity(w: Width, s: State, steps: seq<Step>)
    requires IsRun(w, s, steps)
    ensures Final(w, s, steps).Capacity() == s.Capacity()
    decreases |steps|
  {
    if steps != [] {
      SameCapacity(w, Do(w, s, steps[0]), steps[1..]);
    }
  }
}
