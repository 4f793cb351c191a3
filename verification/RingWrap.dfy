/**
 * The ring with the counters it really has: 64-bit words whose additions and subtractions
 * wrap. It behaves like the unbounded ring on every run exactly when the capacity divides 2^64.
 */
module RingWrap {
  import opened Modular
  import opened RingGeometry
  import opened Bytes
  import opened RingProtocol

  /** The words that stand for the counters of an unbounded ring. */
  function Wrap(u: State): State {
    u.(head := u.head % WORD, tail := u.tail % WORD,
       prod := match u.prod
               case Ready => Ready
               case HeadLoaded(h) => HeadLoaded(h % WORD)
               case Writing(h, t, written) => Writing(h % WORD, t % WORD, written),
       cons := match u.cons
               case Waiting => Waiting
               case Reading(limit, got) => Reading(limit % WORD, got))
  }

  /** Word indices still name the right slots. */
  ghost predicate Aligned(capacity: nat, head: nat) {
    0 < capacity < WORD && (WORD % capacity == 0 || head < WORD)
  }

  lemma WordDifference(a: nat, b: nat)
    requires b <= a < b + WORD
    ensures Minus(Wrapping, a % WORD, b % WORD) == a - b
  {
    var d := a / WORD - b / WORD;
    assert a % WORD - b % WORD == -d * WORD + (a - b);
    DivModUnique(a % WORD - b % WORD, WORD, -d, a - b);
  }

  lemma WordSum(a: nat, n: nat)
    ensures Plus(Wrapping, a % WORD, n) == (a + n) % WORD
  {
    var r := a % WORD + n;
    assert a + n == (a / WORD + r / WORD) * WORD + r % WORD;
    DivModUnique(a + n, WORD, a / WORD + r / WORD, r % WORD);
  }

  lemma WordSlot(i: nat, capacity: nat)
    requires Aligned(capacity, i)
    ensures SlotOf(i % WORD, capacity) == SlotOf(i, capacity)
  {
    if WORD % capacity == 0 {
      ReduceFirst(i, WORD, capacity);
    }
  }

  /** Word by word, an index is right exactly when the laps lost in wrapping are whole ones. */
  lemma WordSlotIff(i: nat, capacity: nat)
    requires 0 < capacity
    ensures SlotOf(i % WORD, capacity) == SlotOf(i, capacity) <==> (i / WORD * WORD) % capacity == 0
  {
    var lost, r := i / WORD * WORD, i % WORD;
    assert i == lost + r;
    var ql, qr, x := lost / capacity, r / capacity, lost % capacity + r % capacity;
    assert i == (ql + qr) * capacity + x by {
      MulDistrib(ql, qr, capacity);
    }
    if x < capacity {
      DivModUnique(i, capacity, ql + qr, x);
    } else {
      assert i == (ql + qr + 1) * capacity + (x - capacity) by {
        MulDistrib(ql + qr, 1, capacity);
      }
      DivModUnique(i, capacity, ql + qr + 1, x - capacity);
    }
  }

  lemma SameOffer(u: State)
    requires Inv(u) && u.prod.Writing? && Aligned(u.Capacity(), u.head)
    ensures Offered(Wrapping, Wrap(u)) == Offered(Unbounded, u)
  {
    WordDifference(u.prod.h, u.prod.t);
    WordSlot(u.prod.h, u.Capacity());
    WordSlot(u.prod.t, u.Capacity());
  }

  lemma LoadTailSimulates(u: State)
    requires Inv(u) && u.Capacity() < WORD && Enabled(Wrapping, Wrap(u), LoadTail)
    ensures Do(Wrapping, Wrap(u), LoadTail) == Wrap(Do(Unbounded, u, LoadTail))
  {
    WordDifference(u.head, u.tail);
  }

  lemma CopySimulates(u: State, b: byte)
    requires Inv(u) && Aligned(u.Capacity(), u.head) && Enabled(Wrapping, Wrap(u), CopyByte(b))
    ensures Enabled(Unbounded, u, CopyByte(b))
    ensures Do(Wrapping, Wrap(u), CopyByte(b)) == Wrap(Do(Unbounded, u, CopyByte(b)))
  {
    SameOffer(u);
  }

  lemma ReadSimulates(u: State)
    requires Inv(u) && Aligned(u.Capacity(), u.head) && Enabled(Wrapping, Wrap(u), ReadByte)
    ensures Enabled(Unbounded, u, ReadByte)
    ensures Do(Wrapping, Wrap(u), ReadByte) == Wrap(Do(Unbounded, u, ReadByte))
  {
    WordDifference(u.cons.limit, u.tail);
    WordSum(u.tail, |u.cons.got|);
    WordSlot(u.tail + |u.cons.got|, u.Capacity());
  }

  /** One step of the word ring is one step of the unbounded ring it stands for. */
  lemma StepSimulates(u: State, step: Step)
    requires Inv(u) && Aligned(u.Capacity(), u.head) && Enabled(Wrapping, Wrap(u), step)
    ensures Enabled(Unbounded, u, step)
    ensures Do(Wrapping, Wrap(u), step) == Wrap(Do(Unbounded, u, step))
    ensures Sent(Wrap(u), step) == Sent(u, step) && Received(Wrap(u), step) == Received(u, step)
  {
    hide Inv, Offered, SlotOf, Minus;
    match step
    case LoadHead =>
    case LoadTail => LoadTailSimulates(u);
    case CopyByte(b) => CopySimulates(u, b);
    case Abandon =>
    case Commit => WordSum(u.head, |u.prod.written|);
    case OpenRead =>
    case ReadByte => ReadSimulates(u);
    case Release => WordSum(u.tail, |u.cons.got|);
  }

  lemma SameWindow(u: State)
    requires Inv(u) && Aligned(u.Capacity(), u.head)
    ensures Window(Wrapping, Wrap(u)) == Window(Unbounded, u)
  {
    WordDifference(u.head, u.tail);
    forall j | 0 <= j < u.head - u.tail
      ensures Window(Wrapping, Wrap(u))[j] == Window(Unbounded, u)[j]
    {
      WordSum(u.tail, j);
      WordSlot(u.tail + j, u.Capacity());
    }
  }

  /** A whole run of the word ring, as long as its indices stay right. */
  lemma {:induction false} RunSimulates(u: State, steps: seq<Step>)
    requires Inv(u) && IsRun(Wrapping, Wrap(u), steps)
    requires Aligned(u.Capacity(), u.head + |AllSent(Wrapping, Wrap(u), steps)|)
    ensures IsRun(Unbounded, u, steps)
    ensures Final(Wrapping, Wrap(u), steps) == Wrap(Final(Unbounded, u, steps))
    ensures AllSent(Wrapping, Wrap(u), steps) == AllSent(Unbounded, u, steps)
    ensures AllReceived(Wrapping, Wrap(u), steps) == AllReceived(Unbounded, u, steps)
    ensures Final(Unbounded, u, steps).Capacity() == u.Capacity()
    decreases |steps|
  {
    if steps != [] {
      StepSimulates(u, steps[0]);
      StepKeeps(u, steps[0]);
      RunSimulates(Do(Unbounded, u, steps[0]), steps[1..]);
    }
  }

  lemma WordRingConserves(buf: seq<byte>, steps: seq<Step>)
    requires 0 < |buf| < 0x1_0000_0000_0000_0000 && IsRun(Wrapping, Init(buf), steps)
    requires 0x1_0000_0000_0000_0000 % |buf| == 0 || |AllSent(Wrapping, Init(buf), steps)| < 0x1_0000_0000_0000_0000
    ensures Conserves(Wrapping, buf, steps)
  {
    var u := Init(buf);
    assert Wrap(u) == u;
    RunSimulates(u, steps);
    RunIsFifo(u, steps);
    NothingLostOrInvented(buf, steps);
    SameWindow(Final(Unbounded, u, steps));
  }

  // Why the capacity matters: a run that goes wrong for every other capacity.

  lemma {:induction false} Extend(s: State, steps: seq<Step>, step: Step)
    requires IsRun(Wrapping, s, steps) && Enabled(Wrapping, Final(Wrapping, s, steps), step)
    ensures IsRun(Wrapping, s, steps + [step])
    ensures Final(Wrapping, s, steps + [step]) == Do(Wrapping, Final(Wrapping, s, steps), step)
    ensures AllSent(Wrapping, s, steps + [step]) ==
            AllSent(Wrapping, s, steps) + Sent(Final(Wrapping, s, steps), step)
    ensures AllReceived(Wrapping, s, steps + [step]) ==
            AllReceived(Wrapping, s, steps) + Received(Final(Wrapping, s, steps), step)
    decreases |steps|
  {
    hide Do, Enabled, Sent, Received;
    var more := steps + [step];
    if steps == [] {
      assert more[1..] == [] && more[0] == step;
      assert IsRun(Wrapping, Do(Wrapping, s, step), more[1..]);
    } else {
      assert more[1..] == steps[1..] + [step] && more[0] == steps[0];
      Extend(Do(Wrapping, s, steps[0]), steps[1..], step);
    }
  }

  /** What a run from an empty ring has led to. */
  ghost predicate Leads(buf: seq<byte>, steps: seq<Step>, s: State, sent: seq<byte>, received: seq<byte>) {
    && buf != [] && IsRun(Wrapping, Init(buf), steps)
    && Final(Wrapping, Init(buf), steps) == s
    && AllSent(Wrapping, Init(buf), steps) == sent
    && AllReceived(Wrapping, Init(buf), steps) == received
  }

  lemma Next(buf: seq<byte>, steps: seq<Step>, s: State, sent: seq<byte>, received: seq<byte>, step: Step)
    requires Leads(buf, steps, s, sent, received) && Enabled(Wrapping, s, step)
    ensures Leads(buf, steps + [step], Do(Wrapping, s, step), sent + Sent(s, step), received + Received(s, step))
  {
    Extend(Init(buf), steps, step);
  }

  /** From the start of a write with k bytes copied, one more byte goes to slot i + k. */
  lemma CopyInLap(buf: seq<byte>, steps: seq<Step>, s: State, log: seq<byte>, b: byte)
    returns (steps': seq<Step>, s': State)
    requires Leads(buf, steps, s, log, log) && s.buf != []
    requires s.prod.Writing? && s.prod.h == s.prod.t && SlotOf(s.prod.h, |s.buf|) + |s.prod.written| < |s.buf|
    ensures Leads(buf, steps', s', log, log)
    ensures s' == s.(buf := s.buf[SlotOf(s.prod.h, |s.buf|) + |s.prod.written| := b],
                     prod := Writing(s.prod.h, s.prod.h, s.prod.written + [b]))
  {
    assert log + [] == log;
    Next(buf, steps, s, log, log, CopyByte(b));
    steps', s' := steps + [CopyByte(b)], Do(Wrapping, s, CopyByte(b));
  }

  /** A write is opened on an empty ring. */
  lemma OpenWrite(buf: seq<byte>, steps: seq<Step>, s: State, log: seq<byte>)
    returns (steps': seq<Step>, s': State)
    requires Leads(buf, steps, s, log, log) && s.buf != []
    requires s == State(s.buf, s.head, s.head, Ready, Waiting)
    ensures Leads(buf, steps', s', log, log) && s' == s.(prod := Writing(s.head, s.head, []))
  {
    assert log + [] == log;
    Next(buf, steps, s, log, log, LoadHead);
    var s1 := Do(Wrapping, s, LoadHead);
    steps' := steps + [LoadHead];
    Next(buf, steps', s1, log, log, LoadTail);
    steps', s' := steps' + [LoadTail], Do(Wrapping, s1, LoadTail);
  }

  /** The write is committed and the consumer loads the new head. */
  lemma CommitAndOpen(buf: seq<byte>, steps: seq<Step>, s: State, log: seq<byte>)
    returns (steps': seq<Step>, s': State)
    requires Leads(buf, steps, s, log, log) && s.buf != []
    requires s.prod.Writing? && s.prod.written != [] && s.cons.Waiting?
    ensures Leads(buf, steps', s', log + s.prod.written, log)
    ensures s' == State(s.buf, (s.head + |s.prod.written|) % WORD, s.tail, Ready,
                        Reading((s.head + |s.prod.written|) % WORD, []))
  {
    var sent := log + s.prod.written;
    assert log + [] == log && sent + [] == sent;
    Next(buf, steps, s, log, log, Commit);
    var s1 := Do(Wrapping, s, Commit);
    steps' := steps + [Commit];
    Next(buf, steps', s1, sent, log, OpenRead);
    steps', s' := steps' + [OpenRead], Do(Wrapping, s1, OpenRead);
  }

  lemma ReadOne(buf: seq<byte>, steps: seq<Step>, s: State, sent: seq<byte>, log: seq<byte>)
    returns (steps': seq<Step>, s': State)
    requires Leads(buf, steps, s, sent, log) && s.buf != []
    requires s.cons.Reading? && |s.cons.got| < (s.cons.limit - s.tail) % WORD
    ensures Leads(buf, steps', s', sent, log)
    ensures s' == s.(cons := Reading(s.cons.limit,
                                     s.cons.got + [s.buf[SlotOf((s.tail + |s.cons.got|) % WORD, |s.buf|)]]))
  {
    assert log + [] == log && sent + [] == sent;
    Next(buf, steps, s, sent, log, ReadByte);
    steps', s' := steps + [ReadByte], Do(Wrapping, s, ReadByte);
  }

  lemma CloseRead(buf: seq<byte>, steps: seq<Step>, s: State, sent: seq<byte>, log: seq<byte>)
    returns (steps': seq<Step>, s': State)
    requires Leads(buf, steps, s, sent, log) && s.buf != [] && s.cons.Reading?
    ensures Leads(buf, steps', s', sent, log + s.cons.got)
    ensures s' == s.(tail := (s.tail + |s.cons.got|) % WORD, cons := Waiting)
  {
    assert sent + [] == sent;
    Next(buf, steps, s, sent, log, Release);
    steps', s' := steps + [Release], Do(Wrapping, s, Release);
  }

  /** One byte through the ring, both counters one further. */
  lemma OneByte(buf: seq<byte>, steps: seq<Step>, s: State, log: seq<byte>)
    returns (steps': seq<Step>, s': State, log': seq<byte>)
    requires Leads(buf, steps, s, log, log)
    requires s == State(s.buf, s.head, s.head, Ready, Waiting) && s.head + 1 < WORD && s.buf != []
    ensures Leads(buf, steps', s', log', log')
    ensures s' == State(s'.buf, s.head + 1, s.head + 1, Ready, Waiting) && |s'.buf| == |s.buf|
  {
    hide IsRun, Final, AllSent, AllReceived;
    log' := log + [0];
    var e: seq<byte> := [];
    assert e + [0] == [0];
    steps', s' := OpenWrite(buf, steps, s, log);
    steps', s' := CopyInLap(buf, steps', s', log, 0);
    steps', s' := CommitAndOpen(buf, steps', s', log);
    steps', s' := ReadOne(buf, steps', s', log', log);
    assert s'.cons.got == [0];
    steps', s' := CloseRead(buf, steps', s', log', log);
  }

  lemma {:induction false} PumpTo(buf: seq<byte>, n: nat) returns (steps: seq<Step>, s: State, log: seq<byte>)
    requires buf != [] && n < WORD
    ensures Leads(buf, steps, s, log, log)
    ensures s == State(s.buf, n, n, Ready, Waiting) && |s.buf| == |buf|
    decreases n
  {
    if n == 0 {
      steps, s, log := [], Init(buf), [];
    } else {
      steps, s, log := PumpTo(buf, n - 1);
      steps, s, log := OneByte(buf, steps, s, log);
    }
  }

  /** Two bytes across the wrap-around: the second one is read from slot 0, not from where it is. */
  lemma BreaksAtWrap(buf: seq<byte>) returns (steps: seq<Step>)
    requires 0 < |buf| < WORD && WORD % |buf| != 0
    ensures IsRun(Wrapping, Init(buf), steps) && !Conserves(Wrapping, buf, steps)
  {
    var c, n := |buf|, WORD - 1;
    var s, log;
    steps, s, log := PumpTo(buf, n);
    var i := SlotOf(n, c);
    StepForward(n, 1, c);
    assert i + 1 < c;
    var x: byte := if i == 0 then 0 else s.buf[0];
    var y: byte := if x == 1 then 0 else 1;
    var e: seq<byte> := [];
    assert e + [0] == [0] && [0] + [y] == [0, y];
    steps, s := OpenWrite(buf, steps, s, log);
    steps, s := CopyInLap(buf, steps, s, log, 0);
    steps, s := CopyInLap(buf, steps, s, log, y);
    steps := BreaksAtRead(buf, steps, s, log, y);
  }

  lemma BreaksAtRead(buf: seq<byte>, steps: seq<Step>, s: State, log: seq<byte>, y: byte) returns (steps': seq<Step>)
    requires Leads(buf, steps, s, log, log)
    requires s == State(s.buf, WORD - 1, WORD - 1, Writing(WORD - 1, WORD - 1, [0, y]), Waiting)
    requires s.buf != [] && s.buf[0] != y
    ensures IsRun(Wrapping, Init(buf), steps') && !Conserves(Wrapping, buf, steps')
  {
    var sent := log + [0, y];
    var s';
    steps', s' := CommitAndOpen(buf, steps, s, log);
    steps', s' := ReadOne(buf, steps', s', sent, log);
    steps', s' := ReadOne(buf, steps', s', sent, log);
    var got := s'.cons.got;
    assert |got| == 2 && got[1] == s.buf[0];
    steps', s' := CloseRead(buf, steps', s', sent, log);
    assert sent[|log| + 1] != (log + got + Window(Wrapping, s'))[|log| + 1];
  }

  /** With words, too, a producer is turned away exactly when the ring it has loaded is full. */
  lemma WordRefusedIffFull(u: State)
    requires Inv(u) && u.Capacity() < WORD && u.prod.HeadLoaded?
    ensures Do(Wrapping, Wrap(u), LoadTail).prod.Ready? <==> u.head - u.tail == u.Capacity()
  {
    LoadTailSimulates(u);
    RefusedIffFull(u);
  }

  /** Which capacities are safe for good: exactly those that divide 2^64. */
  lemma SafeCapacities(capacity: nat)
    requires 0 < capacity < 0x1_0000_0000_0000_0000
    ensures (forall buf, steps :: |buf| == capacity && IsRun(Wrapping, Init(buf), steps) ==> Conserves(Wrapping, buf, steps))
            <==> 0x1_0000_0000_0000_0000 % capacity == 0
  {
    if WORD % capacity == 0 {
      forall buf: seq<byte>, steps | |buf| == capacity && IsRun(Wrapping, Init(buf), steps)
        ensures Conserves(Wrapping, buf, steps)
      {
        WordRingConserves(buf, steps);
      }
    } else {
      var buf: seq<byte> := seq(capacity, _ => 0);
      var steps := BreaksAtWrap(buf);
    }
  }
}
