/** Remainders of growing counters, as needed for ring positions. */
module Modular {

  /** 64-bit counters wrap here. */
  const WORD: nat := 0x1_0000_0000_0000_0000

  lemma DivModUnique(n: int, c: int, q: int, r: int)
    requires c > 0 && 0 <= r < c && n == q * c + r
    ensures n % c == r && n / c == q
  {
    var d := n / c - q;
    assert n == (n / c) * c + n % c;
    assert d * c == r - n % c;
    assert d >= 1 ==> d * c >= c;
    assert d <= -1 ==> d * c <= -c;
  }

  /** Stepping forward by at most one lap wraps at most once. */
  lemma StepForward(n: nat, k: nat, c: nat)
    requires 0 < c && k <= c
    ensures (n + k) % c == if n % c + k < c then n % c + k else n % c + k - c
  {
    if n % c + k < c {
      DivModUnique(n + k, c, n / c, n % c + k);
    } else {
      DivModUnique(n + k, c, n / c + 1, n % c + k - c);
    }
  }

  /** Positions less than one lap apart occupy different slots. */
  lemma DistinctSlots(a: nat, b: nat, c: nat)
    requires 0 < c && a < b < a + c
    ensures a % c != b % c
  {
    StepForward(a, b - a, c);
  }

  /** Every slot is met exactly once in any window of one lap. */
  lemma SlotInLap(from: nat, c: nat, x: nat) returns (k: nat)
    requires x < c
    ensures k < c && (from + k) % c == x
  {
    k := if from % c <= x then x - from % c else x + c - from % c;
    StepForward(from, k, c);
  }

  /** Reducing by a multiple of `c` first does not change the remainder by `c`. */
  lemma ReduceFirst(n: nat, m: nat, c: nat)
    requires 0 < c && 0 < m && m % c == 0
    ensures (n % m) % c == n % c
  {
    var f, r := m / c, n % m;
    assert m == f * c;
    assert n == (n / m) * m + r;
    assert (n / m) * (f * c) == ((n / m) * f) * c by { MulAssoc(n / m, f, c); }
    assert n == ((n / m) * f + r / c) * c + r % c by {
      assert r == (r / c) * c + r % c;
      MulDistrib((n / m) * f, r / c, c);
    }
    DivModUnique(n, c, (n / m) * f + r / c, r % c);
  }

  lemma MulAssoc(a: int, b: int, c: int)
    ensures a * (b * c) == (a * b) * c
  {
  }

  lemma MulDistrib(a: int, b: int, c: int)
    ensures (a + b) * c == a * c + b * c
  {
  }
}

/** Where the producer may write: the one or two free stretches of the ring buffer. */
module RingGeometry {
  import opened Modular

  /** The slot of the i-th byte ever written. */
  function SlotOf(i: nat, capacity: nat): (x: nat)
    requires 0 < capacity
    ensures x < capacity
  {
    i % capacity
  }

  datatype Slice = Slice(start: nat, len: nat)

  datatype Slices = Slices(first: Slice, second: Slice) {
    function Len(): nat {
      first.len + second.len
    }

    /** The slot of the k-th byte when the slices are filled one after the other. */
    function Slot(k: nat): nat
      requires k < Len()
    {
      if k < first.len then first.start + k else second.start + (k - first.len)
    }
  }

  /** `getWriteBuffers`, on the loaded occupancy and the two indices. */
  function WriteSlices(occupied: nat, headIdx: nat, tailIdx: nat, capacity: nat): (s: Slices)
    requires headIdx < capacity && tailIdx < capacity
    ensures s.Len() <= capacity
    ensures forall k :: 0 <= k < s.Len() ==> s.Slot(k) < capacity
  {
    if occupied == capacity then Slices(Slice(0, 0), Slice(0, 0))
    else if headIdx >= tailIdx then Slices(Slice(headIdx, capacity - headIdx), Slice(0, tailIdx))
    else Slices(Slice(headIdx, tailIdx - headIdx), Slice(0, 0))
  }

  /** The buffers handed to `read_vectored`: refused when full, one or two otherwise. */
  function ReadBuffers(occupied: nat, headIdx: nat, tailIdx: nat, capacity: nat): (bufs: seq<Slice>)
    requires headIdx < capacity && tailIdx < capacity
  {
    if occupied >= capacity then []
    else if headIdx >= tailIdx then [Slice(headIdx, capacity - headIdx), Slice(0, tailIdx)]
    else [Slice(headIdx, tailIdx - headIdx)]
  }

  ghost predicate Occupancy(head: nat, tail: nat, capacity: nat) {
    0 < capacity && tail <= head <= tail + capacity
  }

  ghost function SlicesAt(head: nat, tail: nat, capacity: nat): Slices
    requires Occupancy(head, tail, capacity)
  {
    WriteSlices(head - tail, SlotOf(head, capacity), SlotOf(tail, capacity), capacity)
  }

  /**
   * The slices are the free slots in logical order: byte k goes to slot (head + k) mod
   * capacity, and there is room for exactly capacity - (head - tail) bytes.
   */
  lemma SlicesInOrder(head: nat, tail: nat, capacity: nat)
    requires Occupancy(head, tail, capacity)
    ensures SlicesAt(head, tail, capacity).Len() == capacity - (head - tail)
    ensures forall k :: 0 <= k < capacity - (head - tail) ==>
                          SlicesAt(head, tail, capacity).Slot(k) == SlotOf(head + k, capacity) == (head + k) % capacity
  {
    if head - tail < capacity {
      StepForward(tail, head - tail, capacity);
      forall k | 0 <= k < capacity - (head - tail)
        ensures SlicesAt(head, tail, capacity).Slot(k) == SlotOf(head + k, capacity)
      {
        StepForward(head, k, capacity);
      }
    }
  }

  /** A slot is offered to the producer if and only if no unread byte lives in it. */
  lemma SlicesAreTheFreeSlots(head: nat, tail: nat, capacity: nat, x: nat)
    requires Occupancy(head, tail, capacity) && x < capacity
    ensures (exists k :: 0 <= k < SlicesAt(head, tail, capacity).Len() && SlicesAt(head, tail, capacity).Slot(k) == x)
            <==> (forall i :: tail <= i < head ==> SlotOf(i, capacity) != x)
  {
    var s := SlicesAt(head, tail, capacity);
    SlicesInOrder(head, tail, capacity);
    forall k, i | 0 <= k < s.Len() && tail <= i < head
      ensures s.Slot(k) != SlotOf(i, capacity)
    {
      DistinctSlots(i, head + k, capacity);
    }
    var k := SlotInLap(head, capacity, x);
    if k < s.Len() {
      assert s.Slot(k) == x;
    } else {
      StepForward(head + k - capacity, capacity, capacity);
      assert SlotOf(head + k - capacity, capacity) == x;
    }
  }

  /** The two implementations offer the same bytes of the buffer, in the same order. */
  lemma ZigAndRustAgree(head: nat, tail: nat, capacity: nat)
    requires Occupancy(head, tail, capacity)
    ensures var s := SlicesAt(head, tail, capacity);
            var b := ReadBuffers(head - tail, SlotOf(head, capacity), SlotOf(tail, capacity), capacity);
            && (b == [] <==> s.Len() == 0)
            && (b != [] ==> b[0] == s.first)
            && (|b| == 2 ==> b[1] == s.second)
            && (|b| < 2 ==> s.second.len == 0)
  {
    SlicesInOrder(head, tail, capacity);
  }
}
