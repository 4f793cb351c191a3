/** The ring descriptor as an object in shared memory, and the sink that appends to it. */
module BodyRing {
  import opened Modular
  import opened RingGeometry
  import opened Wrappers
  import opened Bytes

  datatype WriteResult = Done | Full

  /** High watermark: 95 percent. */
  function HighMark(capacity: nat): nat {
    capacity * 95 / 100
  }

  /** Low watermark: 50 percent. */
  function LowMark(capacity: nat): nat {
    capacity * 50 / 100
  }

  predicate ShouldStop(occupied: int, capacity: nat) {
    occupied > HighMark(capacity)
  }

  predicate ShouldResume(occupied: int, capacity: nat) {
    occupied < LowMark(capacity)
  }

  /** In whole numbers: above 95 hundredths, and at most one below half. */
  lemma WatermarksInFull(occupied: int, capacity: nat)
    ensures ShouldStop(occupied, capacity) <==> 100 * occupied > 95 * capacity
    ensures ShouldResume(occupied, capacity) <==> 2 * occupied + 2 <= capacity
  {
  }

  /** Slot x takes one of the first n bytes written to the slices. */
  ghost predicate Touched(s: Slices, n: nat, x: nat) {
    || s.first.start <= x < s.first.start + Min(s.first.len, n)
    || s.second.start <= x < s.second.start + (n - Min(s.first.len, n))
  }

  lemma TouchedSlot(s: Slices, n: nat, x: nat) returns (j: nat)
    requires n <= s.Len() && Touched(s, n, x)
    ensures j < n && s.Slot(j) == x
  {
    j := if s.first.start <= x < s.first.start + Min(s.first.len, n) then x - s.first.start
         else x - s.second.start + s.first.len;
  }

  class Ring {
    const data: array<byte>
    var head: nat
    var tail: nat
    ghost var stream: seq<byte>   // every byte ever committed

    ghost predicate Valid()
      reads this, data
    {
      && Occupancy(head, tail, data.Length)
      && |stream| == head
      && Unread(tail, head)
    }

    /** The slots of positions from..to hold the bytes of the stream. */
    ghost predicate Unread(from: nat, to: nat)
      reads this, data
      requires 0 < data.Length && to <= |stream|
    {
      forall i :: from <= i < to ==> data[SlotOf(i, data.Length)] == stream[i]
    }

    /** The slots from position head on hold `bytes`, written but not committed. */
    ghost predicate Staged(bytes: seq<byte>)
      reads this, data
      requires 0 < data.Length
    {
      forall j :: 0 <= j < |bytes| ==> data[SlotOf(head + j, data.Length)] == bytes[j]
    }

    constructor (buffer: array<byte>)
      requires buffer.Length > 0
      ensures Valid() && data == buffer && head == tail == 0 && stream == []
    {
      data := buffer;
      head, tail := 0, 0;
      stream := [];
    }

    /** The consumer, at any moment: it may release any number of committed bytes. */
    method Interfere()
      requires Valid()
      modifies this`tail
      ensures Valid() && old(tail) <= tail
    {
      var k :| 0 <= k <= head - tail;
      tail := tail + k;
    }

    function AvailableWrite(): (n: nat)
      requires Valid()
      reads this, data
      ensures n == SlicesAt(head, tail, data.Length).Len()
    {
      SlicesInOrder(head, tail, data.Length);
      data.Length - (head - tail)
    }

    function WriteBuffers(): Slices
      requires Valid()
      reads this, data
    {
      WriteSlices(head - tail, SlotOf(head, data.Length), SlotOf(tail, data.Length), data.Length)
    }

    /** `memcpy` into one stretch of the buffer. */
    method CopySlice(start: nat, bytes: seq<byte>)
      requires start + |bytes| <= data.Length
      modifies data
      ensures forall x :: 0 <= x < data.Length ==>
                data[x] == if start <= x < start + |bytes| then bytes[x - start] else old(data[x])
    {
      forall j | 0 <= j < |bytes| {
        data[start + j] := bytes[j];
      }
    }

    /** Fills the slices in order with as much of `bytes` as fits. */
    method Fill(s: Slices, bytes: seq<byte>) returns (n: nat)
      requires s.first.start + s.first.len <= data.Length
      requires s.second.start + s.second.len <= s.first.start || s.second.len == 0
      modifies data
      ensures n == Min(s.Len(), |bytes|)
      ensures forall j :: 0 <= j < n ==> s.Slot(j) < data.Length && data[s.Slot(j)] == bytes[j]
      ensures forall x :: 0 <= x < data.Length && !Touched(s, n, x) ==> data[x] == old(data[x])
    {
      n := Min(s.first.len, |bytes|);
      CopySlice(s.first.start, bytes[..n]);
      if n < |bytes| && s.second.len > 0 {
        var take := Min(s.second.len, |bytes| - n);
        CopySlice(s.second.start, bytes[n..n + take]);
        n := n + take;
      }
    }

    /** Writing to slices computed from a stale tail stages the bytes and harms nothing. */
    method Stage(s: Slices, ghost t: nat, bytes: seq<byte>) returns (n: nat)
      requires Valid() && t <= tail && Occupancy(head, t, data.Length) && s == SlicesAt(head, t, data.Length)
      modifies data
      ensures Valid() && n == Min(data.Length - (head - t), |bytes|) && Staged(bytes[..n])
    {
      SlicesInOrder(head, t, data.Length);
      n := Fill(s, bytes);
      forall i | tail <= i < head
        ensures data[SlotOf(i, data.Length)] == stream[i]
      {
        if Touched(s, n, SlotOf(i, data.Length)) {
          var j := TouchedSlot(s, n, SlotOf(i, data.Length));
          DistinctSlots(i, head + j, data.Length);
          assert false;
        }
      }
    }

    /** `commitWrite`: the staged bytes become part of the stream. */
    method Commit(n: nat, ghost bytes: seq<byte>)
      requires Valid() && n == |bytes| && head + n <= tail + data.Length && Staged(bytes)
      modifies this`head, this`stream
      ensures Valid() && head == old(head) + n && stream == old(stream) + bytes
    {
      ghost var h := head;
      head := head + n;
      stream := stream + bytes;
      forall i | tail <= i < head
        ensures data[SlotOf(i, data.Length)] == stream[i]
      {
        if h <= i {
          assert data[SlotOf(h + (i - h), data.Length)] == bytes[i - h];
        }
      }
    }

    /** One round of writing: load, compute the slices, copy, commit, with the consumer moving. */
    method Append(bytes: seq<byte>) returns (n: nat)
      requires Valid() && head - tail < data.Length
      modifies this`head, this`tail, this`stream, data
      ensures Valid() && old(tail) <= tail
      ensures n == Min(data.Length - (old(head) - old(tail)), |bytes|)
      ensures stream == old(stream) + bytes[..n]
    {
      ghost var t := tail;
      var buffers := WriteBuffers();
      Interfere();
      n := Stage(buffers, t, bytes);
      Interfere();
      Commit(n, bytes[..n]);
    }

    /**
     * `Sink.write`, with the consumer moving at every point. On success exactly `bytes` was
     * appended; on Full a proper prefix was, and the ring was completely full on return. Bytes
     * that fit on entry are always written, even where the high watermark is passed.
     */
    method Write(bytes: seq<byte>) returns (r: WriteResult, written: nat)
      requires Valid()
      modifies this`head, this`tail, this`stream, data
      ensures Valid() && old(tail) <= tail
      ensures written <= |bytes| && stream == old(stream) + bytes[..written]
      ensures r.Done? <==> written == |bytes|
      ensures r.Full? ==> head - tail == data.Length
      ensures |bytes| <= data.Length - (old(head) - old(tail)) ==> r.Done?
    {
      written := 0;
      while written < |bytes|
        invariant Valid() && old(tail) <= tail
        invariant written <= |bytes| && stream == old(stream) + bytes[..written]
        invariant |bytes| <= data.Length - (old(head) - old(tail)) ==> |bytes| - written <= data.Length - (head - tail)
        decreases |bytes| - written
      {
        Interfere();
        if AvailableWrite() == 0 {
          return Full, written;
        }
        Interfere();
        var n := Append(bytes[written..]);
        assert n > 0;   // so the second test for a full ring, n == 0, never fires
        assert bytes[..written + n] == bytes[..written] + bytes[written..][..n];
        written := written + n;
      }
      return Done, written;
    }

    /**
     * The ring branch of `net_read`: refused when full, otherwise the vectored read puts into
     * the slices what the socket delivers (`incoming`, as far as it fits), and that is committed.
     */
    method Receive(incoming: seq<byte>) returns (n: nat)
      requires Valid()
      modifies this`head, this`tail, this`stream, data
      ensures Valid() && old(tail) <= tail
      ensures Min(data.Length - (old(head) - old(tail)), |incoming|) <= n <= |incoming|
      ensures stream == old(stream) + incoming[..n]
      ensures n == 0 ==> incoming == [] || head - tail == data.Length
    {
      Interfere();
      if head - tail >= data.Length {
        return 0;
      }
      n := Append(incoming);
    }
  }
}
