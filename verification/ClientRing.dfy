/**
  The ring of accepted sockets in sockets/hw2/server queue/server.c. `Ring` is the value the
  locking protocol works on; `ClientQueue` is the struct the C code updates in place.
*/
module ClientRing {
  import opened Common
  import opened Modular

  datatype Ring = Ring(slots: seq<int>, front: nat, rear: nat, count: nat)

  ghost predicate WellFormed(r: Ring) {
    && |r.slots| > 0
    && r.front < |r.slots|
    && r.count <= |r.slots|
    && r.rear == (r.front + r.count) % |r.slots|
  }

  // The three writes of add_to_queue and the two of remove_from_queue, one at a time.

  function WriteSlot(r: Ring, socket: int): Ring
    requires r.rear < |r.slots|
  {
    r.(slots := r.slots[r.rear := socket])
  }

  function AdvanceRear(r: Ring): Ring
    requires |r.slots| > 0
  {
    r.(rear := (r.rear + 1) % |r.slots|)
  }

  function IncrementCount(r: Ring): Ring {
    r.(count := r.count + 1)
  }

  function AdvanceFront(r: Ring): Ring
    requires |r.slots| > 0
  {
    r.(front := (r.front + 1) % |r.slots|)
  }

  function DecrementCount(r: Ring): Ring
    requires r.count > 0
  {
    r.(count := r.count - 1)
  }

  /** What is stored, oldest first. */
  function Contents(r: Ring): (c: seq<int>)
    requires |r.slots| > 0
    ensures |c| == r.count
  {
    seq(r.count, k requires 0 <= k => r.slots[(r.front + k) % |r.slots|])
  }

  /** An insertion that found room appends to the contents and keeps the ring well formed. */
  lemma InsertAppends(r: Ring, socket: int)
    requires WellFormed(r) && r.count < |r.slots|
    ensures var r' := IncrementCount(AdvanceRear(WriteSlot(r, socket)));
            WellFormed(r') && Contents(r') == Contents(r) + [socket]
  {
    var n := |r.slots|;
    var r' := IncrementCount(AdvanceRear(WriteSlot(r, socket)));
    WrapSum(r.front + r.count, 1, n);
    forall k | 0 <= k < r.count ensures Contents(r')[k] == Contents(r)[k] {
      DistinctWraps(r.front + k, r.front + r.count, n);
    }
    assert Contents(r')[..r.count] == Contents(r);
  }

  /** Position k + 1 before a removal is position k after it. */
  lemma RemoveShifts(r: Ring, k: nat)
    requires WellFormed(r) && k < r.count - 1
    ensures Contents(DecrementCount(AdvanceFront(r)))[k] == Contents(r)[k + 1]
  {
    var n := |r.slots|;
    var at := (r.front + 1) % n;
    assert (at + k) % n == (r.front + (k + 1)) % n by {
      WrapSum(r.front + 1, k, n);
    }
    var r' := DecrementCount(AdvanceFront(r));
    assert r'.front == at && r'.slots == r.slots;
    assert Contents(r')[k] == r.slots[(at + k) % n];
  }

  /** A removal yields the oldest entry and leaves the others in order. */
  lemma RemoveDropsFirst(r: Ring)
    requires WellFormed(r) && r.count > 0
    ensures WellFormed(DecrementCount(AdvanceFront(r)))
    ensures [r.slots[r.front]] + Contents(DecrementCount(AdvanceFront(r))) == Contents(r)
  {
    WrapSum(r.front + 1, r.count - 1, |r.slots|);
    SmallMod(r.front, |r.slots|);
    var rest := Contents(DecrementCount(AdvanceFront(r)));
    assert r.slots[r.front] == Contents(r)[0];
    forall k | 0 <= k < r.count - 1 ensures rest[k] == Contents(r)[k + 1] {
      RemoveShifts(r, k);
    }
  }

  class ClientQueue {
    const slots: array<int>
    var front: int
    var rear: int
    var count: int

    ghost predicate Valid()
      reads this, slots
    {
      && 0 <= front && 0 <= rear && 0 <= count
      && WellFormed(Ring(slots[..], front, rear, count))
    }

    ghost function Snapshot(): Ring
      requires Valid()
      reads this, slots
    {
      Ring(slots[..], front, rear, count)
    }

    constructor (size: nat)
      requires size > 0
      ensures Valid() && slots.Length == size && fresh(slots)
      ensures Contents(Snapshot()) == []
    {
      slots := new int[size](_ => 0);
      front, rear, count := 0, 0, 0;
      new;
      SmallMod(0, size);
    }

    /** add_to_queue between its lock and its signal: either the loop test sends the caller to
        sleep and nothing changes, or the socket is appended. */
    method Add(socket: int) returns (mustWait: bool)
      requires Valid()
      modifies this`rear, this`count, slots
      ensures Valid()
      ensures mustWait <==> |old(Contents(Snapshot()))| == slots.Length
      ensures mustWait ==> Snapshot() == old(Snapshot())
      ensures !mustWait ==> Contents(Snapshot()) == old(Contents(Snapshot())) + [socket]
      ensures !mustWait ==> Snapshot() == IncrementCount(AdvanceRear(WriteSlot(old(Snapshot()), socket)))
    {
      mustWait := count == slots.Length;
      if !mustWait {
        InsertAppends(Snapshot(), socket);
        slots[rear] := socket;
        rear := (rear + 1) % slots.Length;
        count := count + 1;
      }
    }

    /** remove_from_queue between its lock and its signal. */
    method Remove() returns (socket: Option<int>)
      requires Valid()
      modifies this`front, this`count
      ensures Valid()
      ensures socket.None? <==> old(Contents(Snapshot())) == []
      ensures socket.None? ==> Snapshot() == old(Snapshot())
      ensures socket.Some? ==> [socket.value] + Contents(Snapshot()) == old(Contents(Snapshot()))
      ensures socket.Some? ==> Snapshot() == DecrementCount(AdvanceFront(old(Snapshot())))
    {
      if count == 0 {
        return None;
      }
      RemoveDropsFirst(Snapshot());
      socket := Some(slots[front]);
      front := (front + 1) % slots.Length;
      count := count - 1;
    }
  }
}
