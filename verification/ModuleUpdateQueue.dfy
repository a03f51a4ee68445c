/** The bounded queue of the revert monitor: services/module_update/service/src/module_update_queue.cpp. */
module ModuleUpdateQueues {
  import opened Common

  const MAX_SIZE := 100

  /** A service status, or with id APP_SERIAL_NUMBER a failed module; (0, "") is what Pop returns after Stop. */
  datatype Record = Record(id: int32, status: string)

  const STOP_MARKER := Record(0, "")

  /** The fields the mutex protects. */
  datatype Ring = Ring(slots: seq<Record>, size: int, head: int, tail: int, isStop: bool)

  function EmptyRing(): Ring {
    Ring(seq(MAX_SIZE, _ => STOP_MARKER), 0, 0, 0, false)
  }

  predicate Indexed(q: Ring) {
    |q.slots| == MAX_SIZE && 0 <= q.head < MAX_SIZE && 0 <= q.tail < MAX_SIZE
  }

  /** The slot `k` places after `head`. */
  function Slot(head: nat, k: nat): (i: nat)
    ensures i < MAX_SIZE
  {
    (head + k) % MAX_SIZE
  }

  /** The invariant of a ring that never overflowed. */
  ghost predicate RingOk(q: Ring) {
    Indexed(q) && 0 <= q.size <= MAX_SIZE && q.tail == Slot(q.head, q.size)
  }

  ghost function Contents(q: Ring): seq<Record>
    requires RingOk(q)
  {
    seq(q.size, k requires 0 <= k < q.size => q.slots[Slot(q.head, k)])
  }

  /** The insertion of Put; it does not look at the size again. */
  function Inserted(q: Ring, r: Record): Ring
    requires Indexed(q)
  {
    q.(slots := q.slots[q.tail := r], tail := Slot(q.tail, 1), size := q.size + 1)
  }

  /** The removal of Pop. */
  function Removed(q: Ring): Ring
    requires Indexed(q)
  {
    q.(head := Slot(q.head, 1), size := q.size - 1)
  }

  lemma SlotCases(head: nat, k: nat)
    requires head < MAX_SIZE && k <= MAX_SIZE
    ensures Slot(head, k) == if head + k < MAX_SIZE then head + k else head + k - MAX_SIZE
  {
  }

  lemma SlotsDiffer(head: nat, j: nat, k: nat)
    requires head < MAX_SIZE && j < k < MAX_SIZE
    ensures Slot(head, j) != Slot(head, k)
  {
    hide Slot;
    SlotCases(head, j);
    SlotCases(head, k);
  }

  lemma NextSlot(head: nat, k: nat)
    requires head < MAX_SIZE && k < MAX_SIZE
    ensures Slot(Slot(head, k), 1) == Slot(head, k + 1) == Slot(Slot(head, 1), k)
  {
    hide Slot;
    SlotCases(head, k);
    SlotCases(head, k + 1);
    SlotCases(head, 1);
    SlotCases(Slot(head, k), 1);
    SlotCases(Slot(head, 1), k);
  }

  lemma InsertAppends(q: Ring, r: Record)
    requires RingOk(q) && q.size < MAX_SIZE
    ensures RingOk(Inserted(q, r)) && Contents(Inserted(q, r)) == Contents(q) + [r]
  {
    hide Slot;
    NextSlot(q.head, q.size);
    forall k | 0 <= k < q.size
      ensures Slot(q.head, k) != q.tail
    {
      SlotsDiffer(q.head, k, q.size);
    }
  }

  lemma RemoveTakesFront(q: Ring)
    requires RingOk(q) && q.size > 0
    ensures RingOk(Removed(q)) && Contents(q) == [q.slots[q.head]] + Contents(Removed(q))
  {
    hide Slot;
    SlotCases(q.head, 0);
    NextSlot(q.head, q.size - 1);
    var u := Removed(q);
    forall k | 0 < k < q.size
      ensures Contents(q)[k] == Contents(u)[k - 1]
    {
      NextSlot(q.head, k - 1);
    }
  }

  /** Each method is one critical section; waiting and waking are steps of RevertMonitor. */
  class ModuleUpdateQueue {
    var size: int
    var head: int
    var tail: int
    var isStop: bool
    const queue: array<Record>

    function Fields(): Ring
      reads this, queue
    {
      Ring(queue[..], size, head, tail, isStop)
    }

    constructor ()
      ensures Fields() == EmptyRing() && fresh(queue)
      ensures RingOk(Fields()) && Contents(Fields()) == []
    {
      size, head, tail, isStop := 0, 0, 0, false;
      queue := new Record[MAX_SIZE](_ => STOP_MARKER);
    }

    method Stop()
      modifies this`isStop
      ensures Fields() == old(Fields()).(isStop := true)
    {
      isStop := true;
    }

    method Insert(saStatus: Record)
      requires Indexed(Fields())
      modifies this`size, this`tail, queue
      ensures Fields() == Inserted(old(Fields()), saStatus)
      ensures old(RingOk(Fields()) && size < MAX_SIZE) ==>
                RingOk(Fields()) && Contents(Fields()) == old(Contents(Fields())) + [saStatus]
    {
      if RingOk(Fields()) && size < MAX_SIZE {
        InsertAppends(Fields(), saStatus);
      }
      queue[tail] := saStatus;
      tail := (tail + 1) % MAX_SIZE;
      size := size + 1;
    }

    method Remove() returns (saStatus: Record)
      requires Indexed(Fields())
      modifies this`size, this`head
      ensures Fields() == Removed(old(Fields()))
      ensures old(RingOk(Fields()) && size > 0) ==>
                RingOk(Fields()) && old(Contents(Fields())) == [saStatus] + Contents(Fields())
      ensures saStatus == old(queue[head])
    {
      if RingOk(Fields()) && size > 0 {
        RemoveTakesFront(Fields());
      }
      saStatus := queue[head];
      head := (head + 1) % MAX_SIZE;
      size := size - 1;
    }

    predicate IsEmpty()
      reads this
    {
      size == 0
    }

    predicate IsFull()
      reads this
    {
      size == MAX_SIZE
    }
  }
}
