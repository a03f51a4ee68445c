/**
 The revert monitor: a producer and a consumer thread over the queue, at the granularity of its mutex.

 Sources: services/module_update/service/src/module_update_queue.cpp, module_update_producer.cpp and
 module_update_consumer.cpp in the same directory. Put and Pop test the size in one critical section and insert, remove
 or wait in another; a schedule interleaves these sections, the accesses to the exit flag and spurious wakeups freely.
 */
module RevertMonitor {
  import opened Common
  import opened ModuleUpdateQueues

  const APP_SERIAL_NUMBER: int32 := -1
  const LOAD_FAIL := "loadfail"
  const CRASH := "crash"

  datatype RevertCode = ERR_SAMGR_REVERT | ERR_BMS_REVERT

  /** What the consumer has concluded: whether to revert, and with which code. */
  datatype Verdict = Verdict(revert: bool, code: RevertCode)

  const NO_REVERT := Verdict(false, ERR_BMS_REVERT)

  type SaMap = map<int32, string>

  /** A crashed or unloadable service that belongs to a module with a name. */
  predicate IsBadSa(saIdHmpMap: SaMap, r: Record) {
    && r.id != APP_SERIAL_NUMBER
    && r.id in saIdHmpMap && saIdHmpMap[r.id] != ""
    && (r.status == LOAD_FAIL || r.status == CRASH)
  }

  /** The body of the consumer loop for one record that is not the stop marker. */
  function Consumed(saIdHmpMap: SaMap, v: Verdict, r: Record): Verdict {
    if r.id == APP_SERIAL_NUMBER then v.(revert := true)
    else if r.id !in saIdHmpMap || saIdHmpMap[r.id] == "" then v
    else if r.status == LOAD_FAIL || r.status == CRASH then Verdict(true, ERR_SAMGR_REVERT)
    else v
  }

  ghost predicate HasBadSa(saIdHmpMap: SaMap, records: seq<Record>) {
    exists i :: 0 <= i < |records| && IsBadSa(saIdHmpMap, records[i])
  }

  ghost predicate HasFailedApp(records: seq<Record>) {
    exists i :: 0 <= i < |records| && records[i].id == APP_SERIAL_NUMBER
  }

  /** The verdict on a whole list of records, without an order of processing. */
  ghost function VerdictOf(saIdHmpMap: SaMap, records: seq<Record>): Verdict {
    Verdict(
      HasBadSa(saIdHmpMap, records) || HasFailedApp(records),
      if HasBadSa(saIdHmpMap, records) then ERR_SAMGR_REVERT else ERR_BMS_REVERT)
  }

  lemma ConsumedExtendsVerdict(saIdHmpMap: SaMap, records: seq<Record>, r: Record)
    ensures VerdictOf(saIdHmpMap, records + [r]) == Consumed(saIdHmpMap, VerdictOf(saIdHmpMap, records), r)
  {
    var more := records + [r];
    assert more[|records|] == r;
    assert forall i :: 0 <= i < |records| ==> more[i] == records[i];
    assert HasBadSa(saIdHmpMap, more) <==> HasBadSa(saIdHmpMap, records) || IsBadSa(saIdHmpMap, r);
    assert HasFailedApp(more) <==> HasFailedApp(records) || r.id == APP_SERIAL_NUMBER;
  }

  // ---------------------------------------------------------------- threads

  datatype ProducerPc = CheckFull | FullSection | WaitingNotFull | Inserting | Stopping | ProducerDone
  datatype ConsumerPc =
    Top | ExitEmptyCheck | ExitStop | CheckEmpty | EmptySection | WaitingNotEmpty | Removing | ConsumerDone

  /** `next` counts the records Put has finished with; `put`, `taken` and `seen` record history. */
  datatype State = State(
    ring: Ring,
    exit: bool,
    producer: ProducerPc,
    next: nat,
    consumer: ConsumerPc,
    verdict: Verdict,
    put: seq<Record>,
    taken: seq<Record>,
    seen: nat)

  datatype Monitor = Monitor(records: seq<Record>, saIdHmpMap: SaMap)

  function Start(): State {
    State(EmptyRing(), false, CheckFull, 0, Top, NO_REVERT, [], [], 0)
  }

  datatype Actor = Producer | Consumer | WakeProducer | WakeConsumer

  function WokenProducer(s: State): State {
    if s.producer.WaitingNotFull? then s.(producer := CheckFull) else s
  }

  function WokenConsumer(s: State): State {
    if s.consumer.WaitingNotEmpty? then s.(consumer := CheckEmpty) else s
  }

  /** Stop of the queue: both condition variables are notified. */
  function Stopped(s: State): State {
    WokenConsumer(WokenProducer(s.(ring := s.ring.(isStop := true))))
  }

  function ProducerStep(m: Monitor, s: State): Option<State>
    requires Indexed(s.ring)
  {
    match s.producer
    case CheckFull =>
      if s.next >= |m.records| then Some(s.(exit := true, producer := Stopping))
      else if s.ring.size == MAX_SIZE then Some(s.(producer := FullSection))
      else Some(s.(producer := Inserting))
    case FullSection =>
      if s.ring.isStop then Some(s.(next := s.next + 1, producer := CheckFull))
      else Some(s.(producer := WaitingNotFull))
    case WaitingNotFull => None
    case Inserting =>
      if s.next >= |m.records| then None
      else
        var r := m.records[s.next];
        Some(WokenConsumer(
               s.(ring := Inserted(s.ring, r), put := s.put + [r], next := s.next + 1, producer := CheckFull)))
    case Stopping => Some(Stopped(s.(producer := ProducerDone)))
    case ProducerDone => None
  }

  function ConsumerStep(m: Monitor, s: State): Option<State>
    requires Indexed(s.ring)
  {
    match s.consumer
    case Top => Some(s.(consumer := if s.exit then ExitEmptyCheck else CheckEmpty))
    case ExitEmptyCheck => Some(s.(consumer := if s.ring.size == 0 then ExitStop else CheckEmpty))
    case ExitStop => Some(Stopped(s.(consumer := ConsumerDone)))
    case CheckEmpty =>
      if s.ring.size == 0 then Some(s.(consumer := EmptySection, seen := |s.put|))
      else Some(s.(consumer := Removing))
    case EmptySection => Some(s.(consumer := if s.ring.isStop then ConsumerDone else WaitingNotEmpty))
    case WaitingNotEmpty => None
    case Removing =>
      var r := s.ring.slots[s.ring.head];
      var t := WokenProducer(s.(ring := Removed(s.ring), taken := s.taken + [r]));
      if r == STOP_MARKER then Some(t.(consumer := ConsumerDone))
      else Some(t.(consumer := Top, verdict := Consumed(m.saIdHmpMap, s.verdict, r)))
    case ConsumerDone => None
  }

  function Step(m: Monitor, s: State, a: Actor): State {
    if !Indexed(s.ring) then s
    else
      match a
      case Producer => var t := ProducerStep(m, s); if t.Some? then t.value else s
      case Consumer => var t := ConsumerStep(m, s); if t.Some? then t.value else s
      case WakeProducer => WokenProducer(s)
      case WakeConsumer => WokenConsumer(s)
  }

  ghost function Exec(m: Monitor, schedule: seq<Actor>): State {
    if schedule == [] then Start()
    else Step(m, Exec(m, schedule[..|schedule| - 1]), schedule[|schedule| - 1])
  }

  // ---------------------------------------------------------------- the sections, performed on the queue

  /** The producer's next critical section; a thread that waits or has ended does nothing. */
  method ProducerSection(queue: ModuleUpdateQueue, m: Monitor, s: State) returns (t: State)
    requires queue.Fields() == s.ring && Indexed(s.ring)
    modifies queue, queue.queue
    ensures t == Step(m, s, Producer) && queue.Fields() == t.ring
  {
    t := s;
    match s.producer {
      case CheckFull =>
        if s.next >= |m.records| {
          t := s.(exit := true, producer := Stopping);
        } else {
          t := s.(producer := if queue.IsFull() then FullSection else Inserting);
        }
      case FullSection =>
        t := if queue.isStop then s.(next := s.next + 1, producer := CheckFull) else s.(producer := WaitingNotFull);
      case Inserting =>
        if s.next < |m.records| {
          var r := m.records[s.next];
          queue.Insert(r);
          t := WokenConsumer(
            s.(ring := queue.Fields(), put := s.put + [r], next := s.next + 1, producer := CheckFull));
        }
      case Stopping =>
        queue.Stop();
        t := WokenConsumer(WokenProducer(s.(ring := queue.Fields(), producer := ProducerDone)));
      case _ =>
    }
  }

  /** The consumer's next critical section. */
  method ConsumerSection(queue: ModuleUpdateQueue, m: Monitor, s: State) returns (t: State)
    requires queue.Fields() == s.ring && Indexed(s.ring)
    modifies queue, queue.queue
    ensures t == Step(m, s, Consumer) && queue.Fields() == t.ring
  {
    t := s;
    match s.consumer {
      case Top => t := s.(consumer := if s.exit then ExitEmptyCheck else CheckEmpty);
      case ExitEmptyCheck => t := s.(consumer := if queue.IsEmpty() then ExitStop else CheckEmpty);
      case ExitStop =>
        queue.Stop();
        t := WokenConsumer(WokenProducer(s.(ring := queue.Fields(), consumer := ConsumerDone)));
      case CheckEmpty =>
        t := if queue.IsEmpty() then s.(consumer := EmptySection, seen := |s.put|) else s.(consumer := Removing);
      case EmptySection => t := s.(consumer := if queue.isStop then ConsumerDone else WaitingNotEmpty);
      case Removing =>
        var r := queue.Remove();
        t := WokenProducer(s.(ring := queue.Fields(), taken := s.taken + [r]));
        if r == STOP_MARKER {
          t := t.(consumer := ConsumerDone);
        } else {
          t := t.(consumer := Top, verdict := Consumed(m.saIdHmpMap, s.verdict, r));
        }
      case _ =>
    }
  }

  /** Any schedule, performed on a real queue, leaves the ring and the threads as Exec says. */
  method RunSchedule(m: Monitor, schedule: seq<Actor>) returns (queue: ModuleUpdateQueue, s: State)
    ensures fresh(queue) && fresh(queue.queue)
    ensures s == Exec(m, schedule) && queue.Fields() == s.ring
  {
    hide Step, Exec, Inserted, Removed;
    queue := new ModuleUpdateQueue();
    s := Start();
    ExecStarts(m, schedule);
    for i := 0 to |schedule|
      invariant fresh(queue) && fresh(queue.queue)
      invariant s == Exec(m, schedule[..i]) && queue.Fields() == s.ring && Indexed(s.ring)
    {
      ghost var before := s;
      ExecNext(m, schedule, i);
      StaysIndexed(m, s, schedule[i]);
      match schedule[i] {
        case Producer => s := ProducerSection(queue, m, s);
        case Consumer => s := ConsumerSection(queue, m, s);
        case WakeProducer => s := Woken(m, s, WakeProducer);
        case WakeConsumer => s := Woken(m, s, WakeConsumer);
      }
    }
    assert schedule[..|schedule|] == schedule;
  }

  function Woken(m: Monitor, s: State, a: Actor): (t: State)
    requires Indexed(s.ring) && (a.WakeProducer? || a.WakeConsumer?)
    ensures t == Step(m, s, a) && t.ring == s.ring
  {
    if a.WakeProducer? then WokenProducer(s) else WokenConsumer(s)
  }

  lemma ExecStarts(m: Monitor, schedule: seq<Actor>)
    ensures Exec(m, schedule[..0]) == Start() && Indexed(Start().ring)
  {
  }

  lemma ExecNext(m: Monitor, schedule: seq<Actor>, i: nat)
    requires i < |schedule|
    ensures Exec(m, schedule[..i + 1]) == Step(m, Exec(m, schedule[..i]), schedule[i])
  {
    assert schedule[..i + 1][..i] == schedule[..i];
  }

  lemma StaysIndexed(m: Monitor, s: State, a: Actor)
    requires Indexed(s.ring)
    ensures Indexed(Step(m, s, a).ring)
  {
    hide Slot, Consumed;
  }

  // ---------------------------------------------------------------- how runs end

  ghost predicate Finished(s: State) {
    s.producer.ProducerDone? && s.consumer.ConsumerDone?
  }

  /** No thread can move unless a condition variable wakes spuriously, and yet they have not both ended. */
  ghost predicate Stuck(m: Monitor, s: State) {
    Indexed(s.ring) && ProducerStep(m, s).None? && ConsumerStep(m, s).None? && !Finished(s)
  }

  // ---------------------------------------------------------------- the invariant

  /** Nobody sleeps through a section that concerns it: an insertion, a removal and a stop wake who waits for them. */
  lemma SectionsWake(m: Monitor, s: State)
    requires Indexed(s.ring)
    ensures s.producer.Inserting? && s.next < |m.records| ==> !Step(m, s, Producer).consumer.WaitingNotEmpty?
    ensures s.producer.Stopping? ==> !Step(m, s, Producer).consumer.WaitingNotEmpty?
    ensures s.consumer.Removing? ==> !Step(m, s, Consumer).producer.WaitingNotFull?
    ensures s.consumer.ExitStop? ==> !Step(m, s, Consumer).producer.WaitingNotFull?
  {
  }

  /** The producer never puts the stop marker: an id is that of an abnormal service with its status, or of modules. */
  ghost predicate RealRecords(m: Monitor) {
    STOP_MARKER !in m.records
  }

  ghost predicate Inv(m: Monitor, s: State) {
    && RingOk(s.ring)
    && s.next <= |m.records|
    && s.put == m.records[..s.next]
    && s.put == s.taken + Contents(s.ring)
    && (s.producer.Inserting? ==> s.next < |m.records| && s.ring.size < MAX_SIZE)
    && (s.producer.FullSection? || s.producer.WaitingNotFull? ==> MAX_SIZE <= s.next < |m.records|)
    && (s.exit <==> s.producer.Stopping? || s.producer.ProducerDone?)
    && (s.exit ==> s.next == |m.records|)
    && (s.ring.isStop ==> s.exit)
    && (s.producer.ProducerDone? ==> s.ring.isStop)
    && (s.consumer.Removing? ==> s.ring.size > 0)
    && (s.consumer.ExitEmptyCheck? || s.consumer.ExitStop? ==> s.exit)
    && (s.consumer.ExitStop? ==> s.ring.size == 0)
    && (s.consumer.EmptySection? || s.consumer.WaitingNotEmpty? ==> |s.taken| == s.seen)
    && (s.consumer.WaitingNotEmpty? ==> !s.ring.isStop)
    && (s.consumer.ConsumerDone? ==> s.ring.isStop && (|s.taken| == s.seen || |s.taken| == |m.records|))
    && s.verdict == VerdictOf(m.saIdHmpMap, s.taken)
  }

  lemma ProducerKeepsInv(m: Monitor, s: State)
    requires RealRecords(m) && Inv(m, s) && ProducerStep(m, s).Some?
    ensures Inv(m, ProducerStep(m, s).value)
  {
    if s.producer.Inserting? {
      InsertAppends(s.ring, m.records[s.next]);
      assert m.records[..s.next + 1] == m.records[..s.next] + [m.records[s.next]];
    }
  }

  /** What the consumer is about to take is the next record, and no stop marker. */
  lemma FrontIsNextRecord(m: Monitor, s: State)
    requires RealRecords(m) && RingOk(s.ring) && s.ring.size > 0
    requires s.next <= |m.records| && s.put == m.records[..s.next] && s.put == s.taken + Contents(s.ring)
    ensures |s.taken| < |m.records| && s.ring.slots[s.ring.head] == m.records[|s.taken|]
    ensures s.ring.slots[s.ring.head] != STOP_MARKER
    ensures s.put == (s.taken + [s.ring.slots[s.ring.head]]) + Contents(Removed(s.ring)) && RingOk(Removed(s.ring))
  {
    RemoveTakesFront(s.ring);
    assert s.put[|s.taken|] == Contents(s.ring)[0] == s.ring.slots[s.ring.head];
  }

  lemma ConsumerKeepsInv(m: Monitor, s: State)
    requires RealRecords(m) && Inv(m, s) && ConsumerStep(m, s).Some?
    ensures Inv(m, ConsumerStep(m, s).value)
  {
    if s.consumer.Removing? {
      FrontIsNextRecord(m, s);
      ConsumedExtendsVerdict(m.saIdHmpMap, s.taken, s.ring.slots[s.ring.head]);
    }
    hide VerdictOf, Consumed, Contents;
  }

  lemma StepKeepsInv(m: Monitor, s: State, a: Actor)
    requires RealRecords(m) && Inv(m, s)
    ensures Inv(m, Step(m, s, a))
  {
    hide VerdictOf, Consumed;
    match a
    case Producer =>
      if ProducerStep(m, s).Some? {
        ProducerKeepsInv(m, s);
      }
    case Consumer =>
      if ConsumerStep(m, s).Some? {
        ConsumerKeepsInv(m, s);
      }
    case WakeProducer =>
    case WakeConsumer =>
  }

  lemma {:induction false} ExecKeepsInv(m: Monitor, schedule: seq<Actor>)
    requires RealRecords(m)
    ensures Inv(m, Exec(m, schedule))
  {
    if schedule == [] {
      assert m.records[..0] == [];
    } else {
      ExecKeepsInv(m, schedule[..|schedule| - 1]);
      StepKeepsInv(m, Exec(m, schedule[..|schedule| - 1]), schedule[|schedule| - 1]);
    }
  }

  // ---------------------------------------------------------------- bounded FIFO

  /**
   Under every schedule the ring holds at most 100 records, the taken records are a prefix of the put records with the
   ring's content between them, and no put is ever dropped or overwritten, although no test is in the same critical
   section as what relies on it.
   */
  lemma RingIsBoundedFifo(m: Monitor, schedule: seq<Actor>)
    requires RealRecords(m)
    ensures var s := Exec(m, schedule);
            && RingOk(s.ring)
            && s.next <= |m.records|
            && s.put == m.records[..s.next]
            && s.put == s.taken + Contents(s.ring)
            && (s.producer.ProducerDone? ==> s.put == m.records)
  {
    ExecKeepsInv(m, schedule);
  }

  // ---------------------------------------------------------------- deadlock

  lemma StuckNeedsManyRecords(m: Monitor, schedule: seq<Actor>)
    requires RealRecords(m) && |m.records| <= MAX_SIZE
    ensures Inv(m, Exec(m, schedule)) && !Stuck(m, Exec(m, schedule))
  {
    ExecKeepsInv(m, schedule);
  }

  /** One actor after another, from a state that a schedule reached. */
  lemma ExecOneMore(m: Monitor, schedule: seq<Actor>, a: Actor)
    ensures Exec(m, schedule + [a]) == Step(m, Exec(m, schedule), a)
  {
    assert (schedule + [a])[..|schedule + [a]| - 1] == schedule;
  }

  /** The consumer has seen an empty queue and not yet locked it again; the producer is between two puts. */
  ghost predicate LateConsumer(m: Monitor, s: State, taken: nat, put: nat) {
    && Inv(m, s)
    && s.producer.CheckFull? && s.consumer.EmptySection?
    && !s.ring.isStop && !s.exit
    && |s.taken| == taken && s.next == put
  }

  lemma SizesMatch(m: Monitor, s: State)
    requires Inv(m, s)
    ensures |s.put| == s.next == |s.taken| + s.ring.size
  {
  }

  /** Producer and consumer in step: `n` records put and taken, and then the queue seen empty. */
  lemma {:induction false} TakeInStep(m: Monitor, n: nat) returns (schedule: seq<Actor>)
    requires RealRecords(m) && n <= |m.records|
    ensures var s := Exec(m, schedule);
            Inv(m, s) && s.producer.CheckFull? && s.consumer.Top? && !s.exit && |s.taken| == s.next == n
  {
    schedule := [];
    ExecKeepsInv(m, schedule);
    for i := 0 to n
      invariant var s := Exec(m, schedule);
                Inv(m, s) && s.producer.CheckFull? && s.consumer.Top? && !s.exit && |s.taken| == s.next == i
    {
      ghost var s := Exec(m, schedule);
      assert |s.put| == s.next;
      assert s.ring.size == 0;
      schedule := OnePutOneTake(m, schedule);
    }
  }

  lemma OnePutOneTake(m: Monitor, schedule: seq<Actor>) returns (longer: seq<Actor>)
    requires RealRecords(m)
    requires var s := Exec(m, schedule);
             && Inv(m, s) && s.producer.CheckFull? && s.consumer.Top? && !s.exit
             && s.ring.size == 0 && s.next < |m.records|
    ensures var s, t := Exec(m, schedule), Exec(m, longer);
            && Inv(m, t) && t.producer.CheckFull? && t.consumer.Top? && !t.exit
            && |t.taken| == |s.taken| + 1 && t.next == s.next + 1
  {
    hide VerdictOf, Consumed, Contents, Exec, Slot;
    longer := RunOne(m, schedule, Producer);
    longer := RunOne(m, longer, Producer);
    longer := RunOne(m, longer, Consumer);
    longer := RunOne(m, longer, Consumer);
    FrontIsNextRecord(m, Exec(m, longer));
    longer := RunOne(m, longer, Consumer);
  }

  lemma RunOne(m: Monitor, schedule: seq<Actor>, a: Actor) returns (longer: seq<Actor>)
    requires RealRecords(m) && Inv(m, Exec(m, schedule))
    ensures Exec(m, longer) == Step(m, Exec(m, schedule), a) && Inv(m, Exec(m, longer))
  {
    longer := schedule + [a];
    ExecOneMore(m, schedule, a);
    StepKeepsInv(m, Exec(m, schedule), a);
  }

  /** The producer runs ahead of a late consumer by up to a full queue. */
  lemma {:induction false} PutAhead(m: Monitor, schedule: seq<Actor>, k: nat) returns (longer: seq<Actor>)
    requires RealRecords(m)
    requires var s := Exec(m, schedule);
             LateConsumer(m, s, s.next, s.next) && s.next + k <= |m.records| && k <= MAX_SIZE
    ensures var s := Exec(m, schedule); LateConsumer(m, Exec(m, longer), s.next, s.next + k)
  {
    hide VerdictOf, Consumed, Contents, Exec, Slot;
    longer := schedule;
    ghost var n := Exec(m, schedule).next;
    for i := 0 to k
      invariant LateConsumer(m, Exec(m, longer), n, n + i)
    {
      SizesMatch(m, Exec(m, longer));
      longer := RunOne(m, longer, Producer);
      longer := RunOne(m, longer, Producer);
    }
  }

  lemma BecomeLate(m: Monitor, n: nat) returns (schedule: seq<Actor>)
    requires RealRecords(m) && n <= |m.records|
    ensures LateConsumer(m, Exec(m, schedule), n, n)
  {
    schedule := TakeInStep(m, n);
    ghost var s := Exec(m, schedule);
    assert |s.put| == s.next;
    schedule := RunOne(m, schedule, Consumer);
    schedule := RunOne(m, schedule, Consumer);
  }

  /** With more than 100 records both threads can end up waiting: the consumer misses the wakeups of a full queue. */
  lemma ManyRecordsCanDeadlock(m: Monitor) returns (schedule: seq<Actor>)
    requires RealRecords(m) && |m.records| > MAX_SIZE
    ensures Stuck(m, Exec(m, schedule))
  {
    schedule := BecomeLate(m, 0);
    schedule := PutAhead(m, schedule, MAX_SIZE);
    ghost var s := Exec(m, schedule);
    assert |s.put| == s.next;
    schedule := RunOne(m, schedule, Producer);
    schedule := RunOne(m, schedule, Producer);
    schedule := RunOne(m, schedule, Consumer);
  }

  ghost predicate CanDeadlock(m: Monitor) {
    exists schedule :: Stuck(m, Exec(m, schedule))
  }

  /** No schedule deadlocks if and only if at most 100 records are put. */
  lemma DeadlockFreeIffFewRecords(m: Monitor)
    requires RealRecords(m)
    ensures !CanDeadlock(m) <==> |m.records| <= 100
  {
    if |m.records| <= MAX_SIZE {
      forall schedule
        ensures !Stuck(m, Exec(m, schedule))
      {
        StuckNeedsManyRecords(m, schedule);
      }
    } else {
      var schedule := ManyRecordsCanDeadlock(m);
    }
  }

  // ---------------------------------------------------------------- lost records

  /**
   When both threads have ended, what was taken is a prefix of the records missing at most a full queue; whatever is
   missing was put after the consumer last saw the queue empty.
   */
  lemma FinishedTookPrefix(m: Monitor, schedule: seq<Actor>)
    requires RealRecords(m) && Finished(Exec(m, schedule))
    ensures var s := Exec(m, schedule);
            && s.put == m.records
            && |m.records| - MAX_SIZE <= |s.taken| <= |m.records|
            && s.taken == m.records[..|s.taken|]
            && (|s.taken| == |m.records| || |s.taken| == s.seen)
            && s.verdict == VerdictOf(m.saIdHmpMap, m.records[..|s.taken|])
  {
    ExecKeepsInv(m, schedule);
  }

  /** Pop tests for Stop without testing the size again, so any tail of at most a full queue can be left behind. */
  lemma TailCanBeLost(m: Monitor, k: nat) returns (schedule: seq<Actor>)
    requires RealRecords(m) && k <= |m.records| <= k + MAX_SIZE
    ensures Finished(Exec(m, schedule)) && |Exec(m, schedule).taken| == k
  {
    schedule := BecomeLate(m, k);
    schedule := PutAhead(m, schedule, |m.records| - k);
    schedule := RunOne(m, schedule, Producer);
    schedule := RunOne(m, schedule, Producer);
    schedule := RunOne(m, schedule, Consumer);
  }

  ghost predicate CanFinishWith(m: Monitor, k: nat) {
    exists schedule :: Finished(Exec(m, schedule)) && |Exec(m, schedule).taken| == k
  }

  /** Exactly the prefixes that miss at most 100 records can be what the consumer took. */
  lemma FinishableIff(m: Monitor, k: nat)
    requires RealRecords(m)
    ensures CanFinishWith(m, k) <==> k <= |m.records| <= k + MAX_SIZE
  {
    if CanFinishWith(m, k) {
      var schedule :| Finished(Exec(m, schedule)) && |Exec(m, schedule).taken| == k;
      FinishedTookPrefix(m, schedule);
    }
    if k <= |m.records| <= k + MAX_SIZE {
      var schedule := TailCanBeLost(m, k);
    }
  }

  /** Every record put is taken under every schedule if and only if there are no records. */
  lemma NothingLostIffNothingPut(m: Monitor)
    requires RealRecords(m)
    ensures (forall schedule :: Finished(Exec(m, schedule)) ==> Exec(m, schedule).taken == m.records)
            <==> m.records == []
  {
    if m.records == [] {
      forall schedule | Finished(Exec(m, schedule))
        ensures Exec(m, schedule).taken == m.records
      {
        FinishedTookPrefix(m, schedule);
      }
    } else {
      var schedule := TailCanBeLost(m, |m.records| - 1);
    }
  }

  // ---------------------------------------------------------------- the revert decision

  lemma VerdictGrows(saIdHmpMap: SaMap, records: seq<Record>, j: nat, k: nat)
    requires j <= k <= |records|
    ensures HasBadSa(saIdHmpMap, records[..j]) ==> HasBadSa(saIdHmpMap, records[..k])
    ensures HasFailedApp(records[..j]) ==> HasFailedApp(records[..k])
  {
    assert forall i :: 0 <= i < j ==> records[..j][i] == records[..k][i];
  }

  /** A revert, and its code, is always backed by records that were put: the monitor never reverts without a cause. */
  lemma RevertHasACause(m: Monitor, schedule: seq<Actor>)
    requires RealRecords(m) && Finished(Exec(m, schedule))
    ensures var v, all := Exec(m, schedule).verdict, VerdictOf(m.saIdHmpMap, m.records);
            (v.revert ==> all.revert) && (v.code == ERR_SAMGR_REVERT ==> all.code == ERR_SAMGR_REVERT)
  {
    FinishedTookPrefix(m, schedule);
    VerdictGrows(m.saIdHmpMap, m.records, |Exec(m, schedule).taken|, |m.records|);
    assert m.records[..|m.records|] == m.records;
  }

  /** The records no schedule can lose: all but the last 100. */
  ghost function SafePrefix(records: seq<Record>): seq<Record> {
    if |records| <= MAX_SIZE then [] else records[..|records| - MAX_SIZE]
  }

  /**
   The decision is the same under every schedule, and is the verdict on all records, if and only if the records that
   cannot be lost already yield that verdict. With at most 100 records: if and only if nothing calls for a revert.
   */
  lemma DecisionIsScheduleIndependentIff(m: Monitor)
    requires RealRecords(m)
    ensures (forall schedule :: Finished(Exec(m, schedule)) ==>
                                  Exec(m, schedule).verdict == VerdictOf(m.saIdHmpMap, m.records))
            <==> VerdictOf(m.saIdHmpMap, SafePrefix(m.records)) == VerdictOf(m.saIdHmpMap, m.records)
    ensures |m.records| <= MAX_SIZE ==> VerdictOf(m.saIdHmpMap, SafePrefix(m.records)) == NO_REVERT
  {
    var n := |m.records|;
    var low := if n <= MAX_SIZE then 0 else n - MAX_SIZE;
    assert SafePrefix(m.records) == m.records[..low] && m.records[..n] == m.records;
    if VerdictOf(m.saIdHmpMap, SafePrefix(m.records)) == VerdictOf(m.saIdHmpMap, m.records) {
      forall schedule | Finished(Exec(m, schedule))
        ensures Exec(m, schedule).verdict == VerdictOf(m.saIdHmpMap, m.records)
      {
        FinishedTookPrefix(m, schedule);
        VerdictGrows(m.saIdHmpMap, m.records, low, |Exec(m, schedule).taken|);
        VerdictGrows(m.saIdHmpMap, m.records, |Exec(m, schedule).taken|, n);
      }
    } else {
      var schedule := TailCanBeLost(m, low);
      FinishedTookPrefix(m, schedule);
      assert Exec(m, schedule).verdict != VerdictOf(m.saIdHmpMap, m.records);
    }
  }
}
