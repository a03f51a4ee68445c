/**
 What the two threads of the revert monitor compute: services/module_update/service/src/module_update_producer.cpp and
 module_update_consumer.cpp in the same directory. System parameters are keyed by what they stand for.
 */
module MonitorThreads {
  import opened Common
  import opened ModuleUpdateQueues
  import opened RevertMonitor

  const UNLOAD := "unload"
  const SA_ABNORMAL := "true"
  const SA_NORMAL := "false"
  const BMS_REVERT := "revert"
  const NOTIFY_BMS_REVERT := "revert_bms"
  const BMS_INSTALL_FAIL := "false"
  const BOOT_SUCCESS_VALUE := "true"

  datatype Param = SaStart | BmsStartInstall | BootCompleted | SaStatus(saId: int32) | BmsResult(moduleName: string)

  type Params = map<Param, string>

  /** GetParameter with an empty default; None when it reports an error. */
  function Get(params: Params, unreadable: set<Param>, p: Param): Option<string> {
    if p in unreadable then None else Some(if p in params then params[p] else "")
  }

  predicate HasPrefix(s: string, prefix: string) {
    |prefix| <= |s| && s[..|prefix|] == prefix
  }

  /** The inputs of the producer. */
  datatype Inputs = Inputs(params: Params, unreadable: set<Param>, saIdHmpMap: SaMap, moduleNames: set<string>)

  ghost predicate BootIncomplete(x: Inputs) {
    var boot := Get(x.params, x.unreadable, BootCompleted);
    boot.Some? && boot.value != BOOT_SUCCESS_VALUE
  }

  ghost predicate AbnormalSa(x: Inputs, saId: int32) {
    && saId in x.saIdHmpMap
    && Get(x.params, x.unreadable, SaStatus(saId)) in {Some(LOAD_FAIL), Some(CRASH)}
    && BootIncomplete(x)
  }

  ghost predicate FailedApp(x: Inputs, moduleName: string) {
    var r := Get(x.params, x.unreadable, BmsResult(moduleName));
    moduleName in x.moduleNames && r.Some? && HasPrefix(r.value, BMS_INSTALL_FAIL)
  }

  ghost predicate SaRecord(x: Inputs, r: Record) {
    AbnormalSa(x, r.id) && Some(r.status) == Get(x.params, x.unreadable, SaStatus(r.id))
  }

  ghost predicate AppRecord(x: Inputs, r: Record) {
    r.id == APP_SERIAL_NUMBER && FailedApp(x, r.status)
  }

  /** A service status that is reset once it has been looked at. */
  ghost predicate Handled(x: Inputs, p: Param) {
    && p.SaStatus? && p.saId in x.saIdHmpMap && p !in x.unreadable && BootCompleted !in x.unreadable
    && Get(x.params, {}, p) in {Some(UNLOAD), Some(LOAD_FAIL), Some(CRASH)}
  }

  ghost predicate SaStarted(x: Inputs) {
    Get(x.params, x.unreadable, SaStart) == Some(SA_ABNORMAL)
  }

  ghost predicate BmsStarted(x: Inputs) {
    Get(x.params, x.unreadable, BmsStartInstall) == Some(BMS_REVERT)
  }

  /** The records of one run of the producer: one for each abnormal service and each failed application. */
  ghost predicate Produced(x: Inputs, records: seq<Record>) {
    && (forall r :: r in records <==> (SaStarted(x) && SaRecord(x, r)) || (BmsStarted(x) && AppRecord(x, r)))
    && |records| <= |x.saIdHmpMap.Keys| + |x.moduleNames|
  }

  ghost predicate NamedBadSa(x: Inputs) {
    SaStarted(x) && exists saId: int32 :: saId != APP_SERIAL_NUMBER && AbnormalSa(x, saId) && x.saIdHmpMap[saId] != ""
  }

  /** A failed application, or an abnormal service whose id is the one reserved for applications. */
  ghost predicate BadApp(x: Inputs) {
    || (BmsStarted(x) && exists moduleName :: FailedApp(x, moduleName))
    || (SaStarted(x) && AbnormalSa(x, APP_SERIAL_NUMBER))
  }

  ghost function Expected(x: Inputs): Verdict {
    Verdict(NamedBadSa(x) || BadApp(x), if NamedBadSa(x) then ERR_SAMGR_REVERT else ERR_BMS_REVERT)
  }

  /** A module counts as failed exactly when its readable result starts with the failure word. */
  lemma FailedAppIff(x: Inputs, moduleName: string)
    ensures FailedApp(x, moduleName) <==>
            && moduleName in x.moduleNames && BmsResult(moduleName) !in x.unreadable
            && exists rest :: BmsResult(moduleName) in x.params && x.params[BmsResult(moduleName)] == "false" + rest
  {
    var p := BmsResult(moduleName);
    if p in x.params {
      var value := x.params[p];
      if HasPrefix(value, BMS_INSTALL_FAIL) {
        assert value == "false" + value[5..];
      }
    }
  }

  /** A service gets a record exactly while the boot is incomplete and its parameter says it crashed or did not load. */
  lemma SaRecordIff(x: Inputs, r: Record)
    ensures SaRecord(x, r) <==>
            && r.id in x.saIdHmpMap && SaStatus(r.id) !in x.unreadable && BootCompleted !in x.unreadable
            && r.status in {"crash", "loadfail"}
            && SaStatus(r.id) in x.params && x.params[SaStatus(r.id)] == r.status
            && !(BootCompleted in x.params && x.params[BootCompleted] == "true")
  {
  }

  /** A status is reset exactly when it names one of the three states and the boot status could be read. */
  lemma HandledIff(x: Inputs, saId: int32)
    ensures Handled(x, SaStatus(saId)) <==>
            && saId in x.saIdHmpMap && SaStatus(saId) !in x.unreadable && BootCompleted !in x.unreadable
            && SaStatus(saId) in x.params && x.params[SaStatus(saId)] in {"unload", "loadfail", "crash"}
  {
  }

  /** A device whose services run and whose results are unset or good is never reverted. */
  lemma HealthyDeviceIsLeftAlone(x: Inputs)
    requires forall moduleName :: moduleName in x.moduleNames && BmsResult(moduleName) in x.params ==>
               x.params[BmsResult(moduleName)] in {"", "true"}
    requires forall saId :: saId in x.saIdHmpMap && SaStatus(saId) in x.params ==>
               x.params[SaStatus(saId)] !in {"crash", "loadfail"}
    ensures Expected(x) == NO_REVERT
  {
    forall moduleName
      ensures !FailedApp(x, moduleName)
    {
      FailedAppIff(x, moduleName);
    }
    forall saId: int32
      ensures !AbnormalSa(x, saId)
    {
      var status := Get(x.params, x.unreadable, SaStatus(saId));
      if status.Some? {
        SaRecordIff(x, Record(saId, status.value));
      }
    }
    hide FailedApp, AbnormalSa;
  }

  /** A crashed service of a named module calls for a revert by the service code, before any failed application. */
  lemma CrashIsExpectedToRevert(x: Inputs, saId: int32)
    requires saId != APP_SERIAL_NUMBER && saId in x.saIdHmpMap && x.saIdHmpMap[saId] != ""
    requires x.unreadable == {} && SaStart in x.params && x.params[SaStart] == "true"
    requires SaStatus(saId) in x.params && x.params[SaStatus(saId)] == "crash" && BootCompleted !in x.params
    ensures Expected(x) == Verdict(true, ERR_SAMGR_REVERT)
  {
    assert AbnormalSa(x, saId);
  }

  /** A failed application alone calls for a revert by the bundle code. */
  lemma FailedAppIsExpectedToRevert(x: Inputs, moduleName: string)
    requires moduleName in x.moduleNames && x.unreadable == {} && SaStart !in x.params
    requires BmsStartInstall in x.params && x.params[BmsStartInstall] == "revert"
    requires BmsResult(moduleName) in x.params && x.params[BmsResult(moduleName)] == "false"
    ensures Expected(x) == Verdict(true, ERR_BMS_REVERT)
  {
    assert "false" == "false" + "";
    FailedAppIff(x, moduleName);
  }

  class ModuleUpdateProducer {
    var params: Params
    const unreadable: set<Param>
    const saIdHmpMap: SaMap
    const moduleNames: set<string>
    var records: seq<Record>

    constructor (x: Inputs)
      ensures Now() == x && records == []
    {
      params, unreadable, saIdHmpMap, moduleNames, records := x.params, x.unreadable, x.saIdHmpMap, x.moduleNames, [];
    }

    ghost function Now(): Inputs
      reads this
    {
      Inputs(params, unreadable, saIdHmpMap, moduleNames)
    }

    /** Put every abnormal service while the boot is incomplete, and reset each status that was handled. */
    method AddAbnormalSa()
      modifies this
      ensures old(records) <= records && |records| <= |old(records)| + |saIdHmpMap.Keys|
      ensures forall r :: r in records[|old(records)|..] <==> SaRecord(old(Now()), r)
      ensures forall p :: Get(params, {}, p) == if Handled(old(Now()), p) then Some("") else old(Get(params, {}, p))
    {
      hide SaRecord, Handled, Get;
      ghost var x := Now();
      OnlyListedServices(x);
      var ids := saIdHmpMap.Keys;
      while ids != {}
        invariant ids <= saIdHmpMap.Keys
        invariant old(records) <= records && |records| + |ids| <= |old(records)| + |saIdHmpMap.Keys|
        invariant forall r :: r in records[|old(records)|..] <==> SaRecord(x, r) && r.id !in ids
        invariant forall p :: Get(params, {}, p) ==
                    if Handled(x, p) && p.SaStatus? && p.saId !in ids then Some("") else Get(x.params, {}, p)
      {
        var saId :| saId in ids;
        var status := Get(params, unreadable, SaStatus(saId));
        var boot := Get(params, unreadable, BootCompleted);
        OneService(x, params, saId, status, boot);
        ids := ids - {saId};
        if status.None? || status.value !in {UNLOAD, LOAD_FAIL, CRASH} {
          continue;
        }
        if boot.None? {
          continue;
        }
        if boot.value != BOOT_SUCCESS_VALUE && (status.value == LOAD_FAIL || status.value == CRASH) {
          ghost var tail := records[|old(records)|..];
          records := records + [Record(saId, status.value)];
          assert records[|old(records)|..] == tail + [Record(saId, status.value)];
        }
        ResetStatus(saId);
      }
    }

    method ResetStatus(saId: int32)
      modifies this`params
      ensures forall p :: Get(params, {}, p) == if p == SaStatus(saId) then Some("") else old(Get(params, {}, p))
    {
      params := params[SaStatus(saId) := ""];
    }

    method AddAbnormalApp()
      modifies this`records
      ensures old(records) <= records && |records| <= |old(records)| + |moduleNames|
      ensures forall r :: r in records[|old(records)|..] <==> AppRecord(Now(), r)
    {
      var names := moduleNames;
      while names != {}
        invariant names <= moduleNames
        invariant old(records) <= records && |records| + |names| <= |old(records)| + |moduleNames|
        invariant forall r :: r in records[|old(records)|..] <==> AppRecord(Now(), r) && r.status !in names
      {
        var moduleName :| moduleName in names;
        names := names - {moduleName};
        var result := Get(params, unreadable, BmsResult(moduleName));
        if result.None? || !HasPrefix(result.value, BMS_INSTALL_FAIL) {
          continue;
        }
        var tail := records[|old(records)|..];
        records := records + [Record(APP_SERIAL_NUMBER, moduleName)];
        assert records[|old(records)|..] == tail + [Record(APP_SERIAL_NUMBER, moduleName)];
      }
    }

    /** Reset both start parameters. */
    method ResetStart()
      modifies this`params
      ensures forall p :: Get(params, {}, p) == if p == SaStart then Some(SA_NORMAL)
                                                else if p == BmsStartInstall then Some(NOTIFY_BMS_REVERT)
                                                else old(Get(params, {}, p))
    {
      params := params[SaStart := SA_NORMAL][BmsStartInstall := NOTIFY_BMS_REVERT];
    }

    /**
     The records handed to Put, up to the Stop. With an unreadable start parameter there is neither; when an exit was
     already requested there are no records.
     */
    method Run(exit: bool) returns (stops: bool)
      requires records == []
      modifies this
      ensures stops <==> SaStart !in unreadable && BmsStartInstall !in unreadable
      ensures !stops || exit ==> unchanged(this)
      ensures stops && !exit ==> Produced(old(Now()), records)
      ensures stops && !exit ==> && Get(params, {}, SaStart) == Some(SA_NORMAL)
                                 && Get(params, {}, BmsStartInstall) == Some(NOTIFY_BMS_REVERT)
      ensures stops && !exit ==> forall p :: p != SaStart && p != BmsStartInstall ==>
                                               Get(params, {}, p) ==
                                               if SaStarted(old(Now())) && Handled(old(Now()), p) then Some("")
                                               else old(Get(params, {}, p))
    {
      ghost var x := Now();
      var saValue := Get(params, unreadable, SaStart);
      if saValue.None? {
        return false;
      }
      var appValue := Get(params, unreadable, BmsStartInstall);
      if appValue.None? {
        return false;
      }
      if exit {
        return true;
      }
      assert SaStarted(x) <==> saValue.value == SA_ABNORMAL;
      assert BmsStarted(x) <==> appValue.value == BMS_REVERT;
      hide Get, SaRecord, AppRecord, SaStarted, BmsStarted, Handled;
      ResetStart();
      SameElsewhere(x, Now());
      if saValue.value == SA_ABNORMAL {
        AddAbnormalSa();
        assert records[0..] == records;
        SameResults(x, Now());
      }
      ghost var services := records;
      if appValue.value == BMS_REVERT {
        AddAbnormalApp();
        assert records == services + records[|services|..];
      }
      return true;
    }
  }

  /** What one service contributes, read before its status is reset. */
  lemma OneService(x: Inputs, params: Params, saId: int32, status: Option<string>, boot: Option<string>)
    requires saId in x.saIdHmpMap
    requires Get(params, {}, SaStatus(saId)) == Get(x.params, {}, SaStatus(saId))
    requires Get(params, {}, BootCompleted) == Get(x.params, {}, BootCompleted)
    requires status == Get(params, x.unreadable, SaStatus(saId)) && boot == Get(params, x.unreadable, BootCompleted)
    ensures forall r: Record :: r.id == saId ==>
              (SaRecord(x, r) <==> && status in {Some(LOAD_FAIL), Some(CRASH)} && r.status == status.value
                                   && boot.Some? && boot.value != BOOT_SUCCESS_VALUE)
    ensures Handled(x, SaStatus(saId)) <==> status in {Some(UNLOAD), Some(LOAD_FAIL), Some(CRASH)} && boot.Some?
  {
  }

  lemma OnlyListedServices(x: Inputs)
    ensures forall r :: SaRecord(x, r) ==> r.id in x.saIdHmpMap
    ensures forall p :: Handled(x, p) ==> p.SaStatus? && p.saId in x.saIdHmpMap
  {
  }

  /** Other start parameters change neither the records called for nor what is handled. */
  lemma SameElsewhere(x: Inputs, y: Inputs)
    requires x.unreadable == y.unreadable && x.saIdHmpMap == y.saIdHmpMap && x.moduleNames == y.moduleNames
    requires forall p: Param :: p != SaStart && p != BmsStartInstall ==> Get(x.params, {}, p) == Get(y.params, {}, p)
    ensures forall r :: SaRecord(x, r) <==> SaRecord(y, r)
    ensures forall r :: AppRecord(x, r) <==> AppRecord(y, r)
    ensures forall p :: Handled(x, p) <==> Handled(y, p)
  {
    forall p: Param | p != SaStart && p != BmsStartInstall
      ensures Get(x.params, x.unreadable, p) == Get(y.params, y.unreadable, p)
    {
      assert Get(x.params, {}, p) == Get(y.params, {}, p);
    }
  }

  /** Resetting service statuses does not change what the application results say. */
  lemma SameResults(x: Inputs, y: Inputs)
    requires x.unreadable == y.unreadable && x.moduleNames == y.moduleNames
    requires forall p: Param ::
               p != SaStart && p != BmsStartInstall && !Handled(x, p) ==> Get(x.params, {}, p) == Get(y.params, {}, p)
    ensures forall r :: AppRecord(x, r) <==> AppRecord(y, r)
  {
    forall p: Param | p.BmsResult?
      ensures Get(x.params, x.unreadable, p) == Get(y.params, y.unreadable, p)
    {
      assert Get(x.params, {}, p) == Get(y.params, {}, p);
    }
  }

  // ---------------------------------------------------------------- the consumer

  /** The consumer loop on a stopped queue: Pop returns what is left and then the stop marker. */
  method ConsumeStopped(queue: ModuleUpdateQueue, saIdHmpMap: SaMap) returns (v: Verdict)
    requires RingOk(queue.Fields()) && queue.isStop && STOP_MARKER !in Contents(queue.Fields())
    modifies queue, queue.queue
    ensures RingOk(queue.Fields()) && Contents(queue.Fields()) == []
    ensures v == VerdictOf(saIdHmpMap, old(Contents(queue.Fields())))
  {
    hide Slot, Removed;
    v := NO_REVERT;
    ghost var all, taken := Contents(queue.Fields()), [];
    while !queue.IsEmpty()
      invariant RingOk(queue.Fields()) && queue.isStop
      invariant all == taken + Contents(queue.Fields())
      invariant v == VerdictOf(saIdHmpMap, taken)
      decreases queue.size
    {
      ghost var left := Contents(queue.Fields());
      var r := queue.Remove();
      assert all == (taken + [r]) + Contents(queue.Fields());
      ConsumedExtendsVerdict(saIdHmpMap, taken, r);
      v := Consumed(saIdHmpMap, v, r);
      taken := taken + [r];
    }
    assert taken == all;
  }

  // ---------------------------------------------------------------- what the parameters call for

  /** The records carry exactly what the parameters call for, and none of them is mistaken for the stop marker. */
  lemma RecordsCarryExpected(x: Inputs, records: seq<Record>)
    requires Produced(x, records)
    ensures STOP_MARKER !in records
    ensures VerdictOf(x.saIdHmpMap, records) == Expected(x)
  {
    if NamedBadSa(x) {
      var saId: int32 :| saId != APP_SERIAL_NUMBER && AbnormalSa(x, saId) && x.saIdHmpMap[saId] != "";
      var r := Record(saId, Get(x.params, x.unreadable, SaStatus(saId)).value);
      assert SaRecord(x, r);
      assert r in records;
    }
    if BmsStarted(x) && exists moduleName :: FailedApp(x, moduleName) {
      var moduleName :| FailedApp(x, moduleName);
      assert AppRecord(x, Record(APP_SERIAL_NUMBER, moduleName));
      assert Record(APP_SERIAL_NUMBER, moduleName) in records;
    }
    if SaStarted(x) && AbnormalSa(x, APP_SERIAL_NUMBER) {
      var r := Record(APP_SERIAL_NUMBER, Get(x.params, x.unreadable, SaStatus(APP_SERIAL_NUMBER)).value);
      assert SaRecord(x, r);
      assert r in records;
    }
    if HasFailedApp(records) {
      var i :| 0 <= i < |records| && records[i].id == APP_SERIAL_NUMBER;
      assert records[i] in records;
    }
    if HasBadSa(x.saIdHmpMap, records) {
      var i :| 0 <= i < |records| && IsBadSa(x.saIdHmpMap, records[i]);
      assert records[i] in records;
    }
  }

  /**
   With no more records than the queue holds, no schedule gets stuck, a revert always has its
   cause in the parameters, and the decision is the expected one under every schedule if and only if no revert is
   expected: any cause at all can be missed.
   */
  lemma MonitorDecides(x: Inputs, records: seq<Record>)
    requires Produced(x, records) && |records| <= MAX_SIZE
    ensures var m := Monitor(records, x.saIdHmpMap);
            && !CanDeadlock(m)
            && (forall schedule :: Finished(Exec(m, schedule)) && Exec(m, schedule).verdict.revert ==>
                                     Expected(x).revert)
            && ((forall schedule :: Finished(Exec(m, schedule)) ==> Exec(m, schedule).verdict == Expected(x))
                <==> !Expected(x).revert)
  {
    var m := Monitor(records, x.saIdHmpMap);
    RecordsCarryExpected(x, records);
    DeadlockFreeIffFewRecords(m);
    DecisionIsScheduleIndependentIff(m);
    forall schedule | Finished(Exec(m, schedule)) && Exec(m, schedule).verdict.revert
      ensures Expected(x).revert
    {
      RevertHasACause(m, schedule);
    }
  }
}
