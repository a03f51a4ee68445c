/** Progress reporting: frameworks/status_manager/src/status_manager.cpp. */
module StatusManagers {
  import opened Common

  datatype UpdateStatus = INIT | ONGOING | FAILED | SUCCESSFUL | CANCEL | RETRY_SUCCESSFUL | BUSY

  /** One call of OnUpgradeProgress. */
  datatype Event = Event(status: UpdateStatus, percent: int, message: string)

  /** The manager's fields, and everything the callback has been given. */
  datatype Progress = Progress(status: UpdateStatus, percent: int, registered: bool, trace: seq<Event>)

  ghost function Updated(p: Progress, status: UpdateStatus, percent: int, message: string): Progress {
    if !p.registered || (p.status == status && percent == p.percent) then p
    else
      var shown :=
        if status.SUCCESSFUL? || status.FAILED? then 100
        else if 0 <= percent <= 100 && percent > p.percent then percent
        else p.percent;
      Progress(status, shown, true, p.trace + [Event(status, shown, message)])
  }

  ghost predicate PercentOk(p: Progress) {
    0 <= p.percent <= 100
  }

  /** Shown percentages never fall and stay within 0 to 100. */
  ghost predicate NonDecreasing(trace: seq<Event>) {
    && (forall i :: 0 <= i < |trace| ==> 0 <= trace[i].percent <= 100)
    && (forall i, j :: 0 <= i < j < |trace| ==> trace[i].percent <= trace[j].percent)
  }

  /** With a callback, progress that rises is shown as it is, the end as 100, and no percentage is taken back. */
  lemma ProgressIsShown(p: Progress, status: UpdateStatus, percent: int, message: string)
    requires p.registered && (status != p.status || percent != p.percent)
    ensures var u := Updated(p, status, percent, message);
            && u.trace == p.trace + [Event(status, u.percent, message)] && u.status == status
            && (status in {SUCCESSFUL, FAILED} ==> u.percent == 100)
            && (status !in {SUCCESSFUL, FAILED} && p.percent < percent <= 100 && 0 <= percent ==> u.percent == percent)
            && (status !in {SUCCESSFUL, FAILED} && percent <= p.percent ==> u.percent == p.percent)
  {
  }

  /** A state that was just shown is not shown again, and without a callback nothing is. */
  lemma RepeatsAreDropped(p: Progress, status: UpdateStatus, percent: int, message: string)
    ensures var u := Updated(p, status, percent, message);
            Updated(u, u.status, u.percent, message) == u && (!p.registered ==> u == p)
  {
  }

  class StatusManager {
    var updateStatus: UpdateStatus
    var percent: int
    var registered: bool
    ghost var trace: seq<Event>

    ghost function Now(): Progress
      reads this
    {
      Progress(updateStatus, percent, registered, trace)
    }

    constructor ()
      ensures Now() == Progress(INIT, 0, false, [])
    {
      updateStatus, percent, registered, trace := INIT, 0, false, [];
    }

    /** Registering a callback tells it the present state at once. */
    method SetUpdateCallback(present: bool) returns (ret: int)
      modifies this
      ensures ret == if present then 0 else -1
      ensures Now() == if !present then old(Now())
                       else old(Now()).(registered := true, trace := old(trace) + [Event(updateStatus, percent, "")])
    {
      if !present {
        return -1;
      }
      registered := true;
      trace := trace + [Event(updateStatus, percent, "")];
      return 0;
    }

    method UpdateCallback(status: UpdateStatus, value: int, message: string)
      modifies this
      ensures Now() == Updated(old(Now()), status, value, message)
    {
      if !registered {
        return;
      }
      if updateStatus == status && value == percent {
        return;
      }
      if status.SUCCESSFUL? || status.FAILED? {
        percent := 100;
      } else if value >= 0 && value <= 100 && value > percent {
        percent := value;
      }
      updateStatus := status;
      trace := trace + [Event(updateStatus, percent, message)];
    }

    method SetUpdatePercent(value: int)
      modifies this
      ensures Now() == Updated(old(Now()), old(updateStatus), value, "")
    {
      UpdateCallback(updateStatus, value, "");
    }
  }
}
