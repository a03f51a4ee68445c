/**
 Running actions one after another: frameworks/action_processer/src/action_processer.cpp.

 An action is a name here; what it does is the environment's choice of calls. CompletedAction releases the lock before
 StartNextAction takes it again, so the two are separate steps between which other calls can come.
 */
module ActionProcessers {
  import opened Common
  import opened StatusManagers

  datatype ErrCode = SYS_UPDATE_SUCCESS | SYS_UPDATE_RETRY_SUCCESS | SYS_INSTALL_CANCEL | OtherError(code: int)

  type Action = string

  predicate Succeeds(e: ErrCode) {
    e.SYS_UPDATE_SUCCESS? || e.SYS_UPDATE_RETRY_SUCCESS?
  }

  /**
   `reported` is the code of a completed action whose callback has not yet started the next; the last three fields are
   history.
   */
  datatype State = State(
    queue: seq<Action>,
    current: Option<Action>,
    running: bool,
    reported: Option<ErrCode>,
    progress: Progress,
    performed: seq<Action>,
    codes: seq<ErrCode>)

  /** Calls on the processer; Percent is the running action's own progress, NextAction the second half of its report. */
  datatype Call =
    | AddAction(action: Option<Action>)
    | Start
    | Stop
    | Percent(value: int)
    | Report(code: ErrCode, message: string)
    | NextAction

  ghost function AfterAdd(s: State, action: Option<Action>): State {
    if s.running || action.None? then s else s.(queue := s.queue + [action.value])
  }

  ghost function AfterStart(s: State): State {
    if s.running || s.queue == [] then s
    else
      s.(running := true,
         progress := Updated(s.progress, ONGOING, 0, ""),
         current := Some(s.queue[0]),
         queue := s.queue[1..],
         performed := s.performed + [s.queue[0]])
  }

  ghost function AfterReport(s: State, code: ErrCode, message: string): State {
    if s.current.None? then s
    else
      var t := s.(current := None, codes := s.codes + [code]);
      if Succeeds(code) then t.(reported := Some(code))
      else
        var status := if code.SYS_INSTALL_CANCEL? then CANCEL else FAILED;
        t.(running := false, progress := Updated(s.progress, status, 100, message), queue := [])
  }

  ghost function AfterNext(s: State): State {
    if s.reported.None? then s
    else if s.queue == [] then
      var status := if s.reported.value.SYS_UPDATE_RETRY_SUCCESS? then RETRY_SUCCESSFUL else SUCCESSFUL;
      s.(running := false, reported := None, progress := Updated(s.progress, status, 100, ""))
    else
      s.(reported := None,
         current := Some(s.queue[0]),
         queue := s.queue[1..],
         performed := s.performed + [s.queue[0]])
  }

  /** Actions that do not accept termination: Stop finds no action to end. Only a running action shows progress. */
  ghost function Step(s: State, call: Call): State {
    match call
    case AddAction(action) => AfterAdd(s, action)
    case Start => AfterStart(s)
    case Stop => s
    case Percent(value) =>
      if s.current.Some? then s.(progress := Updated(s.progress, s.progress.status, value, "")) else s
    case Report(code, message) => AfterReport(s, code, message)
    case NextAction => AfterNext(s)
  }

  ghost function Run(s: State, calls: seq<Call>): State {
    if calls == [] then s else Step(Run(s, calls[..|calls| - 1]), calls[|calls| - 1])
  }

  // ---------------------------------------------------------------- the processer

  class ActionProcesser {
    const statusManager: StatusManager
    var actionQue: seq<Action>
    var curAction: Option<Action>
    var isRunning: bool
    var reported: Option<ErrCode>
    ghost var performed: seq<Action>
    ghost var codes: seq<ErrCode>

    ghost function Now(): State
      reads this, statusManager
    {
      State(actionQue, curAction, isRunning, reported, statusManager.Now(), performed, codes)
    }

    constructor (statusManager: StatusManager)
      ensures this.statusManager == statusManager
      ensures Now() == State([], None, false, None, statusManager.Now(), [], [])
    {
      this.statusManager := statusManager;
      actionQue, curAction, isRunning, reported, performed, codes := [], None, false, None, [], [];
    }

    method AddAction(action: Option<Action>)
      modifies this
      ensures Now() == AfterAdd(old(Now()), action)
    {
      if isRunning || action.None? {
        return;
      }
      actionQue := actionQue + [action.value];
    }

    method Start()
      modifies this, statusManager
      ensures Now() == AfterStart(old(Now()))
    {
      if isRunning || actionQue == [] {
        return;
      }
      isRunning := true;
      statusManager.UpdateCallback(ONGOING, 0, "");
      curAction := Some(actionQue[0]);
      actionQue := actionQue[1..];
      performed := performed + [curAction.value];
    }

    /** `terminates` is the answer of the current action to TerminateAction. */
    method Stop(terminates: bool) returns (ret: bool)
      modifies this
      ensures ret == (old(isRunning) && old(curAction).Some? && terminates)
      ensures Now() == if ret then old(Now()).(running := false, queue := []) else old(Now())
    {
      if !isRunning {
        return false;
      }
      ret := false;
      if curAction.Some? {
        ret := terminates;
      }
      if !ret {
        return false;
      }
      isRunning := false;
      actionQue := [];
    }

    method CompletedAction(errCode: ErrCode, errStr: string)
      modifies this, statusManager
      ensures Now() == AfterReport(old(Now()), errCode, errStr)
    {
      if curAction.None? {
        return;
      }
      curAction := None;
      codes := codes + [errCode];
      if !Succeeds(errCode) {
        isRunning := false;
        var retStatus := if errCode.SYS_INSTALL_CANCEL? then CANCEL else FAILED;
        statusManager.UpdateCallback(retStatus, 100, errStr);
        actionQue := [];
        return;
      }
      reported := Some(errCode);
    }

    method StartNextAction()
      modifies this, statusManager
      ensures Now() == AfterNext(old(Now()))
    {
      if reported.None? {
        return;
      }
      var errCode := reported.value;
      reported := None;
      if actionQue == [] {
        isRunning := false;
        statusManager.UpdateCallback(
          if errCode.SYS_UPDATE_RETRY_SUCCESS? then RETRY_SUCCESSFUL else SUCCESSFUL, 100, "");
        return;
      }
      curAction := Some(actionQue[0]);
      actionQue := actionQue[1..];
      performed := performed + [curAction.value];
    }
  }

  /** Any sequence of calls, made on the objects; actions that do not accept termination answer Stop with false. */
  method PerformCalls(processer: ActionProcesser, calls: seq<Call>)
    modifies processer, processer.statusManager
    ensures processer.Now() == Run(old(processer.Now()), calls)
  {
    ghost var start := processer.Now();
    for i := 0 to |calls|
      invariant processer.Now() == Run(start, calls[..i])
    {
      assert calls[..i + 1][..i] == calls[..i];
      match calls[i] {
        case AddAction(action) => processer.AddAction(action);
        case Start => processer.Start();
        case Stop => var _ := processer.Stop(false);
        case Percent(value) =>
          if processer.curAction.Some? {
            processer.statusManager.SetUpdatePercent(value);
          }
        case Report(code, message) => processer.CompletedAction(code, message);
        case NextAction => processer.StartNextAction();
      }
    }
    assert calls[..|calls|] == calls;
  }

  // ---------------------------------------------------------------- one run

  ghost predicate IsTerminal(status: UpdateStatus) {
    status.SUCCESSFUL? || status.RETRY_SUCCESSFUL? || status.FAILED? || status.CANCEL?
  }

  ghost predicate NothingTerminal(trace: seq<Event>) {
    forall i :: 0 <= i < |trace| ==> !IsTerminal(trace[i].status)
  }

  /** A processer that is ready to start `actions`, its callback registered and no run in its history. */
  ghost predicate Ready(s: State, actions: seq<Action>) {
    && s.queue == actions != []
    && s.current.None? && !s.running && s.reported.None?
    && s.performed == [] && s.codes == []
    && TraceOk(s.progress) && NothingTerminal(s.progress.trace)
  }

  ghost predicate AllSucceed(codes: seq<ErrCode>) {
    forall i :: 0 <= i < |codes| ==> Succeeds(codes[i])
  }

  /** The status a finished run reports for its codes. */
  ghost function FinalStatus(codes: seq<ErrCode>): UpdateStatus
  {
    var last := if codes == [] then SYS_UPDATE_SUCCESS else codes[|codes| - 1];
    if last.SYS_UPDATE_SUCCESS? then SUCCESSFUL
    else if last.SYS_UPDATE_RETRY_SUCCESS? then RETRY_SUCCESSFUL
    else if last.SYS_INSTALL_CANCEL? then CANCEL
    else FAILED
  }

  ghost predicate TraceOk(p: Progress) {
    && p.registered && PercentOk(p) && NonDecreasing(p.trace)
    && (p.trace != [] ==> p.trace[|p.trace| - 1].percent <= p.percent)
  }

  /** While running: in order, one at a time, every earlier action succeeded. */
  ghost predicate Going(s: State, actions: seq<Action>) {
    && s.running
    && s.performed != [] && s.performed + s.queue == actions
    && AllSucceed(s.codes)
    && TraceOk(s.progress) && s.progress.status.ONGOING? && NothingTerminal(s.progress.trace)
    && (if s.current.Some?
        then s.reported.None? && |s.codes| + 1 == |s.performed| && s.current.value == s.performed[|s.performed| - 1]
        else s.reported.Some? && |s.codes| == |s.performed| && s.reported.value == s.codes[|s.codes| - 1])
  }

  /** Afterwards: all succeeded, or the first failure discarded the rest; the last event alone is terminal. */
  ghost predicate Ended(s: State, actions: seq<Action>) {
    && !s.running && s.current.None? && s.reported.None? && s.queue == []
    && CodesFit(s.performed, s.codes, actions)
    && EndsWith(s.progress, FinalStatus(s.codes))
  }

  ghost predicate CodesFit(performed: seq<Action>, codes: seq<ErrCode>, actions: seq<Action>) {
    && performed != [] && performed <= actions && |codes| == |performed|
    && AllSucceed(codes[..|codes| - 1])
    && (Succeeds(codes[|codes| - 1]) ==> performed == actions)
  }

  ghost predicate EndsWith(p: Progress, status: UpdateStatus) {
    && TraceOk(p)
    && p.trace != []
    && p.trace[|p.trace| - 1].status == status
    && NothingTerminal(p.trace[..|p.trace| - 1])
  }

  /** Calls that do not set up a new run: actions may be added while this one runs, when they are ignored. */
  ghost predicate OneRun(s: State, calls: seq<Call>) {
    forall i :: 0 <= i < |calls| && calls[i].AddAction? && calls[i].action.Some? ==> Run(s, calls[..i]).running
  }

  lemma UpdateKeepsTrace(p: Progress, status: UpdateStatus, percent: int, message: string)
    requires TraceOk(p)
    ensures TraceOk(Updated(p, status, percent, message))
    ensures NothingTerminal(p.trace) && !IsTerminal(status) ==>
              NothingTerminal(Updated(p, status, percent, message).trace)
  {
  }

  /** The last call of a run appends its terminal event. */
  lemma EndingEvent(p: Progress, status: UpdateStatus, message: string)
    requires TraceOk(p) && p.status.ONGOING? && NothingTerminal(p.trace) && IsTerminal(status)
    ensures EndsWith(Updated(p, status, 100, message), status)
  {
    UpdateKeepsTrace(p, status, 100, message);
    hide TraceOk;
    var t := Updated(p, status, 100, message).trace;
    assert t[..|t| - 1] == p.trace;
  }

  lemma AllSucceedExtends(codes: seq<ErrCode>, code: ErrCode)
    requires AllSucceed(codes)
    ensures (codes + [code])[..|codes|] == codes && (codes + [code])[|codes|] == code
    ensures AllSucceed(codes + [code]) <==> Succeeds(code)
  {
    if AllSucceed(codes + [code]) {
      assert Succeeds((codes + [code])[|codes|]);
    }
  }

  lemma FailureFits(performed: seq<Action>, queue: seq<Action>, codes: seq<ErrCode>, code: ErrCode)
    requires performed != [] && |codes| + 1 == |performed| && AllSucceed(codes) && !Succeeds(code)
    ensures CodesFit(performed, codes + [code], performed + queue)
  {
    AllSucceedExtends(codes, code);
  }

  lemma FailureEnds(s: State, actions: seq<Action>, code: ErrCode, message: string)
    requires Going(s, actions) && s.current.Some? && !Succeeds(code)
    ensures Ended(AfterReport(s, code, message), actions)
  {
    hide TraceOk, NothingTerminal, Updated, AllSucceed, EndsWith, CodesFit;
    EndingEvent(s.progress, if code.SYS_INSTALL_CANCEL? then CANCEL else FAILED, message);
    FailureFits(s.performed, s.queue, s.codes, code);
  }

  lemma SuccessGoesOn(s: State, actions: seq<Action>, code: ErrCode, message: string)
    requires Going(s, actions) && s.current.Some? && Succeeds(code)
    ensures Going(AfterReport(s, code, message), actions)
  {
    AllSucceedExtends(s.codes, code);
    hide TraceOk, NothingTerminal, AllSucceed;
  }

  lemma NextGoesOn(s: State, actions: seq<Action>)
    requires Going(s, actions) && s.reported.Some? && s.queue != []
    ensures Going(AfterNext(s), actions)
  {
    hide TraceOk, NothingTerminal, AllSucceed;
    assert (s.performed + [s.queue[0]]) + s.queue[1..] == s.performed + s.queue;
  }

  lemma AllSucceededFits(performed: seq<Action>, codes: seq<ErrCode>)
    requires performed != [] && |codes| == |performed| && AllSucceed(codes)
    ensures CodesFit(performed, codes, performed + []) && performed + [] == performed
    ensures Succeeds(codes[|codes| - 1])
  {
  }

  lemma NextEnds(s: State, actions: seq<Action>)
    requires Going(s, actions) && s.reported.Some? && s.queue == []
    ensures Ended(AfterNext(s), actions)
  {
    hide TraceOk, NothingTerminal, Updated, AllSucceed, EndsWith, CodesFit;
    EndingEvent(s.progress, if s.reported.value.SYS_UPDATE_RETRY_SUCCESS? then RETRY_SUCCESSFUL else SUCCESSFUL, "");
    AllSucceededFits(s.performed, s.codes);
  }

  lemma GoingStep(s: State, actions: seq<Action>, call: Call)
    requires Going(s, actions)
    ensures Going(Step(s, call), actions) || Ended(Step(s, call), actions)
  {
    hide Ended, TraceOk, NothingTerminal, AllSucceed;
    match call
    case AddAction(_) =>
    case Start =>
    case Stop =>
    case Percent(value) => UpdateKeepsTrace(s.progress, s.progress.status, value, "");
    case Report(code, message) =>
      if s.current.Some? {
        if Succeeds(code) {
          SuccessGoesOn(s, actions, code, message);
        } else {
          FailureEnds(s, actions, code, message);
        }
      } else {
        assert AfterReport(s, code, message) == s;
      }
    case NextAction =>
      if s.reported.Some? {
        if s.queue == [] {
          NextEnds(s, actions);
        } else {
          NextGoesOn(s, actions);
        }
      } else {
        assert AfterNext(s) == s;
      }
  }

  /** From Start on, whatever calls come in whatever order: the run goes on, or it has ended. */
  lemma {:induction false} StartedRunGoesOn(s: State, actions: seq<Action>, calls: seq<Call>)
    requires Ready(s, actions) && OneRun(AfterStart(s), calls)
    ensures var t := Run(AfterStart(s), calls); Going(t, actions) || Ended(t, actions)
  {
    if calls == [] {
      StartGoes(s, actions);
    } else {
      var n := |calls| - 1;
      var t := Run(AfterStart(s), calls[..n]);
      OneRunOfPrefix(AfterStart(s), calls);
      hide Ready, AfterStart, TraceOk, NothingTerminal, AllSucceed, CodesFit, EndsWith, OneRun;
      StartedRunGoesOn(s, actions, calls[..n]);
      if Going(t, actions) {
        GoingStep(t, actions, calls[n]);
      }
    }
  }

  /** A processer that is idle and has no action yet, its callback registered and no run in its history. */
  ghost predicate Idle(s: State) {
    && s.queue == []
    && s.current.None? && !s.running && s.reported.None?
    && s.performed == [] && s.codes == []
    && TraceOk(s.progress) && NothingTerminal(s.progress.trace)
  }

  /** Adding these actions, one call at a time. */
  ghost function Adds(actions: seq<Action>): seq<Call> {
    seq(|actions|, i requires 0 <= i < |actions| => AddAction(Some(actions[i])))
  }

  lemma {:induction false} RunConcat(s: State, a: seq<Call>, b: seq<Call>)
    ensures Run(s, a + b) == Run(Run(s, a), b)
  {
    if b == [] {
      assert a + b == a;
    } else {
      RunConcat(s, a, b[..|b| - 1]);
      assert (a + b)[..|a + b| - 1] == a + b[..|b| - 1];
    }
  }

  /** Actions are queued in the order of the calls that add them. */
  lemma {:induction false} AddsQueueInOrder(s: State, actions: seq<Action>)
    requires !s.running
    ensures Run(s, Adds(actions)) == s.(queue := s.queue + actions)
  {
    if actions == [] {
      assert s.queue + actions == s.queue;
    } else {
      var front, last := actions[..|actions| - 1], actions[|actions| - 1];
      AddsQueueInOrder(s, front);
      assert Adds(actions)[..|actions| - 1] == Adds(front);
      assert s.queue + actions == (s.queue + front) + [last];
    }
  }

  /**
   Actions that are added one by one to an idle processer and started, with whatever calls after that in whatever order:
   they run one at a time in the order added, the next only after success, and once the run has ended the trace has one
   terminal event, its last, that tells how it ended.
   */
  lemma ActionsRunInOrder(s: State, actions: seq<Action>, calls: seq<Call>)
    requires Idle(s) && actions != []
    requires OneRun(Run(s, Adds(actions) + [Start]), calls)
    ensures var t := Run(s, Adds(actions) + [Start] + calls); Going(t, actions) || Ended(t, actions)
  {
    hide Run, Step, AfterStart, OneRun, Going, Ended, TraceOk, NothingTerminal, Adds;
    var ready := s.(queue := actions);
    AddsQueueInOrder(s, actions);
    assert s.queue + actions == actions;
    StartAfter(s, Adds(actions));
    RunConcat(s, Adds(actions) + [Start], calls);
    StartedRunGoesOn(ready, actions, calls);
  }

  lemma StartAfter(s: State, calls: seq<Call>)
    ensures Run(s, calls + [Start]) == AfterStart(Run(s, calls))
  {
    assert (calls + [Start])[..|calls|] == calls;
  }

  lemma StartGoes(s: State, actions: seq<Action>)
    requires Ready(s, actions)
    ensures Going(AfterStart(s), actions)
  {
    UpdateKeepsTrace(s.progress, ONGOING, 0, "");
    assert [actions[0]] + actions[1..] == actions;
  }

  lemma OneRunOfPrefix(s: State, calls: seq<Call>)
    requires OneRun(s, calls) && calls != []
    ensures OneRun(s, calls[..|calls| - 1])
    ensures var last := calls[|calls| - 1];
            last.AddAction? && last.action.Some? ==> Run(s, calls[..|calls| - 1]).running
  {
    hide Run;
    var before := calls[..|calls| - 1];
    forall i | 0 <= i < |before| && before[i].AddAction? && before[i].action.Some?
      ensures Run(s, before[..i]).running
    {
      assert before[..i] == calls[..i];
    }
  }

  /** A failed or cancelled action ends the run at once, and its message is what the callback is told last. */
  lemma FailureIsReported(s: State, actions: seq<Action>, code: ErrCode, message: string)
    requires Going(s, actions) && s.current.Some? && !Succeeds(code)
    ensures var t := AfterReport(s, code, message);
            && Ended(t, actions) && t.performed == s.performed && t.codes == s.codes + [code]
            && |t.progress.trace| == |s.progress.trace| + 1
            && var last := t.progress.trace[|s.progress.trace|];
               && last.message == message
               && last.status == (if code.SYS_INSTALL_CANCEL? then CANCEL else FAILED)
  {
    FailureEnds(s, actions, code, message);
    ProgressIsShown(s.progress, if code.SYS_INSTALL_CANCEL? then CANCEL else FAILED, 100, message);
    hide Ended, TraceOk, NothingTerminal, AllSucceed, Updated;
  }

  /** Success is reported exactly when every action ran and reported success. */
  lemma SuccessIffAllSucceeded(s: State, actions: seq<Action>)
    requires Ended(s, actions)
    ensures var last := s.progress.trace[|s.progress.trace| - 1].status;
            && IsTerminal(last)
            && ((last.SUCCESSFUL? || last.RETRY_SUCCESSFUL?) <==> AllSucceed(s.codes) && s.performed == actions)
            && s.codes != []
            && (last.RETRY_SUCCESSFUL? <==> s.codes[|s.codes| - 1].SYS_UPDATE_RETRY_SUCCESS?)
            && (last.CANCEL? <==> s.codes[|s.codes| - 1].SYS_INSTALL_CANCEL?)
  {
    assert s.codes == s.codes[..|s.codes| - 1] + [s.codes[|s.codes| - 1]];
  }
}
