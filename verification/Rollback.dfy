/**
 Rollback: after a new package fails, the boots that follow settle on what they would have settled on before it.
 Sources: services/module_update/src/module_update.cpp, services/module_update/service/src/module_update_main.cpp and
 services/module_update/util/src/module_utils.cpp.
 */
module Rollback {
  import opened Common
  import opened ModuleFiles
  import opened Packages
  import opened Lifecycle

  ghost function BootOnce(w: World, h: string, pre: PreDir, s: Hmp): Booted {
    BootHmp(w, h, pre, s, w.mounts, NO_FAULTS)
  }

  /** The package mounted by the first boot from `s` that does not restart the device. */
  ghost function Settle(w: World, h: string, pre: PreDir, s: Hmp): Option<Package>
    decreases Directories(s)
  {
    var b := BootOnce(w, h, pre, s);
    BootLowersDirectories(w, h, pre, s, w.mounts, NO_FAULTS);
    if b.rebooted then Settle(w, h, pre, b.hmp) else b.mounted
  }

  // ---------------------------------------------------------------- settling in closed form

  ghost function SystemIfItMounts(w: World, h: string, pre: PreDir): Option<Package> {
    var system := Load(w, Preinstall, h, PreView(pre));
    if system.Some? && w.mounts(system.value) then system else None
  }

  /** Where a device settles that has this active package and nothing else to try. */
  ghost function LastResort(w: World, h: string, pre: PreDir, active: Option<Package>): Option<Package> {
    var system := Load(w, Preinstall, h, PreView(pre));
    if active.Some? && system.Some? && Newer(w, active.value.file, system.value.file) && w.mounts(active.value)
    then active
    else SystemIfItMounts(w, h, pre)
  }

  lemma SettleWithoutDirectories(w: World, h: string, pre: PreDir)
    ensures Settle(w, h, pre, NO_DIRS) == SystemIfItMounts(w, h, pre)
  {
  }

  lemma SettleAfterRevert(w: World, h: string, pre: PreDir, active: Option<View>)
    ensures Settle(w, h, pre, Hmp(None, active, None)) == LastResort(w, h, pre, Candidate(w, Active, h, pre, active))
  {
    var s := Hmp(None, active, None);
    var b := BootOnce(w, h, pre, s);
    if b.rebooted {
      assert b.hmp == NO_DIRS;
      SettleWithoutDirectories(w, h, pre);
    }
  }

  /** An install that has not been booted yet, and whose package would mount. */
  ghost predicate PendingWouldMount(w: World, h: string, pre: PreDir, s: Hmp) {
    var pending := PendingPackage(w, h, pre, s);
    pending.Some? && w.mounts(MovedToActive(h, pending.value))
  }

  /** A running device settles on its pending package if that mounts, and otherwise on its active one. */
  lemma RunningDeviceSettles(w: World, h: string, pre: PreDir, s: Hmp)
    requires Good(w, h, pre, State(Running, s))
    ensures Settle(w, h, pre, s) ==
            if PendingWouldMount(w, h, pre, s) then Some(MovedToActive(h, PendingPackage(w, h, pre, s).value))
            else LastResort(w, h, pre, ActivePackage(w, h, pre, s))
  {
    var b := BootOnce(w, h, pre, s);
    PathsDiffer(Install, Preinstall, h, HMP_INFO_NAME, HMP_INFO_NAME);
    if b.rebooted {
      assert b.hmp == Hmp(None, s.backup, None);
      SettleAfterRevert(w, h, pre, s.backup);
    }
  }

  // ---------------------------------------------------------------- a destroyed active directory

  /** There is an active directory that offers nothing, a backup of it, and nothing new to install. */
  ghost predicate ActiveDestroyed(w: World, h: string, pre: PreDir, s: Hmp) {
    && s.active.Some? && s.backup.Some?
    && PendingPackage(w, h, pre, s).None? && ActivePackage(w, h, pre, s).None?
  }

  /** Such a device restores the backup before it mounts anything, and settles on what the backup offers. */
  lemma DestroyedActiveIsRestored(w: World, h: string, pre: PreDir, s: Hmp)
    requires Load(w, Preinstall, h, PreView(pre)).Some? && ActiveDestroyed(w, h, pre, s)
    ensures BootOnce(w, h, pre, s) == Booted(Hmp(None, s.backup, None), true, None)
    ensures Settle(w, h, pre, s) == LastResort(w, h, pre, Candidate(w, Active, h, pre, s.backup))
  {
    hide Load, PathIn;
    SettleAfterRevert(w, h, pre, s.backup);
  }

  /** When all packages mount, a boot restarts the device if and only if the active directory was destroyed. */
  lemma RestartsIffDestroyed(w: World, h: string, pre: PreDir, s: Hmp)
    requires Load(w, Preinstall, h, PreView(pre)).Some? && forall p :: w.mounts(p)
    ensures BootOnce(w, h, pre, s).rebooted <==> ActiveDestroyed(w, h, pre, s)
  {
    hide Load, PathIn, Newer;
  }

  // ---------------------------------------------------------------- restarts do not change where a device settles

  lemma CutShortBootSettlesAlike(w: World, h: string, pre: PreDir, s: Hmp)
    requires StrictOrder(w)
    requires s.backup.Some? ==> s.active.Some?
    requires !BootOnce(w, h, pre, s).rebooted
    ensures Settle(w, h, pre, BootOnce(w, h, pre, s).hmp) == Settle(w, h, pre, s)
    ensures Settle(w, h, pre, BootOnce(w, h, pre, s).hmp.(install := None)) == Settle(w, h, pre, s)
  {
    hide Load, PathIn;
    PathsOfFound(w, h, pre, s);
    PathsDiffer(Install, Active, h, HMP_INFO_NAME, HMP_INFO_NAME);
    PathsDiffer(Preinstall, Active, h, HMP_INFO_NAME, HMP_INFO_NAME);
    if PendingPackage(w, h, pre, s).Some? && s.active.Some? {
      StagedDirectoryLoads(w, h, s.install.value, s.active.value);
    }
  }

  predicate IsRestart(op: Op) {
    op.PowerCycle? || op.Boot? || op.BootCutShort?
  }

  lemma RestartSettlesAlike(w: World, h: string, pre: PreDir, st: State, op: Op)
    requires StrictOrder(w) && Good(w, h, pre, st) && IsRestart(op)
    ensures Settle(w, h, pre, Step(w, h, pre, st, op).hmp) == Settle(w, h, pre, st.hmp)
  {
    hide BootHmp, FindPackages, Load;
    if st.phase.Booting? && !BootOnce(w, h, pre, st.hmp).rebooted {
      CutShortBootSettlesAlike(w, h, pre, st.hmp);
    }
  }

  /** Whatever restarts follow, including boots cut short by another HMP, the device settles on the same package. */
  lemma {:induction false} RestartsSettleAlike(w: World, h: string, pre: PreDir, st: State, ops: seq<Op>)
    requires StrictOrder(w) && Good(w, h, pre, st)
    requires forall op :: op in ops ==> IsRestart(op)
    ensures Good(w, h, pre, Run(w, h, pre, st, ops))
    ensures Settle(w, h, pre, Run(w, h, pre, st, ops).hmp) == Settle(w, h, pre, st.hmp)
  {
    if ops != [] {
      var before, last := ops[..|ops| - 1], ops[|ops| - 1];
      RestartsSettleAlike(w, h, pre, st, before);
      StepKeepsGood(w, h, pre, Run(w, h, pre, st, before), last);
      RestartSettlesAlike(w, h, pre, Run(w, h, pre, st, before), last);
    }
  }

  // ---------------------------------------------------------------- install and uninstall end to end

  /** After an install that succeeds, the first boot mounts the very bytes that were installed, if they mount. */
  lemma InstalledIsMounted(w: World, h: string, pre: PreDir, s: Hmp, files: View, steps: InstallSteps)
    requires Good(w, h, pre, State(Running, s)) && InstallPackage(w, h, pre, s, files, steps).ok
    requires HMP_INFO_NAME in files && IMG_FILE_NAME in files
    requires PendingWouldMount(w, h, pre, InstallPackage(w, h, pre, s, files, steps).hmp)
    ensures var mounted := BootOnce(w, h, pre, InstallPackage(w, h, pre, s, files, steps).hmp).mounted;
            && mounted.Some?
            && mounted.value.infoBytes == files[HMP_INFO_NAME] && mounted.value.imageBytes == files[IMG_FILE_NAME]
  {
    var install := Unpacked(s, files);
    SuccessIsPending(w, h, pre, s, files, steps);
    InstallKeepsGood(w, h, pre, s, files, steps);
    hide InstallPackage, Good, Load, BootHmp;
    FirstBootStages(w, h, pre, s, install);
    PendingBytes(w, h, pre, WithPending(s, install));
  }

  lemma PendingBytes(w: World, h: string, pre: PreDir, s: Hmp)
    requires PendingPackage(w, h, pre, s).Some?
    ensures var p := PendingPackage(w, h, pre, s).value;
            && s.install.Some? && HMP_INFO_NAME in s.install.value && IMG_FILE_NAME in s.install.value
            && p.infoBytes == s.install.value[HMP_INFO_NAME] && p.imageBytes == s.install.value[IMG_FILE_NAME]
  {
  }

  /** After an uninstall a device settles on the preinstalled package, whatever it ran before. */
  lemma UninstallSettlesOnPreinstalled(w: World, h: string, pre: PreDir, s: Hmp)
    ensures var system := Load(w, Preinstall, h, PreView(pre));
            Settle(w, h, pre, Step(w, h, pre, State(Running, s), Uninstall).hmp) ==
            if system.Some? && w.mounts(system.value) then system else None
  {
    SettleWithoutDirectories(w, h, pre);
  }

  // ---------------------------------------------------------------- rollback

  ghost predicate RunsUpdate(w: World, h: string, pre: PreDir, s: Hmp) {
    var system, active := Load(w, Preinstall, h, PreView(pre)), ActivePackage(w, h, pre, s);
    && s.install.None?
    && active.Some?
    && Newer(w, active.value.file, system.value.file)
    && w.mounts(active.value)
  }

  /** The first boot after an install stages the pending package and mounts it, or reverts to what active held. */
  lemma FirstBootStages(w: World, h: string, pre: PreDir, s: Hmp, install: View)
    requires Good(w, h, pre, State(Running, s)) && Good(w, h, pre, State(Running, WithPending(s, install)))
    requires PendingPackage(w, h, pre, WithPending(s, install)).Some?
    ensures var staged := MovedToActive(h, PendingPackage(w, h, pre, WithPending(s, install)).value);
            var b := BootOnce(w, h, pre, WithPending(s, install));
            if w.mounts(staged) then
              && !b.rebooted && b.mounted == Some(staged)
              && RunsUpdate(w, h, pre, b.hmp.(install := None))
              && Revert(b.hmp.(install := None), NO_REVERT_FAULTS) == Reverted(Hmp(None, s.active, None), true)
            else b.rebooted && b.hmp == Hmp(None, s.active, None)
  {
    PathsDiffer(Install, Preinstall, h, HMP_INFO_NAME, HMP_INFO_NAME);
    StagedDirectoryLoads(w, h, install, WithPending(s, install).active.value);
  }

  predicate Processes(op: Op) {
    op.Boot? || op == BootCutShort(true)
  }

  /**
   How a new package fails. If it mounts, the monitor reverts it, after any restarts that leave the device running. If
   it does not, the first boot to process it reverts it, after any restarts that did not get to it.
   */
  ghost predicate Fails(w: World, h: string, pre: PreDir, installed: Hmp, restarts: seq<Op>, last: Op)
    requires PendingPackage(w, h, pre, installed).Some?
  {
    && (forall op :: op in restarts ==> IsRestart(op))
    && (if w.mounts(MovedToActive(h, PendingPackage(w, h, pre, installed).value))
        then last.CrashRevert? && Run(w, h, pre, State(Booting, installed), restarts).phase.Running?
        else Processes(last) && forall op :: op in restarts ==> !Processes(op))
  }

  ghost function AfterFailure(w: World, h: string, pre: PreDir, installed: Hmp, restarts: seq<Op>, last: Op): State {
    Step(w, h, pre, Run(w, h, pre, State(Booting, installed), restarts), last)
  }

  /** Booting again a device that has staged but kept its install directory changes nothing. */
  lemma StagedBootsAgain(w: World, h: string, pre: PreDir, s: Hmp, install: View)
    requires StrictOrder(w)
    requires Good(w, h, pre, State(Running, s)) && Good(w, h, pre, State(Running, WithPending(s, install)))
    requires PendingPackage(w, h, pre, WithPending(s, install)).Some?
    requires w.mounts(MovedToActive(h, PendingPackage(w, h, pre, WithPending(s, install)).value))
    ensures var b := BootOnce(w, h, pre, WithPending(s, install)).hmp;
            !BootOnce(w, h, pre, b).rebooted && BootOnce(w, h, pre, b).hmp == b
  {
    hide Load, PathIn, Good;
    FirstBootStages(w, h, pre, s, install);
    var installed := WithPending(s, install);
    var b := BootOnce(w, h, pre, installed).hmp;
    BootKeepsOrStages(w, h, pre, installed);
    PathsOfFound(w, h, pre, b);
    PathsOfFound(w, h, pre, b.(install := None));
    PathsDiffer(Install, Active, h, HMP_INFO_NAME, HMP_INFO_NAME);
  }

  /** A boot leaves the directories of a device that runs an update as they are. */
  lemma OneBootKeepsUpdate(w: World, h: string, pre: PreDir, s: Hmp)
    requires RunsUpdate(w, h, pre, s)
    ensures BootOnce(w, h, pre, s) == Booted(s, false, ActivePackage(w, h, pre, s))
  {
  }

  /** Restarts of a device whose pending package mounts lead through three states of its directories. */
  lemma {:induction false} RestartsStage(w: World, h: string, pre: PreDir, s: Hmp, install: View, restarts: seq<Op>)
    requires StrictOrder(w)
    requires Good(w, h, pre, State(Running, s)) && Good(w, h, pre, State(Running, WithPending(s, install)))
    requires PendingPackage(w, h, pre, WithPending(s, install)).Some?
    requires w.mounts(MovedToActive(h, PendingPackage(w, h, pre, WithPending(s, install)).value))
    requires forall op :: op in restarts ==> IsRestart(op)
    ensures var installed := WithPending(s, install);
            var staged := BootOnce(w, h, pre, installed).hmp;
            var st := Run(w, h, pre, State(Booting, installed), restarts);
            || st == State(Booting, installed)
            || st == State(Booting, staged)
            || st.hmp == staged.(install := None)
  {
    if restarts != [] {
      hide BootOnce, PendingPackage, WithPending, Good, StrictOrder, Revert, RunsUpdate, Load, BootHmp;
      var before, op := restarts[..|restarts| - 1], restarts[|restarts| - 1];
      RestartsStage(w, h, pre, s, install, before);
      FirstBootStages(w, h, pre, s, install);
      StagedBootsAgain(w, h, pre, s, install);
      OneBootKeepsUpdate(w, h, pre, BootOnce(w, h, pre, WithPending(s, install)).hmp.(install := None));
      assert IsRestart(op);
      RestartStep(w, h, pre, Run(w, h, pre, State(Booting, WithPending(s, install)), before), op);
    }
  }

  /** What one restart does, in terms of the boot it makes. */
  lemma RestartStep(w: World, h: string, pre: PreDir, st: State, op: Op)
    requires IsRestart(op)
    ensures var b := BootOnce(w, h, pre, st.hmp);
            Step(w, h, pre, st, op) ==
            if st.phase.Running? then (if op.PowerCycle? then State(Booting, st.hmp) else st)
            else if op.Boot? then (if b.rebooted then State(Booting, b.hmp) else State(Running, b.hmp.(install := None)))
            else if op == BootCutShort(true) then State(Booting, b.hmp)
            else st
  {
    hide BootHmp;
  }

  lemma {:induction false} IdleRestarts(w: World, h: string, pre: PreDir, s: Hmp, restarts: seq<Op>)
    requires forall op :: op in restarts ==> IsRestart(op) && !Processes(op)
    ensures Run(w, h, pre, State(Booting, s), restarts) == State(Booting, s)
  {
    if restarts != [] {
      IdleRestarts(w, h, pre, s, restarts[..|restarts| - 1]);
      assert IsRestart(restarts[|restarts| - 1]) && !Processes(restarts[|restarts| - 1]);
    }
  }

  lemma FailureRestoresActive(
    w: World, h: string, pre: PreDir, s: Hmp, install: View, restarts: seq<Op>, last: Op)
    requires StrictOrder(w)
    requires Good(w, h, pre, State(Running, s)) && Good(w, h, pre, State(Running, WithPending(s, install)))
    requires PendingPackage(w, h, pre, WithPending(s, install)).Some?
    requires Fails(w, h, pre, WithPending(s, install), restarts, last)
    ensures AfterFailure(w, h, pre, WithPending(s, install), restarts, last) == State(Booting, Hmp(None, s.active, None))
  {
    var installed := WithPending(s, install);
    FirstBootStages(w, h, pre, s, install);
    if w.mounts(MovedToActive(h, PendingPackage(w, h, pre, installed).value)) {
      RestartsStage(w, h, pre, s, install, restarts);
    } else {
      IdleRestarts(w, h, pre, installed, restarts);
    }
    hide Run, Revert, Good, StrictOrder, RunsUpdate, Load, WithPending, PendingPackage;
  }

  /** The install succeeds, and what it leaves in the install directory loads at the next boot. */
  ghost predicate InstallsLoadable(w: World, h: string, pre: PreDir, s: Hmp, files: View, steps: InstallSteps) {
    var i := InstallPackage(w, h, pre, s, files, steps);
    i.ok && PendingPackage(w, h, pre, i.hmp).Some?
  }

  /**
   Rollback, from every reachable running state: after a new package fails, and after any further restarts, the boots
   that follow settle on the package they would have settled on before that install, if and only if no earlier install
   was still waiting for its first boot with a package that would have mounted.
   */
  lemma RollbackSettlesAsBefore(
    w: World, h: string, pre: PreDir, ops: seq<Op>, files: View, steps: InstallSteps,
    restarts: seq<Op>, last: Op, later: seq<Op>)
    requires StrictOrder(w)
    requires Run(w, h, pre, FACTORY, ops).phase.Running?
    requires InstallsLoadable(w, h, pre, Run(w, h, pre, FACTORY, ops).hmp, files, steps)
    requires var installed := InstallPackage(w, h, pre, Run(w, h, pre, FACTORY, ops).hmp, files, steps).hmp;
             Fails(w, h, pre, installed, restarts, last)
    requires forall op :: op in later ==> IsRestart(op)
    ensures var s := Run(w, h, pre, FACTORY, ops).hmp;
            var installed := InstallPackage(w, h, pre, s, files, steps).hmp;
            var failed := AfterFailure(w, h, pre, installed, restarts, last);
            && failed.phase.Booting?
            && (Settle(w, h, pre, Run(w, h, pre, failed, later).hmp) == Settle(w, h, pre, s)
                <==> !PendingWouldMount(w, h, pre, s))
  {
    var s := Run(w, h, pre, FACTORY, ops).hmp;
    EveryRunIsGood(w, h, pre, ops);
    InstallKeepsGood(w, h, pre, s, files, steps);
    SuccessIsPending(w, h, pre, s, files, steps);
    hide InstallPackage, Good, Fails, PendingPackage, Unpacked, WithPending, PendingWouldMount, Settle, AfterFailure;
    FailureRestoresActive(w, h, pre, s, Unpacked(s, files), restarts, last);
    SettlingComparison(w, h, pre, s);
    BackedOutIsGood(w, h, pre, s.active);
    RestartsSettleAlike(w, h, pre, State(Booting, Hmp(None, s.active, None)), later);
  }

  lemma BackedOutIsGood(w: World, h: string, pre: PreDir, active: Option<View>)
    ensures Good(w, h, pre, State(Booting, Hmp(None, active, None)))
  {
  }

  lemma SuccessIsPending(w: World, h: string, pre: PreDir, s: Hmp, files: View, steps: InstallSteps)
    requires InstallPackage(w, h, pre, s, files, steps).ok
    ensures InstallPackage(w, h, pre, s, files, steps).hmp == WithPending(s, Unpacked(s, files))
  {
    hide AllFilesValid, HasArchive;
  }

  lemma SettlingComparison(w: World, h: string, pre: PreDir, s: Hmp)
    requires StrictOrder(w) && Good(w, h, pre, State(Running, s))
    ensures Settle(w, h, pre, Hmp(None, s.active, None)) == Settle(w, h, pre, s) <==> !PendingWouldMount(w, h, pre, s)
  {
    RunningDeviceSettles(w, h, pre, s);
    SettleAfterRevert(w, h, pre, s.active);
    PathsDiffer(Install, Active, h, HMP_INFO_NAME, HMP_INFO_NAME);
    PathsDiffer(Preinstall, Active, h, HMP_INFO_NAME, HMP_INFO_NAME);
  }

  /**
   An install that fails after its backup step has already replaced the backup by the active files: a later crash revert
   then settles on the very package that crashed. That is what it would have settled on before the failed install if
   and only if the backup already offered the active package.
   */
  lemma LateInstallFailureForgetsBackup(w: World, h: string, pre: PreDir, s: Hmp, files: View, steps: InstallSteps)
    requires Good(w, h, pre, State(Running, s)) && ActivePackage(w, h, pre, s).Some?
    requires steps.unpacks && AllFilesValid(w, h, pre, s, Unpacked(s, files))
    requires steps.hadModule || HasArchive(h, Unpacked(s, files))
    requires steps.backup.Linked? && !Completes(s, steps)
    ensures var i := InstallPackage(w, h, pre, s, files, steps);
            var before, after :=
              Settle(w, h, pre, Revert(s, NO_REVERT_FAULTS).hmp), Settle(w, h, pre, Revert(i.hmp, NO_REVERT_FAULTS).hmp);
            var backup := Candidate(w, Active, h, pre, s.backup);
            && !i.ok
            && after == ActivePackage(w, h, pre, s)
            && before == LastResort(w, h, pre, backup)
            && (after == before <==> backup == ActivePackage(w, h, pre, s))
  {
    var i := InstallPackage(w, h, pre, s, files, steps);
    assert Revert(i.hmp, NO_REVERT_FAULTS).hmp == Hmp(None, s.active, None);
    assert Revert(s, NO_REVERT_FAULTS).hmp == Hmp(None, s.backup, None);
    SettleAfterRevert(w, h, pre, s.active);
    SettleAfterRevert(w, h, pre, s.backup);
    PathsDiffer(Preinstall, Active, h, HMP_INFO_NAME, HMP_INFO_NAME);
    hide Settle, Revert, InstallPackage, AllFilesValid, HasArchive, Unpacked;
  }
}
