/**
 Runs in which an install loses what was there, and one in which install and active share files. Sources as for Rollback.
 */
module RollbackExample {
  import opened Common
  import opened ModuleFiles
  import opened Packages
  import opened Lifecycle
  import opened HmpStorages
  import opened Rollback

  const H := "h"
  const PRE := PreDir([1], Some([9]))

  /** Three versions of one package, each newer than the last; the first is preinstalled, the third does not mount. */
  datatype Versions = Versions(first: ModulePackageInfo, second: ModulePackageInfo, third: ModulePackageInfo)

  ghost function InfoOf(v: Versions, b: byte): ModulePackageInfo {
    if b == 1 then v.first else if b == 2 then v.second else v.third
  }

  ghost predicate Scenario(w: World, v: Versions) {
    && v.first.hmpName == v.second.hmpName == v.third.hmpName == H
    && w.newer(v.second, v.first) && w.newer(v.third, v.first) && w.newer(v.third, v.second)
    && v.second != v.third && v.first != v.third
    && (forall b: byte :: w.parse([b]) == Some(InfoOf(v, b)))
    && (forall bytes :: w.signed(bytes) && w.isImage(bytes))
    && (forall a, b :: w.verity(a, b))
    && (forall p :: w.mounts(p) <==> p.file.info != v.third)
  }

  function Files(b: byte): View {
    map[HMP_INFO_NAME := [b], IMG_FILE_NAME := [9]]
  }

  lemma PackagesLoad(w: World, v: Versions, place: Place, b: byte)
    requires Scenario(w, v) && place != Preinstall
    ensures var p := Load(w, place, H, Files(b));
            && p.Some? && p.value.file.info == InfoOf(v, b)
            && Open(w, place, H, Files(b), HMP_INFO_NAME) == Some(p.value.file)
    ensures var p := Load(w, Preinstall, H, PreView(PRE));
            && p.Some? && p.value.file.info == v.first
            && p.value.file == Open(w, Preinstall, H, PreView(PRE), HMP_INFO_NAME).value
  {
  }

  /** An active directory that does not stand in the way of version `b`. */
  ghost predicate Lower(active: Option<View>, b: byte) {
    active.None? || active == Some(map[]) || (active == Some(Files(2)) && b == 3)
  }

  lemma VersionValidates(w: World, v: Versions, s: Hmp, b: byte)
    requires Scenario(w, v) && b in {2, 3} && Lower(s.active, b)
    ensures Open(w, Install, H, Files(b), HMP_INFO_NAME).Some?
    ensures Lifecycle.ValidateVersion(w, H, PRE, s, Files(b), HMP_INFO_NAME) == MODULE_UPDATE_SUCCESS
  {
    PackagesLoad(w, v, Install, b);
    PackagesLoad(w, v, Active, 2);
    NothingOpens(w);
    hide Load, PathIn, PreView, Open;
  }

  lemma NothingOpens(w: World)
    ensures Open(w, Active, H, map[], HMP_INFO_NAME).None?
  {
  }

  lemma FilesValidate(w: World, v: Versions, s: Hmp, b: byte)
    requires Scenario(w, v) && b in {2, 3} && Lower(s.active, b)
    ensures AllFilesValid(w, H, PRE, s, Files(b))
  {
    hide Load, Open, PathIn, CheckFileSuffix, PreView, Lifecycle.ValidateVersion, Lower;
    InfoNameHasSuffix(Install, H);
    VersionValidates(w, v, s, b);
    forall name | name in Files(b)
      ensures Lifecycle.InstallModuleFile(w, H, PRE, s, Files(b), name) == MODULE_UPDATE_SUCCESS
    {
      assert name == HMP_INFO_NAME || name == IMG_FILE_NAME;
    }
  }

  lemma UnpackedIsFiles(s: Hmp, b: byte)
    requires s.install.None? || s.install.value.Keys == Files(b).Keys
    ensures Unpacked(s, Files(b)) == Files(b)
  {
    assert Unpacked(s, Files(b)).Keys == Files(b).Keys;
  }

  lemma FilesHaveArchive(b: byte)
    ensures HasArchive(H, Files(b))
  {
    InfoNameHasSuffix(Install, H);
    assert HMP_INFO_NAME in Files(b);
  }

  lemma ValidFilesInstall(w: World, s: Hmp, files: View, steps: InstallSteps)
    requires Open(w, Preinstall, H, PreView(PRE), HMP_INFO_NAME).Some?
    requires AllFilesValid(w, H, PRE, s, Unpacked(s, files)) && HasArchive(H, Unpacked(s, files))
    requires steps.unpacks && steps.backup.Linked? && Completes(s, steps)
    ensures InstallPackage(w, H, PRE, s, files, steps) == Installed(WithPending(s, Unpacked(s, files)), true)
  {
    hide AllFilesValid, HasArchive, Open;
  }

  /** Steps none of which fails. */
  ghost predicate AllWork(steps: InstallSteps) {
    steps.unpacks && steps.backup.Linked? && steps.writesVerity && steps.setsParam && steps.createsActive
  }

  lemma InstallSucceeds(w: World, v: Versions, s: Hmp, b: byte, steps: InstallSteps)
    requires Scenario(w, v) && b in {2, 3} && Lower(s.active, b) && AllWork(steps)
    requires s.install.None? || s.install.value.Keys == Files(b).Keys
    ensures InstallPackage(w, H, PRE, s, Files(b), steps) == Installed(WithPending(s, Files(b)), true)
  {
    PackagesLoad(w, v, Install, b);
    FilesValidate(w, v, s, b);
    FilesHaveArchive(b);
    UnpackedIsFiles(s, b);
    hide AllFilesValid, Scenario, InstallPackage, Unpacked, WithPending, HasArchive;
    ValidFilesInstall(w, s, Files(b), steps);
  }

  // ---------------------------------------------------------------- a pending install is lost

  ghost function FirstInstall(steps: InstallSteps): seq<Op> {
    [Op.Boot, InstallNew(Files(2), steps)]
  }

  lemma AfterOneMore(w: World, st: State, ops: seq<Op>, op: Op)
    ensures Run(w, H, PRE, st, ops + [op]) == Step(w, H, PRE, Run(w, H, PRE, st, ops), op)
  {
    assert (ops + [op])[..|ops + [op]| - 1] == ops;
  }

  lemma FactoryBoots(w: World, v: Versions)
    requires Scenario(w, v)
    ensures Run(w, H, PRE, FACTORY, [Op.Boot]) == State(Running, NO_DIRS)
  {
    PackagesLoad(w, v, Install, 2);
    hide Load, PreView;
    AfterOneMore(w, FACTORY, [], Op.Boot);
    assert [] + [Op.Boot] == [Op.Boot];
  }

  lemma FirstInstallIsPending(w: World, v: Versions, steps: InstallSteps)
    requires Scenario(w, v) && AllWork(steps)
    ensures Run(w, H, PRE, FACTORY, FirstInstall(steps)) == State(Running, WithPending(NO_DIRS, Files(2)))
    ensures PendingWouldMount(w, H, PRE, WithPending(NO_DIRS, Files(2)))
    ensures PendingPackage(w, H, PRE, WithPending(NO_DIRS, Files(2))).value.file.info == v.second
  {
    hide InstallPackage, BootHmp, Run, FirstInstall, Load, Files;
    FactoryBoots(w, v);
    InstallSucceeds(w, v, NO_DIRS, 2, steps);
    AfterOneMore(w, FACTORY, [Op.Boot], InstallNew(Files(2), steps));
    FirstInstallOps(steps);
    PackagesLoad(w, v, Install, 2);
  }

  lemma FirstInstallOps(steps: InstallSteps)
    ensures FirstInstall(steps) == [Op.Boot] + [InstallNew(Files(2), steps)]
  {
  }

  /** Two installs without a restart between them: the failed second loses the first, which would have mounted. */
  lemma SecondInstallLosesTheFirst(w: World, v: Versions, steps: InstallSteps)
    requires StrictOrder(w) && Scenario(w, v) && AllWork(steps)
    ensures var s := Run(w, H, PRE, FACTORY, FirstInstall(steps)).hmp;
            var installed := InstallPackage(w, H, PRE, s, Files(3), steps).hmp;
            && InstallsLoadable(w, H, PRE, s, Files(3), steps)
            && Fails(w, H, PRE, installed, [], Op.Boot)
            && Settle(w, H, PRE, AfterFailure(w, H, PRE, installed, [], Op.Boot).hmp) != Settle(w, H, PRE, s)
  {
    hide InstallPackage, PendingWouldMount, Settle, AfterFailure, Scenario, Load, Run, FirstInstall, AllWork, Good;
    var s := WithPending(NO_DIRS, Files(2));
    FirstInstallIsPending(w, v, steps);
    InstallSucceeds(w, v, s, 3, steps);
    ThirdFailsToMount(w, v, s);
    RollbackSettlesAsBefore(w, H, PRE, FirstInstall(steps), Files(3), steps, [], Op.Boot, []);
    RunOfNothing(w, AfterFailure(w, H, PRE, WithPending(s, Files(3)), [], Op.Boot));
  }

  lemma RunOfNothing(w: World, st: State)
    ensures Run(w, H, PRE, st, []) == st
  {
  }

  lemma ThirdFailsToMount(w: World, v: Versions, s: Hmp)
    requires Scenario(w, v)
    ensures var installed := WithPending(s, Files(3));
            PendingPackage(w, H, PRE, installed).Some? && Fails(w, H, PRE, installed, [], Op.Boot)
  {
    PackagesLoad(w, v, Install, 3);
    hide Load, Files, Run;
  }

  // ---------------------------------------------------------------- a late failure loses the backup

  ghost function FirstInstallBooted(steps: InstallSteps): seq<Op> {
    FirstInstall(steps) + [PowerCycle] + [Op.Boot]
  }

  lemma FirstBootAfterInstall(w: World, v: Versions)
    requires Scenario(w, v)
    ensures var s := WithPending(NO_DIRS, Files(2));
            var b := BootOnce(w, H, PRE, s);
            && PendingPackage(w, H, PRE, s).Some?
            && !b.rebooted && b.mounted == Some(MovedToActive(H, PendingPackage(w, H, PRE, s).value))
            && b.hmp == Hmp(Some(Files(2)), Some(Files(2)), None)
            && ActivePackage(w, H, PRE, b.hmp) == b.mounted
  {
    PackagesLoad(w, v, Install, 2);
    PackagesLoad(w, v, Active, 2);
    PathsDiffer(Install, Preinstall, H, HMP_INFO_NAME, HMP_INFO_NAME);
    PathsDiffer(Active, Preinstall, H, HMP_INFO_NAME, HMP_INFO_NAME);
    assert map[] + Files(2) == Files(2);
  }

  /** The third version fails late to install; then a revert of the second settles on the second. */
  lemma LateFailureKeepsTheCrashedPackage(w: World, v: Versions, steps: InstallSteps)
    requires Scenario(w, v) && AllWork(steps)
    ensures var st := Run(w, H, PRE, FACTORY, FirstInstallBooted(steps));
            var i := InstallPackage(w, H, PRE, st.hmp, Files(3), steps.(setsParam := false));
            && st.phase.Running? && !i.ok
            && Settle(w, H, PRE, Revert(i.hmp, NO_REVERT_FAULTS).hmp) == ActivePackage(w, H, PRE, st.hmp)
            && Settle(w, H, PRE, Revert(st.hmp, NO_REVERT_FAULTS).hmp) != ActivePackage(w, H, PRE, st.hmp)
  {
    hide Scenario, AllFilesValid, HasArchive, Settle, Revert, InstallPackage, Good, Unpacked, Load, Run, AllWork, Files;
    var s := Hmp(None, Some(Files(2)), None);
    FirstInstallBoots(w, v, steps);
    EveryRunIsGood(w, H, PRE, FirstInstallBooted(steps));
    FilesValidate(w, v, s, 3);
    FilesHaveArchive(3);
    UnpackedIsFiles(s, 3);
    AllWorkButLast(steps);
    LateInstallFailureForgetsBackup(w, H, PRE, s, Files(3), steps.(setsParam := false));
  }

  lemma AllWorkButLast(steps: InstallSteps)
    requires AllWork(steps)
    ensures steps.unpacks && steps.backup.Linked?
  {
  }

  lemma FirstInstallBoots(w: World, v: Versions, steps: InstallSteps)
    requires Scenario(w, v) && AllWork(steps)
    ensures Run(w, H, PRE, FACTORY, FirstInstallBooted(steps)) == State(Running, Hmp(None, Some(Files(2)), None))
    ensures ActivePackage(w, H, PRE, Hmp(None, Some(Files(2)), None)).Some?
  {
    hide Scenario, Run, FirstInstall, InstallPackage, BootHmp, AllWork, Files, Load, PreView;
    FirstInstallIsPending(w, v, steps);
    FirstBootAfterInstall(w, v);
    AfterOneMore(w, FACTORY, FirstInstall(steps), PowerCycle);
    AfterOneMore(w, FACTORY, FirstInstall(steps) + [PowerCycle], Op.Boot);
  }

  // ---------------------------------------------------------------- a late failure destroys an empty active directory

  /** After one install a second fails late: the boot finds a backup beside an active directory that offers nothing. */
  lemma LateFailureCostsARestart(w: World, v: Versions, steps: InstallSteps)
    requires Scenario(w, v) && AllWork(steps)
    ensures var ops := FirstInstall(steps) + [InstallNew(Files(3), steps.(setsParam := false))] + [PowerCycle];
            var st := Run(w, H, PRE, FACTORY, ops);
            && st == State(Booting, Hmp(None, Some(map[]), Some(map[])))
            && BootOnce(w, H, PRE, st.hmp) == Booted(Hmp(None, Some(map[]), None), true, None)
            && Settle(w, H, PRE, st.hmp) == Load(w, Preinstall, H, PreView(PRE))
  {
    hide Scenario, Run, InstallPackage, BootHmp, AllWork, Files, Load, PreView, Settle;
    PackagesLoad(w, v, Install, 3);
    NothingLoads(w);
    LateFailureRun(w, v, steps);
    DestroyedActiveIsRestored(w, H, PRE, Hmp(None, Some(map[]), Some(map[])));
    PreinstalledMounts(w, v);
  }

  lemma LateFailureRun(w: World, v: Versions, steps: InstallSteps)
    requires Scenario(w, v) && AllWork(steps)
    ensures var ops := FirstInstall(steps) + [InstallNew(Files(3), steps.(setsParam := false))] + [PowerCycle];
            Run(w, H, PRE, FACTORY, ops) == State(Booting, Hmp(None, Some(map[]), Some(map[])))
  {
    hide Scenario, Run, FirstInstall, InstallPackage, BootHmp, AllWork, Files, Load, PreView;
    var late := steps.(setsParam := false);
    AllWorkButLast(steps);
    LateFailureLeaves(w, v, late);
    FirstInstallIsPending(w, v, steps);
    AfterOneMore(w, FACTORY, FirstInstall(steps), InstallNew(Files(3), late));
    AfterOneMore(w, FACTORY, FirstInstall(steps) + [InstallNew(Files(3), late)], PowerCycle);
  }

  lemma ValidFilesFailLate(w: World, s: Hmp, files: View, steps: InstallSteps)
    requires Open(w, Preinstall, H, PreView(PRE), HMP_INFO_NAME).Some?
    requires AllFilesValid(w, H, PRE, s, Unpacked(s, files)) && HasArchive(H, Unpacked(s, files))
    requires steps.unpacks && steps.backup.Linked? && !steps.setsParam
    ensures InstallPackage(w, H, PRE, s, files, steps) == Installed(BackedUp(s).(install := None), false)
  {
    hide AllFilesValid, HasArchive, Open;
  }

  lemma LateFailureLeaves(w: World, v: Versions, late: InstallSteps)
    requires Scenario(w, v) && late.unpacks && late.backup.Linked? && !late.setsParam
    ensures InstallPackage(w, H, PRE, WithPending(NO_DIRS, Files(2)), Files(3), late).hmp ==
            Hmp(None, Some(map[]), Some(map[]))
  {
    hide AllFilesValid, HasArchive, Scenario, Load, Open, Unpacked, PreView, InstallPackage;
    var s := WithPending(NO_DIRS, Files(2));
    PackagesLoad(w, v, Install, 3);
    PreinstalledOpens(w, v);
    FilesValidate(w, v, s, 3);
    FilesHaveArchive(3);
    UnpackedIsFiles(s, 3);
    ValidFilesFailLate(w, s, Files(3), late);
  }

  lemma PreinstalledOpens(w: World, v: Versions)
    requires Scenario(w, v)
    ensures Open(w, Preinstall, H, PreView(PRE), HMP_INFO_NAME).Some?
  {
  }

  lemma NothingLoads(w: World)
    ensures Load(w, Active, H, map[]).None?
  {
  }

  lemma PreinstalledMounts(w: World, v: Versions)
    requires Scenario(w, v)
    ensures SystemIfItMounts(w, H, PRE) == Load(w, Preinstall, H, PreView(PRE))
  {
    PackagesLoad(w, v, Install, 2);
    hide Load;
  }

  // ---------------------------------------------------------------- install and active share files

  ghost function FirstInstallCutShort(steps: InstallSteps): seq<Op> {
    FirstInstall(steps) + [PowerCycle] + [BootCutShort(true)]
  }

  lemma CutShortBootStages(w: World, v: Versions, steps: InstallSteps)
    requires Scenario(w, v) && AllWork(steps)
    ensures Staged(w, H, PRE, Run(w, H, PRE, FACTORY, FirstInstallCutShort(steps)))
  {
    hide Scenario, Run, FirstInstall, InstallPackage, BootHmp, AllWork, Files, Load, PreView, Staged, PendingPackage;
    FirstInstallIsPending(w, v, steps);
    FirstBootAfterInstall(w, v);
    AfterOneMore(w, FACTORY, FirstInstall(steps), PowerCycle);
    AfterOneMore(w, FACTORY, FirstInstall(steps) + [PowerCycle], BootCutShort(true));
    StagedIffMounted(w, H, PRE, WithPending(NO_DIRS, Files(2)));
  }

  /** A first boot after an install that another HMP cuts short leaves install and active linked to the same files. */
  method CutShortBootSharesFiles(w: World, ghost v: Versions) returns (storage: HmpStorage)
    requires StrictOrder(w) && Scenario(w, v)
    ensures fresh(storage) && storage.Valid() && !ShareNothing(storage.install, storage.active)
  {
    var steps := InstallSteps(true, false, Linked, true, true, true);
    storage := new HmpStorage(w, H, PRE);
    var ops := [Op.Boot, InstallNew(Files(2), steps), PowerCycle, BootCutShort(true)];
    var faults := BackupFaults(Removed, true, _ => false, Removed);
    var phase;
    ghost var done;
    phase, done := storage.RunOperations(ops, _ => faults);
    ghost var decided := DoneAsAsked(ops, faults, done);
    CutShortBootStages(w, v, decided);
  }

  lemma DoneAsAsked(ops: seq<Op>, faults: BackupFaults, done: seq<Op>) returns (steps: InstallSteps)
    requires NoBackupFaults(faults) && |ops| == |done| == 4
    requires exists asked ::
               AllWork(asked) && ops == [Op.Boot, InstallNew(Files(2), asked), PowerCycle, BootCutShort(true)]
    requires forall i :: 0 <= i < |ops| ==> Requested(ops[i], faults, done[i])
    ensures AllWork(steps) && done == FirstInstallCutShort(steps)
  {
    assert Requested(ops[0], faults, done[0]) && Requested(ops[1], faults, done[1]);
    assert Requested(ops[2], faults, done[2]) && Requested(ops[3], faults, done[3]);
    steps := done[1].steps;
    assert done == [done[0], done[1], done[2], done[3]];
  }

  // ---------------------------------------------------------------- the scenario, in the source's own version order

  /** A numeral of one character. */
  function Digit(s: string): Option<int32> {
    if |s| == 1 && '0' <= s[0] <= '9' then Some(s[0] as int - '0' as int) else None
  }

  function Info(c: char): ModulePackageInfo {
    ModulePackageInfo(H, ['h', ' '] + ['1', '.', '1', '.', '1', '.', c], "", "", "APP", -1, map[])
  }

  lemma VersionParses(c: char)
    requires c != '.' && c != ' '
    ensures ParseVersion(Info(c).version) == Some([['h'], ['1'], ['1'], ['1'], [c]])
  {
    var numbers: seq<string> := [['1'], ['1'], ['1'], [c]];
    NumbersJoin(c);
    hide Join, ParseVersion;
    ParseVersionIff(Info(c).version, ['h'], numbers);
    assert [['h']] + numbers == [['h'], ['1'], ['1'], ['1'], [c]];
  }

  lemma NumbersJoin(c: char)
    ensures Join([['1'], ['1'], ['1'], [c]], '.') == ['1', '.', '1', '.', '1', '.', c]
  {
    JoinFirst('1', [[c]]);
    JoinFirst('1', [['1'], [c]]);
    JoinFirst('1', [['1'], ['1'], [c]]);
    assert [['1']] + [['1'], ['1'], [c]] == [['1'], ['1'], ['1'], [c]];
    assert [['1']] + [['1'], [c]] == [['1'], ['1'], [c]] && [['1']] + [[c]] == [['1'], [c]];
  }

  lemma JoinFirst(d: char, parts: seq<string>)
    requires parts != []
    ensures Join([[d]] + parts, '.') == [d, '.'] + Join(parts, '.')
  {
    assert ([[d]] + parts)[1..] == parts;
  }

  lemma DigitsOrder(a: char, b: char)
    requires '0' < b < a <= '9'
    ensures HmpVersionBelow(Digit, [['h'], ['1'], ['1'], ['1'], [b]], [['h'], ['1'], ['1'], ['1'], [a]])
  {
    assert Digit(['1']) == Some(1);
  }

  lemma HigherIsNewer(a: char, b: char)
    requires '0' < b < a <= '9'
    ensures InfoNewer(Digit, Info(a), Info(b))
  {
    hide ParseVersion;
    VersionParses(a);
    VersionParses(b);
    DigitsOrder(a, b);
  }

  const RELEASES := Versions(Info('1'), Info('2'), Info('3'))

  /** Archives of one byte, which gives the last part of the version; all verify, and all but version 3 mount. */
  ghost function Example(): World {
    World(
      (a: ModulePackageInfo, b: ModulePackageInfo) => InfoNewer(Digit, a, b),
      (_: Bytes) => true,
      (bytes: Bytes) => if |bytes| == 1 then Some(InfoOf(RELEASES, bytes[0])) else None,
      (_: Bytes) => true,
      (_: Bytes, _: Bytes) => true,
      (p: Package) => p.file.info != RELEASES.third)
  }

  lemma ExampleIsScenario()
    ensures Scenario(Example(), RELEASES)
    ensures StrictOrder(Example())
  {
    hide InfoNewer;
    HigherIsNewer('2', '1');
    HigherIsNewer('3', '1');
    HigherIsNewer('3', '2');
    assert Info('1').version[8] != Info('3').version[8] && Info('2').version[8] != Info('3').version[8];
    assert UsesSourceOrder(Example(), Digit);
    SourceOrderIsStrict(Example(), Digit);
  }

  const STEPS := InstallSteps(true, false, Linked, true, true, true)

  /** With real version numbers and the source's comparison: after two installs the failed second loses the first. */
  lemma RollbackCanLoseAPendingInstall()
    ensures UsesSourceOrder(Example(), Digit)
    ensures var w, s := Example(), Run(Example(), H, PRE, FACTORY, FirstInstall(STEPS)).hmp;
            var installed := InstallPackage(w, H, PRE, s, Files(3), STEPS).hmp;
            && InstallsLoadable(w, H, PRE, s, Files(3), STEPS)
            && Settle(w, H, PRE, AfterFailure(w, H, PRE, installed, [], Op.Boot).hmp) != Settle(w, H, PRE, s)
  {
    hide InfoNewer, InstallsLoadable, Settle, AfterFailure, InstallPackage, Run, Scenario, StrictOrder, PendingPackage;
    ExampleIsScenario();
    SecondInstallLosesTheFirst(Example(), RELEASES, STEPS);
  }

  /** In the same world: after a late failure of the third version, a revert of the second settles on the second. */
  lemma LateFailureCanKeepTheCrashedPackage()
    ensures UsesSourceOrder(Example(), Digit)
    ensures var w, st := Example(), Run(Example(), H, PRE, FACTORY, FirstInstallBooted(STEPS));
            var i := InstallPackage(w, H, PRE, st.hmp, Files(3), STEPS.(setsParam := false));
            && st.phase.Running? && !i.ok
            && Settle(w, H, PRE, Revert(i.hmp, NO_REVERT_FAULTS).hmp) !=
               Settle(w, H, PRE, Revert(st.hmp, NO_REVERT_FAULTS).hmp)
  {
    hide InfoNewer, Settle, Revert, InstallPackage, Run, Scenario, ActivePackage;
    ExampleIsScenario();
    LateFailureKeepsTheCrashedPackage(Example(), RELEASES, STEPS);
  }

  /** In the same world: a boot that is cut short leaves the second version staged. */
  lemma BootCutShortCanStage()
    ensures UsesSourceOrder(Example(), Digit) && StrictOrder(Example())
    ensures Staged(Example(), H, PRE, Run(Example(), H, PRE, FACTORY, FirstInstallCutShort(STEPS)))
  {
    hide InfoNewer, Run, Scenario, StrictOrder, Staged;
    ExampleIsScenario();
    CutShortBootStages(Example(), RELEASES, STEPS);
  }
}
