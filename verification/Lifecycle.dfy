/**
 The life of one HMP across installs, boots and reverts, on directory contents.

 Sources: services/module_update/src/module_update.cpp, services/module_update/service/src/module_update_main.cpp and
 Revert in services/module_update/util/src/module_utils.cpp. The functions here are the specification of the methods of
 HmpStorage, which work on hard links and shared inodes; failures of single file operations are inputs.
 */
module Lifecycle {
  import opened Common
  import opened ModuleFiles
  import opened Packages

  /** The install, active and backup directories of an HMP; None when the directory does not exist. */
  datatype Hmp = Hmp(install: Option<View>, active: Option<View>, backup: Option<View>)

  const NO_DIRS := Hmp(None, None, None)

  /** ForceRemoveDirectory removes the directory, or fails having deleted some of its files. */
  datatype Removal = Removed | Left(names: set<string>)

  ghost function RemoveDir(dir: Option<View>, removal: Removal): (r: Option<View>)
    ensures r.Some? <==> dir.Some? && removal.Left?
  {
    if dir.None? || removal.Removed? then None
    else Some(map name | name in dir.value && name in removal.names :: dir.value[name])
  }

  // ---------------------------------------------------------------- revert

  datatype RevertFaults = RevertFaults(install: Removal, active: Removal, renames: bool)
  const NO_REVERT_FAULTS := RevertFaults(Removed, Removed, true)

  datatype Reverted = Reverted(hmp: Hmp, rebooted: bool)

  ghost function Revert(s: Hmp, faults: RevertFaults): (r: Reverted) {
    if s.install.Some? && faults.install.Left? then
      Reverted(s.(install := RemoveDir(s.install, faults.install)), false)
    else if s.active.None? then
      Reverted(s.(install := None), false)
    else if faults.active.Left? then
      Reverted(s.(install := None, active := RemoveDir(s.active, faults.active)), false)
    else if s.backup.Some? && faults.renames then
      Reverted(Hmp(None, s.backup, None), true)
    else
      Reverted(s.(install := None, active := None), true)
  }

  /** Whatever fails, a revert never loses the backup: it stays where it is, or it becomes active. */
  lemma RevertKeepsBackup(s: Hmp, faults: RevertFaults)
    ensures var r := Revert(s, faults);
            && (r.hmp.backup == s.backup || (r.hmp.backup.None? && r.hmp.active == s.backup))
            && (!r.rebooted ==> r.hmp.backup == s.backup)
            && (r.rebooted ==> r.hmp.install.None? && s.active.Some?)
  {
  }

  // ---------------------------------------------------------------- boot

  /** Failures during the boot of one HMP; `stage` is what a failed staging leaves in the active directory. */
  datatype BootFaults = BootFaults(
    stage: Option<View>,
    checkRevert: RevertFaults,
    clearActive: Removal,
    clearBackup: Removal,
    clearInstall: Removal,
    mountRevert: RevertFaults)
  const NO_FAULTS := BootFaults(None, NO_REVERT_FAULTS, Removed, Removed, Removed, NO_REVERT_FAULTS)

  /** What InitRepository finds for an HMP. */
  datatype Repository = Repository(system: Package, install: Option<Package>, active: Option<Package>)

  ghost function FindPackages(w: World, h: string, pre: PreDir, s: Hmp): (r: Option<Repository>) {
    var system := Load(w, Preinstall, h, PreView(pre));
    if system.None? then None
    else Some(Repository(system.value, Candidate(w, Install, h, pre, s.install), Candidate(w, Active, h, pre, s.active)))
  }

  /** A found package is read from the archive and the image of its own directory. */
  ghost predicate ReadFrom(p: Package, place: Place, h: string, dir: Option<View>) {
    && dir.Some?
    && HMP_INFO_NAME in dir.value && dir.value[HMP_INFO_NAME] == p.infoBytes
    && IMG_FILE_NAME in dir.value && dir.value[IMG_FILE_NAME] == p.imageBytes
    && p.file.path == PathIn(place, h, HMP_INFO_NAME)
  }

  lemma FoundPackagesAreRead(w: World, h: string, pre: PreDir, s: Hmp)
    requires FindPackages(w, h, pre, s).Some?
    ensures var r := FindPackages(w, h, pre, s).value;
            && ReadFrom(r.system, Preinstall, h, Some(PreView(pre)))
            && (r.install.Some? ==> ReadFrom(r.install.value, Install, h, s.install))
            && (r.active.Some? ==> ReadFrom(r.active.value, Active, h, s.active))
  {
  }

  lemma PathsOfFound(w: World, h: string, pre: PreDir, s: Hmp)
    ensures FindPackages(w, h, pre, s).Some? ==>
              var r := FindPackages(w, h, pre, s).value;
              && r.system.file.path == PathIn(Preinstall, h, HMP_INFO_NAME)
              && (r.install.Some? ==> r.install.value.file.path == PathIn(Install, h, HMP_INFO_NAME))
              && (r.active.Some? ==> r.active.value.file.path == PathIn(Active, h, HMP_INFO_NAME))
  {
    if FindPackages(w, h, pre, s).Some? {
      FoundPackagesAreRead(w, h, pre, s);
    }
  }

  datatype Latest = Latest(hmp: Hmp, package: Option<Package>)

  /** GetLatestUpdateModulePackage: prefer a newer install package, staging it; a failed staging yields nothing. */
  ghost function GetLatest(w: World, h: string, s: Hmp, r: Repository, fault: Option<View>): Latest {
    if r.install.Some? && s.install.Some? && (r.active.None? || Newer(w, r.install.value.file, r.active.value.file)) then
      if s.active.None? then Latest(s, None)
      else if fault.Some? then Latest(s.(active := fault), None)
      else
        Latest(s.(active := Some(s.active.value + s.install.value)), Some(MovedToActive(h, r.install.value)))
    else Latest(s, r.active)
  }

  datatype Prepared = Prepared(hmp: Hmp, rebooted: bool, chosen: Package)

  /** PrepareModuleFileList: choose what to mount, or revert an active directory that was destroyed. */
  ghost function Prepare(w: World, h: string, s: Hmp, r: Repository, faults: BootFaults): Prepared {
    var latest := GetLatest(w, h, s, r, faults.stage);
    if latest.package.Some? && Newer(w, latest.package.value.file, r.system.file) then
      Prepared(latest.hmp, false, latest.package.value)
    else if latest.hmp.backup.Some? && r.install.None? && r.active.None? then
      var reverted := Revert(latest.hmp, faults.checkRevert);
      Prepared(reverted.hmp, reverted.rebooted, r.system)
    else
      var cleared := latest.hmp.(
        active := RemoveDir(latest.hmp.active, faults.clearActive),
        backup := RemoveDir(latest.hmp.backup, faults.clearBackup));
      Prepared(cleared, false, r.system)
  }

  datatype Booted = Booted(hmp: Hmp, rebooted: bool, mounted: Option<Package>)

  /** DoModuleUpdate for one HMP, given which packages mount. */
  ghost function BootHmp(w: World, h: string, pre: PreDir, s: Hmp, mounts: Package -> bool, faults: BootFaults)
    : Booted
  {
    var found := FindPackages(w, h, pre, s);
    if found.None? then Booted(s, false, None)
    else
      var p := Prepare(w, h, s, found.value, faults);
      if p.rebooted then Booted(p.hmp, true, None)
      else if mounts(p.chosen) then Booted(p.hmp, false, Some(p.chosen))
      else
        var r := Revert(p.hmp.(install := RemoveDir(p.hmp.install, faults.clearInstall)), faults.mountRevert);
        Booted(r.hmp, r.rebooted, None)
  }

  /** Only genuine packages are mounted: parsed from their own archive, with an image, and signed unless preinstalled. */
  lemma MountedIsGenuine(w: World, h: string, pre: PreDir, s: Hmp, mounts: Package -> bool, faults: BootFaults)
    ensures var mounted := BootHmp(w, h, pre, s, mounts, faults).mounted;
            mounted.Some? ==>
              var p := mounted.value;
              && mounts(p)
              && (p.file.path == PathIn(Preinstall, h, HMP_INFO_NAME)
                  || (p.file.path == PathIn(Active, h, HMP_INFO_NAME) && w.signed(p.infoBytes)))
              && w.isImage(p.imageBytes)
              && w.parse(p.infoBytes) == Some(p.file.info) && p.file.info.hmpName == h
  {
    hide Revert, PathIn;
  }

  // ---------------------------------------------------------------- boot selection

  ghost predicate Comparable(w: World, a: Package, b: Package) {
    w.newer(a.file.info, b.file.info) || w.newer(b.file.info, a.file.info)
  }

  /**
   What a boot chooses is the preinstalled package or one strictly newer than it; when staging fails nothing staged is
   chosen; when everything found is mutually comparable and staging works, nothing found is newer than the choice.
   */
  lemma SelectionIsGreatest(w: World, h: string, pre: PreDir, s: Hmp, faults: BootFaults)
    requires StrictOrder(w)
    requires FindPackages(w, h, pre, s).Some?
    ensures var r := FindPackages(w, h, pre, s).value;
            var chosen := Prepare(w, h, s, r, faults).chosen;
            && (chosen == r.system || w.newer(chosen.file.info, r.system.file.info))
            && (chosen in {r.system} + (if r.active.Some? then {r.active.value} else {})
                || (&& r.install.Some? && chosen == MovedToActive(h, r.install.value)
                    && faults.stage.None? && s.active.Some?))
            && (&& faults.stage.None? && s.active.Some?
                && (r.install.Some? ==> Comparable(w, r.install.value, r.system))
                && (r.active.Some? ==> Comparable(w, r.active.value, r.system))
                && (r.install.Some? && r.active.Some? ==> Comparable(w, r.install.value, r.active.value))
                ==>
                && !w.newer(r.system.file.info, chosen.file.info)
                && (r.install.Some? ==> !w.newer(r.install.value.file.info, chosen.file.info))
                && (r.active.Some? ==> !w.newer(r.active.value.file.info, chosen.file.info)))
  {
    PathsDiffer(Install, Active, h, HMP_INFO_NAME, HMP_INFO_NAME);
    PathsDiffer(Preinstall, Active, h, HMP_INFO_NAME, HMP_INFO_NAME);
  }

  // ---------------------------------------------------------------- reboots terminate

  /** The number of existing active and backup directories. */
  ghost function Directories(s: Hmp): nat {
    (if s.active.Some? then 1 else 0) + (if s.backup.Some? then 1 else 0)
  }

  /** Every revert that reboots lowers the count, whether or not the rename succeeds; nothing in a boot raises it. */
  lemma BootLowersDirectories(w: World, h: string, pre: PreDir, s: Hmp, mounts: Package -> bool, faults: BootFaults)
    ensures var b := BootHmp(w, h, pre, s, mounts, faults);
            && (b.hmp.active.Some? ==> s.active.Some?)
            && (b.hmp.backup.Some? ==> s.backup.Some?)
            && (b.rebooted ==> Directories(b.hmp) < Directories(s))
  {
    hide FindPackages, MovedToActive;
  }

  // ---------------------------------------------------------------- install and uninstall

  datatype ErrorCode =
    | MODULE_UPDATE_SUCCESS
    | ERR_INVALID_PATH
    | ERR_LOWER_VERSION
    | ERR_VERIFY_FAIL
    | ERR_INSTALL_FAIL
    | ERR_UNINSTALL_FAIL
    | ERR_BACKUP_FAIL
    | ERR_DEAL_HVB_INFO_FAIL
    | ERR_SET_PARAM_FAIL
    | ERR_CREATE_ACTIVE_FAIL

  /** ValidateVersion: newer than the preinstalled package and than an active one that opens. */
  ghost function ValidateVersion(w: World, h: string, pre: PreDir, s: Hmp, install: View, name: string): ErrorCode
    requires name in install && Open(w, Install, h, install, name).Some?
  {
    var file := Open(w, Install, h, install, name).value;
    var system := Open(w, Preinstall, h, PreView(pre), HMP_INFO_NAME);
    var active := if s.active.Some? then Open(w, Active, h, s.active.value, HMP_INFO_NAME) else None;
    if system.None? then ERR_INSTALL_FAIL
    else if !Newer(w, file, system.value) then ERR_LOWER_VERSION
    else if IMG_FILE_NAME !in install || !w.verity(install[name], install[IMG_FILE_NAME]) then ERR_VERIFY_FAIL
    else if active.Some? && !Newer(w, file, active.value) then ERR_LOWER_VERSION
    else MODULE_UPDATE_SUCCESS
  }

  ghost function InstallModuleFile(w: World, h: string, pre: PreDir, s: Hmp, install: View, name: string): ErrorCode
    requires name in install
  {
    if !CheckFileSuffix(PathIn(Install, h, name), MODULE_PACKAGE_SUFFIX) then MODULE_UPDATE_SUCCESS
    else if !w.signed(install[name]) then ERR_VERIFY_FAIL
    else if Open(w, Install, h, install, name).None? then ERR_INSTALL_FAIL
    else ValidateVersion(w, h, pre, s, install, name)
  }

  ghost predicate AllFilesValid(w: World, h: string, pre: PreDir, s: Hmp, install: View) {
    forall name :: name in install ==> InstallModuleFile(w, h, pre, s, install, name) == MODULE_UPDATE_SUCCESS
  }

  ghost predicate HasArchive(h: string, install: View) {
    exists name :: name in install && CheckFileSuffix(PathIn(Install, h, name), MODULE_PACKAGE_SUFFIX)
  }

  /** How backing up the active directory ends: done, the old backup not removed, or some files not linked. */
  datatype BackupEnd = Linked | OldLeft(names: set<string>) | NewLeft(removal: Removal)

  /**
   The steps of an install that can fail: unpacking, the backup, writing the hash-tree data, setting the scan parameter
   and creating the active directory. `hadModule` says whether an earlier call left installModule_ set.
   */
  datatype InstallSteps = InstallSteps(
    unpacks: bool,
    hadModule: bool,
    backup: BackupEnd,
    writesVerity: bool,
    setsParam: bool,
    createsActive: bool)

  datatype Installed = Installed(hmp: Hmp, ok: bool)

  ghost function BackedUp(s: Hmp): Hmp {
    if s.active.Some? then s.(backup := s.active) else s
  }

  /** What a backup leaves that ends this way; without an active directory there is nothing to back up. */
  ghost function BackupEnded(s: Hmp, end: BackupEnd): Hmp {
    if s.active.None? then s
    else
      match end
      case Linked => BackedUp(s)
      case OldLeft(names) => s.(backup := RemoveDir(s.backup, Left(names)))
      case NewLeft(removal) => s.(backup := RemoveDir(s.active, removal))
  }

  ghost predicate BacksUp(s: Hmp, end: BackupEnd) {
    s.active.None? || end.Linked?
  }

  ghost function Unpacked(s: Hmp, files: View): View {
    (if s.install.Some? then s.install.value else map[]) + files
  }

  ghost function WithPending(s: Hmp, install: View): Hmp {
    BackedUp(s).(install := Some(install), active := if s.active.Some? then s.active else Some(map[]))
  }

  /** The steps after a backup that worked. */
  ghost predicate Completes(s: Hmp, steps: InstallSteps) {
    steps.writesVerity && steps.setsParam && (s.active.Some? || steps.createsActive)
  }

  /** ReallyInstallModulePackage, where removing the install directory again works. */
  ghost function InstallPackage(w: World, h: string, pre: PreDir, s: Hmp, files: View, steps: InstallSteps): Installed {
    var install := Unpacked(s, files);
    if Open(w, Preinstall, h, PreView(pre), HMP_INFO_NAME).None? then Installed(s, false)
    else if !steps.unpacks || !AllFilesValid(w, h, pre, s, install) then Installed(s.(install := None), false)
    else if !steps.hadModule && !HasArchive(h, install) then Installed(s.(install := None), false)
    else if !BacksUp(s, steps.backup) || !Completes(s, steps)
    then Installed(BackupEnded(s, steps.backup).(install := None), false)
    else Installed(WithPending(s, install), true)
  }

  /**
   An install that succeeds has unpacked every file it was given, and every archive then in the install directory is
   signed, parses, lies beside an image that the hash tree accepts, and is newer than what is preinstalled.
   */
  lemma SuccessfulInstallIsGenuine(
    w: World, h: string, pre: PreDir, s: Hmp, files: View, steps: InstallSteps, stem: string)
    requires InstallPackage(w, h, pre, s, files, steps).ok
    ensures var install, name := InstallPackage(w, h, pre, s, files, steps).hmp.install, stem + ['.'] + "zip";
            && install.Some?
            && (forall file :: file in files ==> file in install.value && install.value[file] == files[file])
            && (name in install.value ==>
                  var archive := install.value[name];
                  && w.signed(archive)
                  && w.parse(archive).Some?
                  && IMG_FILE_NAME in install.value && w.isImage(install.value[IMG_FILE_NAME])
                  && w.verity(archive, install.value[IMG_FILE_NAME])
                  && w.parse(pre.info).Some? && w.newer(w.parse(archive).value, w.parse(pre.info).value))
  {
    var install, name := Unpacked(s, files), stem + ['.'] + "zip";
    if name in install {
      ArchiveIsGenuine(w, h, pre, s, install, stem);
    }
    hide AllFilesValid, HasArchive;
  }

  lemma ArchiveIsGenuine(w: World, h: string, pre: PreDir, s: Hmp, install: View, stem: string)
    requires AllFilesValid(w, h, pre, s, install) && stem + ['.'] + "zip" in install
    ensures var archive := install[stem + ['.'] + "zip"];
            && w.signed(archive) && w.parse(archive).Some?
            && IMG_FILE_NAME in install && w.isImage(install[IMG_FILE_NAME])
            && w.verity(archive, install[IMG_FILE_NAME])
            && w.parse(pre.info).Some? && w.newer(w.parse(archive).value, w.parse(pre.info).value)
  {
    hide PathIn, CheckFileSuffix;
    var name := stem + ['.'] + "zip";
    ArchiveHasSuffix(h, stem);
    PathsDiffer(Install, Preinstall, h, name, HMP_INFO_NAME);
    assert InstallModuleFile(w, h, pre, s, install, name) == MODULE_UPDATE_SUCCESS;
  }

  /** Why an archive is refused: not signed, not newer than what is preinstalled, or its image not accepted. */
  lemma ArchiveIsRefused(w: World, h: string, pre: PreDir, s: Hmp, install: View, stem: string)
    requires stem + ['.'] + "zip" in install
    ensures var archive := install[stem + ['.'] + "zip"];
            var code := InstallModuleFile(w, h, pre, s, install, stem + ['.'] + "zip");
            var opens := && w.parse(archive).Some? && w.parse(pre.info).Some?
                         && IMG_FILE_NAME in install && w.isImage(install[IMG_FILE_NAME]);
            && (!w.signed(archive) ==> code == ERR_VERIFY_FAIL)
            && (w.signed(archive) && opens && !w.newer(w.parse(archive).value, w.parse(pre.info).value) ==>
                  code == ERR_LOWER_VERSION)
            && (&& w.signed(archive) && opens && w.newer(w.parse(archive).value, w.parse(pre.info).value)
                && !w.verity(archive, install[IMG_FILE_NAME]) ==>
                  code == ERR_VERIFY_FAIL)
  {
    hide PathIn, CheckFileSuffix;
    ArchiveHasSuffix(h, stem);
    PathsDiffer(Install, Preinstall, h, stem + ['.'] + "zip", HMP_INFO_NAME);
  }

  lemma ArchiveHasSuffix(h: string, stem: string)
    ensures CheckFileSuffix(PathIn(Install, h, stem + ['.'] + "zip"), MODULE_PACKAGE_SUFFIX)
  {
    hide CheckFileSuffix, Prefix;
    SuffixOf(Prefix(Install) + "/" + h + "/", stem, "zip");
  }

  // ---------------------------------------------------------------- runs of one HMP

  datatype Phase = Running | Booting
  datatype State = State(phase: Phase, hmp: Hmp)

  /** A boot processes every HMP, unless the revert of another HMP restarts the device before or after this one. */
  datatype Op =
    | InstallNew(files: View, steps: InstallSteps)
    | Uninstall
    | CrashRevert
    | PowerCycle
    | Boot
    | BootCutShort(processed: bool)

  const FACTORY := State(Booting, NO_DIRS)

  /** One operation with file operations that succeed; operations of the other phase do nothing. */
  ghost function Step(w: World, h: string, pre: PreDir, st: State, op: Op): State {
    if st.phase.Running? then
      match op
      case InstallNew(files, steps) => st.(hmp := InstallPackage(w, h, pre, st.hmp, files, steps).hmp)
      case Uninstall => st.(hmp := NO_DIRS)
      case CrashRevert =>
        var r := Revert(st.hmp, NO_REVERT_FAULTS);
        State(if r.rebooted then Booting else Running, r.hmp)
      case PowerCycle => st.(phase := Booting)
      case _ => st
    else
      var b := BootHmp(w, h, pre, st.hmp, w.mounts, NO_FAULTS);
      match op
      case Boot => if b.rebooted then State(Booting, b.hmp) else State(Running, b.hmp.(install := None))
      case BootCutShort(processed) => if processed then st.(hmp := b.hmp) else st
      case _ => st
  }

  ghost function Run(w: World, h: string, pre: PreDir, st: State, ops: seq<Op>): State {
    if ops == [] then st
    else Step(w, h, pre, Run(w, h, pre, st, ops[..|ops| - 1]), ops[|ops| - 1])
  }

  // ---------------------------------------------------------------- what holds in every run

  ghost function ActivePackage(w: World, h: string, pre: PreDir, s: Hmp): Option<Package> {
    Candidate(w, Active, h, pre, s.active)
  }

  ghost function PendingPackage(w: World, h: string, pre: PreDir, s: Hmp): Option<Package> {
    Candidate(w, Install, h, pre, s.install)
  }

  /**
   Between operations a backup exists only beside an active directory. On a running device, moreover, an active package
   that loads has mounted, a backup loads only if active does, and a pending package was validated and backed up for.
   */
  ghost predicate Good(w: World, h: string, pre: PreDir, st: State) {
    var s := st.hmp;
    var system := Load(w, Preinstall, h, PreView(pre));
    var active, pending := ActivePackage(w, h, pre, s), PendingPackage(w, h, pre, s);
    var backup := Candidate(w, Active, h, pre, s.backup);
    && (s.backup.Some? ==> s.active.Some?)
    && (st.phase.Running? ==>
          && (s.install.Some? ==> s.active.Some?)
          && (active.Some? ==> Newer(w, active.value.file, system.value.file) && w.mounts(active.value))
          && (active.None? ==> backup.None?)
          && (pending.Some? ==>
                && Newer(w, pending.value.file, system.value.file)
                && (active.Some? ==> Newer(w, pending.value.file, active.value.file))
                && backup == active))
  }

  /** An install directory whose files all validate offers only a package newer than what it would replace. */
  lemma ValidatedIsNewer(w: World, h: string, pre: PreDir, s: Hmp, install: View)
    requires AllFilesValid(w, h, pre, s, install)
    requires Candidate(w, Install, h, pre, Some(install)).Some?
    ensures var p := Load(w, Install, h, install).value;
            && Newer(w, p.file, Load(w, Preinstall, h, PreView(pre)).value.file)
            && (ActivePackage(w, h, pre, s).Some? ==> Newer(w, p.file, ActivePackage(w, h, pre, s).value.file))
  {
    InfoNameHasSuffix(Install, h);
    assert InstallModuleFile(w, h, pre, s, install, HMP_INFO_NAME) == MODULE_UPDATE_SUCCESS;
    assert ValidateVersion(w, h, pre, s, install, HMP_INFO_NAME) == MODULE_UPDATE_SUCCESS;
  }

  lemma GoodWithPending(w: World, h: string, pre: PreDir, s: Hmp, install: View)
    requires Good(w, h, pre, State(Running, s))
    requires var p := Candidate(w, Install, h, pre, Some(install));
             p.Some? ==>
               && Newer(w, p.value.file, Load(w, Preinstall, h, PreView(pre)).value.file)
               && (ActivePackage(w, h, pre, s).Some? ==> Newer(w, p.value.file, ActivePackage(w, h, pre, s).value.file))
    ensures Good(w, h, pre, State(Running, WithPending(s, install)))
  {
  }

  lemma GoodWithoutPending(w: World, h: string, pre: PreDir, s: Hmp)
    requires Good(w, h, pre, State(Running, s))
    ensures Good(w, h, pre, State(Running, s.(install := None)))
  {
  }

  lemma PartLoadsAlike(w: World, h: string, pre: PreDir, dir: Option<View>, removal: Removal)
    ensures var part := Candidate(w, Active, h, pre, RemoveDir(dir, removal));
            part.None? || part == Candidate(w, Active, h, pre, dir)
  {
  }

  lemma GoodAfterBackup(w: World, h: string, pre: PreDir, s: Hmp, end: BackupEnd)
    requires Good(w, h, pre, State(Running, s))
    ensures Good(w, h, pre, State(Running, BackupEnded(s, end).(install := None)))
  {
    if end.OldLeft? {
      PartLoadsAlike(w, h, pre, s.backup, Left(end.names));
    } else if end.NewLeft? {
      PartLoadsAlike(w, h, pre, s.active, end.removal);
    }
    hide Load, RemoveDir;
  }

  lemma InstallKeepsGood(w: World, h: string, pre: PreDir, s: Hmp, files: View, steps: InstallSteps)
    requires Good(w, h, pre, State(Running, s))
    ensures Good(w, h, pre, State(Running, InstallPackage(w, h, pre, s, files, steps).hmp))
  {
    hide AllFilesValid, HasArchive, Good, BackupEnded;
    var install := Unpacked(s, files);
    if InstallPackage(w, h, pre, s, files, steps).ok {
      if Candidate(w, Install, h, pre, Some(install)).Some? {
        ValidatedIsNewer(w, h, pre, s, install);
      }
      GoodWithPending(w, h, pre, s, install);
    } else {
      GoodWithoutPending(w, h, pre, s);
      GoodAfterBackup(w, h, pre, s, steps.backup);
    }
  }

  /** A boot that does not restart the device ends with the mounted package in active, or with no update directory. */
  lemma BootEndsSettled(w: World, h: string, pre: PreDir, s: Hmp)
    requires s.backup.Some? ==> s.active.Some?
    requires !BootHmp(w, h, pre, s, w.mounts, NO_FAULTS).rebooted
    ensures var b := BootHmp(w, h, pre, s, w.mounts, NO_FAULTS);
            && (FindPackages(w, h, pre, s).Some? ==>
                  || (b.hmp.active.None? && b.hmp.backup.None?)
                  || (b.mounted.Some? && b.mounted == ActivePackage(w, h, pre, b.hmp)))
            && (FindPackages(w, h, pre, s).None? ==> b == Booted(s, false, None))
    ensures Good(w, h, pre, State(Running, BootHmp(w, h, pre, s, w.mounts, NO_FAULTS).hmp.(install := None)))
  {
    hide Load, PathIn;
    PathsOfFound(w, h, pre, s);
    PathsDiffer(Preinstall, Active, h, HMP_INFO_NAME, HMP_INFO_NAME);
    var pending := PendingPackage(w, h, pre, s);
    if pending.Some? && s.active.Some? {
      StagedDirectoryLoads(w, h, s.install.value, s.active.value);
    }
  }

  lemma BootKeepsBackupBesideActive(w: World, h: string, pre: PreDir, s: Hmp)
    requires s.backup.Some? ==> s.active.Some?
    ensures var b := BootHmp(w, h, pre, s, w.mounts, NO_FAULTS).hmp;
            b.backup.Some? ==> b.active.Some?
  {
    hide FindPackages;
  }

  lemma StepKeepsGood(w: World, h: string, pre: PreDir, st: State, op: Op)
    requires Good(w, h, pre, st)
    ensures Good(w, h, pre, Step(w, h, pre, st, op))
  {
    hide Load, FindPackages, Prepare, InstallPackage;
    if st.phase.Running? {
      if op.InstallNew? {
        InstallKeepsGood(w, h, pre, st.hmp, op.files, op.steps);
      }
    } else {
      BootKeepsBackupBesideActive(w, h, pre, st.hmp);
      if !BootHmp(w, h, pre, st.hmp, w.mounts, NO_FAULTS).rebooted {
        BootEndsSettled(w, h, pre, st.hmp);
      }
    }
  }

  lemma {:induction false} EveryRunIsGood(w: World, h: string, pre: PreDir, ops: seq<Op>)
    ensures Good(w, h, pre, Run(w, h, pre, FACTORY, ops))
  {
    if ops != [] {
      EveryRunIsGood(w, h, pre, ops[..|ops| - 1]);
      StepKeepsGood(w, h, pre, Run(w, h, pre, FACTORY, ops[..|ops| - 1]), ops[|ops| - 1]);
    }
  }

  // ---------------------------------------------------------------- when install files are also linked in active

  /** The condition under which a boot stages: both directories exist and install offers the newer package. */
  ghost predicate Stages(w: World, s: Hmp, r: Repository) {
    && r.install.Some? && s.install.Some? && s.active.Some?
    && (r.active.None? || Newer(w, r.install.value.file, r.active.value.file))
  }

  ghost predicate BootStages(w: World, h: string, pre: PreDir, s: Hmp) {
    FindPackages(w, h, pre, s).Some? && Stages(w, s, FindPackages(w, h, pre, s).value)
  }

  /** A booting device whose active directory already offers the package that still waits in install. */
  ghost predicate Staged(w: World, h: string, pre: PreDir, st: State) {
    var pending := PendingPackage(w, h, pre, st.hmp);
    && st.phase.Booting?
    && pending.Some?
    && ActivePackage(w, h, pre, st.hmp) == Some(MovedToActive(h, pending.value))
  }

  /** A boot that leaves both directories left install alone, and active too unless it staged. */
  lemma BootKeepsOrStages(w: World, h: string, pre: PreDir, s: Hmp)
    ensures var b := BootHmp(w, h, pre, s, w.mounts, NO_FAULTS).hmp;
            b.install.Some? && b.active.Some? ==>
              && b.install == s.install
              && (BootStages(w, h, pre, s) ==> Staged(w, h, pre, State(Booting, b)))
              && (!BootStages(w, h, pre, s) ==> b.active == s.active)
  {
    hide Load, PathIn;
    if BootStages(w, h, pre, s) {
      StagedDirectoryLoads(w, h, s.install.value, s.active.value);
    }
  }

  /** A power cycle does not make a device staged: what waits in install was validated as newer than active. */
  lemma RunningIsNotStaged(w: World, h: string, pre: PreDir, s: Hmp)
    requires StrictOrder(w) && Good(w, h, pre, State(Running, s))
    ensures !Staged(w, h, pre, State(Booting, s))
  {
    if PendingPackage(w, h, pre, s).Some? {
      PathsDiffer(Install, Active, h, HMP_INFO_NAME, HMP_INFO_NAME);
    }
  }

  lemma StagedIffMounted(w: World, h: string, pre: PreDir, s: Hmp)
    requires s.backup.Some? ==> s.active.Some?
    ensures var pending, b := PendingPackage(w, h, pre, s), BootHmp(w, h, pre, s, w.mounts, NO_FAULTS);
            Staged(w, h, pre, State(Booting, b.hmp)) <==>
              pending.Some? && b.mounted == Some(MovedToActive(h, pending.value))
  {
    hide Load, PathIn;
    PathsOfFound(w, h, pre, s);
    PathsDiffer(Preinstall, Active, h, HMP_INFO_NAME, HMP_INFO_NAME);
    if PendingPackage(w, h, pre, s).Some? && s.active.Some? {
      StagedDirectoryLoads(w, h, s.install.value, s.active.value);
    }
  }

  /** A device is staged exactly when the last boot to process it, one cut short, mounted the pending package. */
  lemma StagedByLastBoot(w: World, h: string, pre: PreDir, st: State, op: Op)
    requires StrictOrder(w) && Good(w, h, pre, st)
    ensures var pending := PendingPackage(w, h, pre, st.hmp);
            Staged(w, h, pre, Step(w, h, pre, st, op)) <==>
            && st.phase.Booting?
            && !op.Boot?
            && (if op == BootCutShort(true)
                then && pending.Some?
                     && BootHmp(w, h, pre, st.hmp, w.mounts, NO_FAULTS).mounted
                        == Some(MovedToActive(h, pending.value))
                else Staged(w, h, pre, st))
  {
    hide Load, FindPackages, Prepare, InstallPackage;
    if st.phase.Running? {
      RunningIsNotStaged(w, h, pre, st.hmp);
    } else {
      StagedIffMounted(w, h, pre, st.hmp);
      BootLowersDirectories(w, h, pre, st.hmp, w.mounts, NO_FAULTS);
      RestartClearsInstall(w, h, pre, st.hmp);
    }
  }

  lemma RestartClearsInstall(w: World, h: string, pre: PreDir, s: Hmp)
    ensures var b := BootHmp(w, h, pre, s, w.mounts, NO_FAULTS);
            b.rebooted ==> b.hmp.install.None? && b.mounted.None?
  {
    hide FindPackages;
  }
}
