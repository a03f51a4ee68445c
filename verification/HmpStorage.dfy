/**
 The directories of one HMP as the source really keeps them: names bound to inodes, with hard links between install,
 active and backup. The methods are those of services/module_update/src/module_update.cpp,
 services/module_update/service/src/module_update_main.cpp and Revert of services/module_update/util/src/module_utils.cpp;
 each is proved to do to the visible contents what the function of the same name in Lifecycle does, so that links
 behave as copies.
 */
module HmpStorages {
  import opened Common
  import opened ModuleFiles
  import opened Packages
  import opened Lifecycle
  import opened ModuleFileRepositories

  type Inode = nat
  type Dir = map<string, Inode>

  predicate InStore(dir: Option<Dir>, store: map<Inode, Bytes>) {
    dir.Some? ==> forall name :: name in dir.value ==> dir.value[name] in store
  }

  /** No file of one directory is also linked in the other. */
  ghost predicate ShareNothing(a: Option<Dir>, b: Option<Dir>) {
    a.Some? && b.Some? ==> forall m, n :: m in a.value && n in b.value ==> a.value[m] != b.value[n]
  }

  /** Distinct names are distinct files. */
  ghost predicate Unshared(dir: Option<Dir>) {
    dir.Some? ==> forall m, n :: m in dir.value && n in dir.value && dir.value[m] == dir.value[n] ==> m == n
  }

  function Show(dir: Option<Dir>, store: map<Inode, Bytes>): (view: Option<View>)
    requires InStore(dir, store)
    ensures view.Some? <==> dir.Some?
  {
    if dir.None? then None
    else Some(map name | name in dir.value :: store[dir.value[name]])
  }

  lemma ShowDependsOnInodes(dir: Option<Dir>, a: map<Inode, Bytes>, b: map<Inode, Bytes>)
    requires InStore(dir, a) && InStore(dir, b)
    requires dir.Some? ==> forall name :: name in dir.value ==> a[dir.value[name]] == b[dir.value[name]]
    ensures Show(dir, a) == Show(dir, b)
  {
    if dir.Some? {
      assert Show(dir, a).value == Show(dir, b).value;
    }
  }

  lemma ShowOverwritten(dir: Dir, store: map<Inode, Bytes>, name: string, bytes: Bytes)
    requires InStore(Some(dir), store) && Unshared(Some(dir)) && name in dir
    ensures InStore(Some(dir), store[dir[name] := bytes])
    ensures Show(Some(dir), store[dir[name] := bytes]) == Some(Show(Some(dir), store).value[name := bytes])
  {
    assert Show(Some(dir), store[dir[name] := bytes]).value == Show(Some(dir), store).value[name := bytes];
  }

  lemma ShowCreated(dir: Dir, store: map<Inode, Bytes>, name: string, inode: Inode, bytes: Bytes)
    requires InStore(Some(dir), store) && inode !in store
    ensures InStore(Some(dir[name := inode]), store[inode := bytes])
    ensures Show(Some(dir[name := inode]), store[inode := bytes]) == Some(Show(Some(dir), store).value[name := bytes])
  {
    assert Show(Some(dir[name := inode]), store[inode := bytes]).value == Show(Some(dir), store).value[name := bytes];
  }

  lemma ShowOverlay(lower: Dir, upper: Dir, store: map<Inode, Bytes>)
    requires InStore(Some(lower), store) && InStore(Some(upper), store)
    ensures InStore(Some(lower + upper), store)
    ensures Show(Some(lower + upper), store) == Some(Show(Some(lower), store).value + Show(Some(upper), store).value)
  {
    assert Show(Some(lower + upper), store).value == Show(Some(lower), store).value + Show(Some(upper), store).value;
  }

  lemma Relinked(lower: Dir, upper: Dir, todo: set<string>, name: string)
    requires name in upper
    ensures ((lower + (upper - todo)) - {name})[name := upper[name]] == lower + (upper - (todo - {name}))
  {
  }

  lemma ShowKept(dir: Option<Dir>, store: map<Inode, Bytes>, removal: Removal)
    requires InStore(dir, store)
    ensures InStore(Keep(dir, removal), store)
    ensures Show(Keep(dir, removal), store) == RemoveDir(Show(dir, store), removal)
  {
    if dir.Some? && removal.Left? {
      assert Show(Keep(dir, removal), store).value == RemoveDir(Show(dir, store), removal).value;
    }
  }

  lemma KeptSharesNothing(a: Option<Dir>, removal: Removal, b: Option<Dir>)
    ensures ShareNothing(a, b) ==> ShareNothing(Keep(a, removal), b)
  {
  }

  lemma FileIgnoresInstall(w: World, h: string, pre: PreDir, s: Hmp, t: Hmp, install: View, name: string)
    requires s.active == t.active && name in install
    ensures Lifecycle.InstallModuleFile(w, h, pre, s, install, name) ==
            Lifecycle.InstallModuleFile(w, h, pre, t, install, name)
  {
    hide Open, Newer, CheckFileSuffix, PathIn, PreView;
  }

  /** Validation looks at the active directory and at the files to install, never at the install directory. */
  lemma AllFilesValidIgnoresInstall(w: World, h: string, pre: PreDir, s: Hmp, t: Hmp, install: View)
    requires s.active == t.active
    ensures AllFilesValid(w, h, pre, s, install) == AllFilesValid(w, h, pre, t, install)
  {
    hide Lifecycle.InstallModuleFile;
    forall name | name in install
      ensures Lifecycle.InstallModuleFile(w, h, pre, s, install, name) ==
              Lifecycle.InstallModuleFile(w, h, pre, t, install, name)
    {
      FileIgnoresInstall(w, h, pre, s, t, install, name);
    }
  }

  lemma OneMoreFile<V>(view: map<string, V>, files: map<string, V>, names: set<string>, name: string)
    requires name in names && name in files
    ensures (view + (files - names))[name := files[name]] == view + (files - (names - {name}))
  {
  }

  function Keep(dir: Option<Dir>, removal: Removal): Option<Dir> {
    if dir.None? || removal.Removed? then None
    else Some(map name | name in dir.value && name in removal.names :: dir.value[name])
  }

  /** The file operations of a backup that fail. */
  datatype BackupFaults = BackupFaults(
    removesOld: Removal,
    creates: bool,
    linkFails: string -> bool,
    removesNew: Removal)

  ghost predicate NoBackupFaults(faults: BackupFaults) {
    faults.removesOld.Removed? && faults.creates && forall name :: !faults.linkFails(name)
  }

  /** What removals an uninstall does not finish. */
  datatype UninstallFaults = UninstallFaults(install: Removal, active: Removal, backup: Removal)

  /** BackupEnded on names and inodes. */
  ghost function EndedDir(active: Option<Dir>, backup: Option<Dir>, end: BackupEnd): Option<Dir> {
    if active.None? then backup
    else
      match end
      case Linked => active
      case OldLeft(names) => Keep(backup, Left(names))
      case NewLeft(removal) => Keep(active, removal)
  }

  lemma PartOfLinks(links: Dir, active: Dir, removal: Removal)
    requires links.Keys <= active.Keys && forall name :: name in links ==> links[name] == active[name]
    ensures var kept := Keep(Some(links), removal);
            kept == Keep(Some(active), if kept.None? then Removed else Left(kept.value.Keys))
  {
    var kept := Keep(Some(links), removal);
    if kept.Some? {
      assert kept.value == Keep(Some(active), Left(kept.value.Keys)).value;
    }
  }

  lemma BackupIgnoresInstall(s: Hmp, install: Option<View>, end: BackupEnd)
    ensures BackupEnded(s.(install := install), end) == BackupEnded(s, end).(install := install)
    ensures BacksUp(s.(install := install), end) == BacksUp(s, end)
  {
  }

  class HmpStorage {
    const w: World
    const hmpName: string
    const pre: PreDir

    var install: Option<Dir>
    var active: Option<Dir>
    var backup: Option<Dir>
    var store: map<Inode, Bytes>
    var next: Inode
    var installModule: Option<ModuleFile>

    ghost predicate Valid()
      reads this
    {
      && InStore(install, store)
      && InStore(active, store)
      && InStore(backup, store)
      && (forall i :: i in store ==> i < next)
    }

    /** What the install directory holds can be rewritten in place without touching active or backup. */
    ghost predicate Separate()
      reads this
    {
      && Unshared(install)
      && ShareNothing(install, active)
      && ShareNothing(install, backup)
    }

    function View(): Hmp
      requires Valid()
      reads this
    {
      Hmp(Show(install, store), Show(active, store), Show(backup, store))
    }

    constructor (w: World, hmpName: string, pre: PreDir)
      ensures Valid() && Separate() && View() == NO_DIRS
      ensures this.w == w && this.hmpName == hmpName && this.pre == pre
    {
      this.w, this.hmpName, this.pre := w, hmpName, pre;
      install, active, backup, store, next, installModule := None, None, None, map[], 0, None;
    }

    // -------------------------------------------------------------- links

    /** unlink and link every install file into active; `fails` says which links fail. */
    method StageUpdateModulePackage(fails: string -> bool) returns (ok: bool)
      requires Valid() && install.Some? && HMP_INFO_NAME in install.value
      modifies this`active
      ensures Valid()
      ensures active.Some? == old(active).Some?
      ensures ok ==> active.Some? && active.value == old(active).value + install.value
      ensures View() == old(View()).(active := Show(active, store))
      ensures ok ==> Show(active, store) == Some(old(View()).active.value + View().install.value)
      ensures ok <==> old(active).Some? && forall name :: name in install.value ==> !fails(name)
    {
      if active.None? {
        return false;
      }
      ghost var start := active.value;
      ghost var todo := install.value.Keys;
      assert start + (install.value - todo) == start;
      var ok' := LinkFile(HMP_INFO_NAME, fails);
      if !ok' {
        return false;
      }
      Relinked(start, install.value, todo, HMP_INFO_NAME);
      todo := todo - {HMP_INFO_NAME};
      var files := install.value.Keys;
      while files != {}
        invariant Valid() && active.Some? && todo <= files <= install.value.Keys
        invariant forall name :: name in install.value && name !in files ==> !fails(name)
        invariant active.value == start + (install.value - todo)
      {
        var name :| name in files;
        ok' := LinkFile(name, fails);
        if !ok' {
          return false;
        }
        Relinked(start, install.value, todo, name);
        files, todo := files - {name}, todo - {name};
      }
      assert install.value - todo == install.value;
      ShowOverlay(start, install.value, store);
      return true;
    }

    /** unlink a name in active and link it to the install file. */
    method LinkFile(name: string, fails: string -> bool) returns (ok: bool)
      requires Valid() && active.Some? && install.Some? && name in install.value
      modifies this`active
      ensures Valid() && active.Some? && ok == !fails(name)
      ensures ok ==> active.value == (old(active).value - {name})[name := install.value[name]]
    {
      active := Some(active.value - {name});
      if fails(name) {
        return false;
      }
      active := Some(active.value[name := install.value[name]]);
      return true;
    }

    /** Link every active file into a new backup directory; `end` is how that went. */
    method BackupActiveModules(faults: BackupFaults) returns (ok: bool, ghost end: BackupEnd)
      requires Valid()
      modifies this`backup
      ensures Valid()
      ensures backup == EndedDir(active, old(backup), end)
      ensures View() == BackupEnded(old(View()), end) && ok == BacksUp(old(View()), end)
      ensures NoBackupFaults(faults) ==> end.Linked?
    {
      if active.None? {
        return true, Linked;
      }
      if backup.Some? {
        ShowKept(backup, store, faults.removesOld);
        backup := Keep(backup, faults.removesOld);
        if backup.Some? {
          return false, OldLeft(faults.removesOld.names);
        }
      }
      if !faults.creates {
        return false, NewLeft(Removed);
      }
      ok, end := LinkFiles(faults);
      if ok {
        return true, Linked;
      }
      ShowKept(active, store, end.removal);
    }

    /** Link the active files into an empty backup directory, which is removed again when a link fails. */
    method LinkFiles(faults: BackupFaults) returns (ok: bool, ghost end: BackupEnd)
      requires Valid() && active.Some?
      modifies this`backup
      ensures Valid()
      ensures if ok then backup == active else end.NewLeft? && backup == Keep(active, end.removal)
      ensures (forall name :: !faults.linkFails(name)) ==> ok
    {
      end := Linked;
      backup := Some(map[]);
      var files := active.value.Keys;
      while files != {}
        invariant Valid() && active.Some? && backup.Some? && files <= active.value.Keys
        invariant backup.value.Keys == active.value.Keys - files
        invariant forall name :: name in backup.value ==> backup.value[name] == active.value[name]
      {
        var name :| name in files;
        files := files - {name};
        if faults.linkFails(name) {
          ghost var links := backup.value;
          backup := Keep(backup, faults.removesNew);
          end := NewLeft(if backup.None? then Removed else Left(backup.value.Keys));
          PartOfLinks(links, active.value, faults.removesNew);
          return false, end;
        }
        backup := Some(backup.value[name := active.value[name]]);
      }
      assert backup.value == active.value;
      return true, end;
    }

    /** Unpacking overwrites a file that exists in place, so every name linked to its inode would change with it. */
    method PrepareFileToDestDir(files: View)
      requires Valid() && Separate() && install.Some?
      modifies this`install, this`store, this`next
      ensures Valid() && Separate() && install.Some?
      ensures View() == old(View()).(install := Some(old(View()).install.value + files))
    {
      ghost var start := View();
      var names := files.Keys;
      assert start.install.value + (files - names) == start.install.value;
      while names != {}
        invariant Valid() && Separate() && install.Some? && names <= files.Keys
        invariant View() == start.(install := Some(start.install.value + (files - names)))
      {
        var name :| name in names;
        WriteFile(name, files[name]);
        OneMoreFile(start.install.value, files, names, name);
        names := names - {name};
      }
      assert files - names == files;
    }

    method WriteFile(name: string, bytes: Bytes)
      requires Valid() && Separate() && install.Some?
      modifies this`install, this`store, this`next
      ensures Valid() && Separate() && install.Some?
      ensures View() == old(View()).(install := Some(old(View()).install.value[name := bytes]))
    {
      if name in install.value {
        ShowOverwritten(install.value, store, name, bytes);
        ShowDependsOnInodes(active, store, store[install.value[name] := bytes]);
        ShowDependsOnInodes(backup, store, store[install.value[name] := bytes]);
        hide Show;
        store := store[install.value[name] := bytes];
      } else {
        ShowCreated(install.value, store, name, next, bytes);
        ShowDependsOnInodes(active, store, store[next := bytes]);
        ShowDependsOnInodes(backup, store, store[next := bytes]);
        hide Show;
        store := store[next := bytes];
        install := Some(install.value[name := next]);
        next := next + 1;
      }
    }

    // -------------------------------------------------------------- install and uninstall

    method ValidateVersion(view: View, name: string) returns (code: ErrorCode)
      requires Valid()
      requires name in view && Open(w, Install, hmpName, view, name).Some?
      ensures code == Lifecycle.ValidateVersion(w, hmpName, pre, View(), view, name)
    {
      var file := Open(w, Install, hmpName, view, name).value;
      var system := Open(w, Preinstall, hmpName, PreView(pre), HMP_INFO_NAME);
      if system.None? {
        return ERR_INSTALL_FAIL;
      }
      var newer := Newer(w, file, system.value);
      if !newer {
        return ERR_LOWER_VERSION;
      }
      if IMG_FILE_NAME !in view || !w.verity(view[name], view[IMG_FILE_NAME]) {
        return ERR_VERIFY_FAIL;
      }
      if active.None? || HMP_INFO_NAME !in active.value {
        return MODULE_UPDATE_SUCCESS;
      }
      var activeFile := Open(w, Active, hmpName, Show(active, store).value, HMP_INFO_NAME);
      if activeFile.None? {
        return MODULE_UPDATE_SUCCESS;
      }
      newer := Newer(w, file, activeFile.value);
      return if newer then MODULE_UPDATE_SUCCESS else ERR_LOWER_VERSION;
    }

    method InstallModuleFile(view: View, name: string) returns (code: ErrorCode)
      requires Valid() && name in view
      modifies this`installModule
      ensures code == Lifecycle.InstallModuleFile(w, hmpName, pre, View(), view, name)
      ensures installModule.Some? <==>
              || old(installModule).Some?
              || (&& code == MODULE_UPDATE_SUCCESS
                  && CheckFileSuffix(PathIn(Install, hmpName, name), MODULE_PACKAGE_SUFFIX))
    {
      if !CheckFileSuffix(PathIn(Install, hmpName, name), MODULE_PACKAGE_SUFFIX) {
        return MODULE_UPDATE_SUCCESS;
      }
      if !w.signed(view[name]) {
        return ERR_VERIFY_FAIL;
      }
      var file := Open(w, Install, hmpName, view, name);
      if file.None? {
        return ERR_INSTALL_FAIL;
      }
      code := ValidateVersion(view, name);
      if code == MODULE_UPDATE_SUCCESS {
        installModule := file;
      }
    }

    /** Validate the unpacked files one by one, in any order, up to the first that fails. */
    method InstallModuleFiles(view: View) returns (code: ErrorCode)
      requires Valid()
      modifies this`installModule
      ensures code == MODULE_UPDATE_SUCCESS <==> AllFilesValid(w, hmpName, pre, View(), view)
      ensures code == MODULE_UPDATE_SUCCESS ==>
                (installModule.Some? <==> old(installModule).Some? || HasArchive(hmpName, view))
    {
      var files := view.Keys;
      while files != {}
        invariant files <= view.Keys
        invariant forall name ::
                    name in view && name !in files ==>
                      Lifecycle.InstallModuleFile(w, hmpName, pre, View(), view, name) == MODULE_UPDATE_SUCCESS
        invariant installModule.Some? <==>
                  || old(installModule).Some?
                  || exists name :: name in view && name !in files &&
                                    CheckFileSuffix(PathIn(Install, hmpName, name), MODULE_PACKAGE_SUFFIX)
      {
        var name :| name in files;
        files := files - {name};
        code := InstallModuleFile(view, name);
        if code != MODULE_UPDATE_SUCCESS {
          return;
        }
      }
      return MODULE_UPDATE_SUCCESS;
    }

    method PrepareResourceForReboot(faults: BackupFaults, writesVerity: bool, setsParam: bool, createsActive: bool)
      returns (code: ErrorCode, ghost end: BackupEnd)
      requires Valid()
      modifies this`active, this`backup
      ensures Valid()
      ensures NoBackupFaults(faults) ==> end.Linked?
      ensures code == if installModule.None? then ERR_DEAL_HVB_INFO_FAIL
                      else if !BacksUp(old(View()), end) then ERR_BACKUP_FAIL
                      else if !writesVerity then ERR_DEAL_HVB_INFO_FAIL
                      else if !setsParam then ERR_SET_PARAM_FAIL
                      else if old(active).None? && !createsActive then ERR_CREATE_ACTIVE_FAIL
                      else MODULE_UPDATE_SUCCESS
      ensures installModule.None? ==> unchanged(this)
      ensures installModule.Some? ==> backup == EndedDir(old(active), old(backup), end)
      ensures active == if code == MODULE_UPDATE_SUCCESS && old(active).None? then Some(map[]) else old(active)
      ensures installModule.Some? ==>
                var ended := BackupEnded(old(View()), end);
                View() == if code == MODULE_UPDATE_SUCCESS && ended.active.None? then ended.(active := Some(map[]))
                          else ended
    {
      if installModule.None? {
        return ERR_DEAL_HVB_INFO_FAIL, Linked;
      }
      var ok;
      ok, end := BackupActiveModules(faults);
      if !ok {
        return ERR_BACKUP_FAIL, end;
      }
      if !writesVerity {
        return ERR_DEAL_HVB_INFO_FAIL, end;
      }
      if !setsParam {
        return ERR_SET_PARAM_FAIL, end;
      }
      if active.None? {
        if !createsActive {
          return ERR_CREATE_ACTIVE_FAIL, end;
        }
        active := Some(map[]);
        assert Show(active, store).value == map[];
      }
      return MODULE_UPDATE_SUCCESS, end;
    }

    method Unpack(files: View)
      requires Valid() && Separate()
      modifies this`install, this`store, this`next
      ensures Valid() && Separate() && install.Some?
      ensures View() == old(View()).(install := Some(Unpacked(old(View()), files)))
    {
      if install.None? {
        install := Some(map[]);
        assert Show(install, store).value == map[];
      }
      PrepareFileToDestDir(files);
    }

    /** Validate what was unpacked and prepare the next boot, or remove it again. */
    method ValidateAndPrepare(faults: BackupFaults, writesVerity: bool, setsParam: bool, createsActive: bool)
      returns (code: ErrorCode, ghost end: BackupEnd)
      requires Valid() && Separate() && install.Some?
      modifies this`active, this`backup, this`install, this`installModule
      ensures Valid() && Separate()
      ensures NoBackupFaults(faults) ==> end.Linked?
      ensures var s, view := old(View()), old(View()).install.value;
              var valid := && AllFilesValid(w, hmpName, pre, s, view)
                           && (old(installModule).Some? || HasArchive(hmpName, view));
              var completes := writesVerity && setsParam && (s.active.Some? || createsActive);
              && (code == MODULE_UPDATE_SUCCESS <==> valid && BacksUp(s, end) && completes)
              && View() == if !valid then s.(install := None)
                           else if code == MODULE_UPDATE_SUCCESS then WithPending(s, view)
                           else BackupEnded(s, end).(install := None)
    {
      hide AllFilesValid, HasArchive;
      var view := Show(install, store).value;
      code := InstallModuleFiles(view);
      if code != MODULE_UPDATE_SUCCESS {
        install := None;
        return code, Linked;
      }
      hide Show;
      code, end := PrepareResourceForReboot(faults, writesVerity, setsParam, createsActive);
      if code != MODULE_UPDATE_SUCCESS {
        install := None;
      }
    }

    method ReallyInstallModulePackage(
      files: View, unpacks: bool, faults: BackupFaults, writesVerity: bool, setsParam: bool, createsActive: bool)
      returns (code: ErrorCode, ghost end: BackupEnd)
      requires Valid() && Separate()
      modifies this
      ensures Valid() && Separate()
      ensures NoBackupFaults(faults) ==> end.Linked?
      ensures var steps :=
                InstallSteps(unpacks, old(installModule).Some?, end, writesVerity, setsParam, createsActive);
              var i := InstallPackage(w, hmpName, pre, old(View()), files, steps);
              View() == i.hmp && (code == MODULE_UPDATE_SUCCESS <==> i.ok)
    {
      hide AllFilesValid, HasArchive, Open, Show, BackupEnded, BacksUp, NoBackupFaults;
      ghost var start := View();
      end := Linked;
      if Open(w, Preinstall, hmpName, PreView(pre), HMP_INFO_NAME).None? {
        return ERR_INSTALL_FAIL, end;
      }
      Unpack(files);
      if !unpacks {
        install := None;
        return ERR_INSTALL_FAIL, end;
      }
      AllFilesValidIgnoresInstall(w, hmpName, pre, View(), start, Unpacked(start, files));
      BackupIgnoresInstall(start, View().install, BackupEnd.Linked);
      code, end := ValidateAndPrepare(faults, writesVerity, setsParam, createsActive);
      BackupIgnoresInstall(start, Some(Unpacked(start, files)), end);
    }

    /** Remove the three directories; an HMP without any is reported as an invalid path. */
    method UninstallModulePackage(faults: UninstallFaults) returns (code: ErrorCode)
      requires Valid()
      modifies this`install, this`active, this`backup
      ensures Valid() && (old(Separate()) ==> Separate())
      ensures var s := old(View());
              && View() == Hmp(RemoveDir(s.install, faults.install),
                               RemoveDir(s.active, faults.active),
                               RemoveDir(s.backup, faults.backup))
              && code == if s == NO_DIRS then ERR_INVALID_PATH
                         else if View() == NO_DIRS then MODULE_UPDATE_SUCCESS
                         else ERR_UNINSTALL_FAIL
    {
      var hmpIsValid := install.Some? || active.Some? || backup.Some?;
      ShowKept(install, store, faults.install);
      ShowKept(active, store, faults.active);
      ShowKept(backup, store, faults.backup);
      install, active := Keep(install, faults.install), Keep(active, faults.active);
      backup := Keep(backup, faults.backup);
      if !hmpIsValid {
        return ERR_INVALID_PATH;
      }
      return if install.None? && active.None? && backup.None? then MODULE_UPDATE_SUCCESS else ERR_UNINSTALL_FAIL;
    }

    // -------------------------------------------------------------- revert

    method Revert(faults: RevertFaults) returns (rebooted: bool)
      requires Valid()
      modifies this`install, this`active, this`backup
      ensures Valid() && Lifecycle.Reverted(View(), rebooted) == Lifecycle.Revert(old(View()), faults)
      ensures old(Separate()) ==> Separate()
      ensures old(ShareNothing(install, backup)) ==> ShareNothing(install, backup)
      ensures faults.install.Removed? ==> install.None?
    {
      ghost var start := View();
      if install.Some? {
        ShowKept(install, store, faults.install);
        install := Keep(install, faults.install);
        if install.Some? {
          return false;
        }
      }
      if active.None? {
        return false;
      }
      ShowKept(active, store, faults.active);
      active := Keep(active, faults.active);
      if active.Some? {
        return false;
      }
      if backup.Some? && faults.renames {
        active, backup := backup, None;
      }
      return true;
    }

    // -------------------------------------------------------------- boot

    /** The repository holds what FindPackages finds. */
    ghost predicate Holds(repository: ModuleFileRepository, r: Repository)
      reads repository
    {
      && repository.GetModuleFile(Preinstall, hmpName) == Some(r.system.file)
      && repository.GetModuleFile(Install, hmpName) == (if r.install.Some? then Some(r.install.value.file) else None)
      && repository.GetModuleFile(Active, hmpName) == (if r.active.Some? then Some(r.active.value.file) else None)
    }

    /** The files a chosen package is mounted from: those beside its path. */
    function ReadPackage(file: ModuleFile): (p: Option<Package>)
      requires Valid()
      reads this
    {
      var view :=
        if file.path == PathIn(Preinstall, hmpName, HMP_INFO_NAME) then Some(PreView(pre)) else Show(active, store);
      if view.None? || HMP_INFO_NAME !in view.value || IMG_FILE_NAME !in view.value then None
      else Some(Package(file, view.value[HMP_INFO_NAME], view.value[IMG_FILE_NAME]))
    }

    method GetLatestUpdateModulePackage(
      repository: ModuleFileRepository, ghost r: Repository, linkFails: string -> bool)
      returns (latest: Option<ModuleFile>, ghost fault: Option<View>)
      requires Valid() && FindPackages(w, hmpName, pre, View()) == Some(r) && Holds(repository, r)
      modifies this`active
      ensures Valid()
      ensures var l := GetLatest(w, hmpName, old(View()), r, fault);
              && View() == l.hmp
              && latest == (if l.package.Some? then Some(l.package.value.file) else None)
              && (latest.Some? ==> ReadPackage(latest.value) == l.package)
      ensures (forall name :: !linkFails(name)) ==> fault.None?
      ensures fault.None? ==> active == if Stages(w, old(View()), r) then Some(old(active).value + install.value)
                                        else old(active)
    {
      FoundPackagesAreRead(w, hmpName, pre, View());
      ReplacedPrefix(hmpName, HMP_INFO_NAME);
      PathsDiffer(Active, Preinstall, hmpName, HMP_INFO_NAME, HMP_INFO_NAME);
      hide FindPackages, PathIn, Show;
      fault := None;
      var activeFile := repository.GetModuleFile(Active, hmpName);
      var updateFile := repository.GetModuleFile(Install, hmpName);
      if updateFile.None? {
        return activeFile, None;
      }
      if activeFile.Some? {
        var newer := Newer(w, updateFile.value, activeFile.value);
        if !newer {
          return activeFile, None;
        }
      }
      var ok := StageUpdateModulePackage(linkFails);
      if !ok {
        return None, Show(active, store);
      }
      var activePath := UPDATE_ACTIVE_DIR + updateFile.value.path[|UPDATE_INSTALL_DIR|..];
      latest := Some(updateFile.value.(path := activePath));
    }

    method PrepareModuleFileList(
      repository: ModuleFileRepository, ghost r: Repository, linkFails: string -> bool, faults: BootFaults)
      returns (chosen: ModuleFile, rebooted: bool, ghost used: BootFaults)
      requires Valid() && FindPackages(w, hmpName, pre, View()) == Some(r) && Holds(repository, r)
      modifies this`install, this`active, this`backup
      ensures Valid()
      ensures used == faults.(stage := used.stage) && ((forall name :: !linkFails(name)) ==> used.stage.None?)
      ensures var p := Prepare(w, hmpName, old(View()), r, used);
              && View() == p.hmp && rebooted == p.rebooted && chosen == p.chosen.file
              && ReadPackage(chosen) == Some(p.chosen)
      ensures old(ShareNothing(install, backup)) ==> ShareNothing(install, backup)
      ensures KeptOrStaged(used, Stages(w, old(View()), r), old(install), old(active))
    {
      hide FindPackages, PathIn, Show, GetLatest, KeptOrStaged, ShareNothing, ReadPackage, Valid, Newer, Stages;
      ghost var start := View();
      StagesFromBoth(r, start);
      var system := repository.GetModuleFile(Preinstall, hmpName).value;
      var install, active' := repository.GetModuleFile(Install, hmpName), repository.GetModuleFile(Active, hmpName);
      var latest;
      ghost var fault;
      latest, fault := GetLatestUpdateModulePackage(repository, r, linkFails);
      used := faults.(stage := fault);
      rebooted := false;
      if latest.Some? {
        var newer := Newer(w, latest.value, system);
        if newer {
          chosen := latest.value;
          KeptByLatest(used, Stages(w, start, r), old(this.install), old(active));
          return;
        }
      }
      chosen := system;
      rebooted := FallBackToSystem(install.None? && active'.None?, faults);
      NothingKept(used, Stages(w, start, r), old(this.install), old(active));
      ReadsSystem(start, r);
    }

    lemma ReadsSystem(s: Hmp, r: Repository)
      requires Valid() && FindPackages(w, hmpName, pre, s) == Some(r)
      ensures ReadPackage(r.system.file) == Some(r.system)
    {
      FoundPackagesAreRead(w, hmpName, pre, s);
    }

    lemma StagesFromBoth(r: Repository, s: Hmp)
      requires Valid() && s == View()
      ensures Stages(w, s, r) ==> install.Some? && active.Some?
    {
    }

    /** Without faults: if both directories are left, install is as it was, and active too unless it was staged. */
    ghost predicate KeptOrStaged(used: BootFaults, staged: bool, oldInstall: Option<Dir>, oldActive: Option<Dir>)
      reads this
    {
      used == NO_FAULTS && install.Some? && active.Some? ==>
        && install == oldInstall && oldActive.Some?
        && active.value == if staged then oldActive.value + install.value else oldActive.value
    }

    lemma KeptByLatest(used: BootFaults, staged: bool, oldInstall: Option<Dir>, oldActive: Option<Dir>)
      requires install == oldInstall && (staged ==> oldActive.Some? && oldInstall.Some?)
      requires used.stage.None? ==> active == if staged then Some(oldActive.value + oldInstall.value) else oldActive
      ensures KeptOrStaged(used, staged, oldInstall, oldActive)
    {
    }

    lemma NothingKept(used: BootFaults, staged: bool, oldInstall: Option<Dir>, oldActive: Option<Dir>)
      requires used == NO_FAULTS && install.Some? ==> active.None?
      ensures KeptOrStaged(used, staged, oldInstall, oldActive)
    {
    }

    /** CheckRevert, then either revert a destroyed active directory or drop active and backup. */
    method FallBackToSystem(onlySystem: bool, faults: BootFaults) returns (rebooted: bool)
      requires Valid()
      modifies this`install, this`active, this`backup
      ensures Valid()
      ensures var s := old(View());
              if s.backup.Some? && onlySystem then
                Reverted(View(), rebooted) == Lifecycle.Revert(s, faults.checkRevert)
              else
                && !rebooted
                && View() == s.(active := RemoveDir(s.active, faults.clearActive),
                                backup := RemoveDir(s.backup, faults.clearBackup))
      ensures old(ShareNothing(install, backup)) ==> ShareNothing(install, backup)
      ensures faults.checkRevert == NO_REVERT_FAULTS && faults.clearActive.Removed? && install.Some? ==> active.None?
    {
      if backup.Some? && onlySystem {
        rebooted := Revert(faults.checkRevert);
        return;
      }
      ShowKept(active, store, faults.clearActive);
      ShowKept(backup, store, faults.clearBackup);
      active, backup := Keep(active, faults.clearActive), Keep(backup, faults.clearBackup);
      return false;
    }

    method FillRepository() returns (repository: ModuleFileRepository)
      requires Valid()
      ensures fresh(repository)
      ensures var found := FindPackages(w, hmpName, pre, View());
              if found.Some? then Holds(repository, found.value)
              else repository.GetModuleFile(Preinstall, hmpName).None?
    {
      hide PathIn, Load, Show;
      repository := new ModuleFileRepository();
      repository.InitRepository(w, hmpName, pre, Show(install, store), Show(active, store));
    }

    /** One boot of this HMP; `mounts` says which packages mount, the rest says which file operations fail. */
    method DoModuleUpdate(mounts: Package -> bool, linkFails: string -> bool, faults: BootFaults)
      returns (rebooted: bool, mounted: Option<Package>, ghost used: BootFaults)
      requires Valid()
      modifies this`install, this`active, this`backup
      ensures Valid()
      ensures used == faults.(stage := used.stage) && ((forall name :: !linkFails(name)) ==> used.stage.None?)
      ensures Booted(View(), rebooted, mounted) == BootHmp(w, hmpName, pre, old(View()), mounts, used)
      ensures old(ShareNothing(install, backup)) ==> ShareNothing(install, backup)
      ensures KeptOrStaged(used, BootStages(w, hmpName, pre, old(View())), old(install), old(active))
    {
      hide FindPackages, Prepare, Stages, KeptOrStaged, ShareNothing, ReadPackage, Show, RemoveDir, InStore;
      rebooted, mounted, used := false, None, faults.(stage := None);
      var repository := FillRepository();
      if repository.GetModuleFile(Preinstall, hmpName).None? {
        KeptByLatest(used, false, install, active);
        return;
      }
      ghost var r := FindPackages(w, hmpName, pre, View()).value;
      var chosen;
      chosen, rebooted, used := PrepareModuleFileList(repository, r, linkFails, faults);
      if rebooted {
        return;
      }
      var package := ReadPackage(chosen).value;
      if mounts(package) {
        mounted := Some(package);
        return;
      }
      ShowKept(install, store, faults.clearInstall);
      KeptSharesNothing(install, faults.clearInstall, backup);
      install := Keep(install, faults.clearInstall);
      rebooted := Revert(faults.mountRevert);
      NothingKept(used, BootStages(w, hmpName, pre, old(View())), old(install), old(active));
    }

    // -------------------------------------------------------------- whole runs

    /** Install shares files with active exactly when the device is staged, and never with backup. */
    ghost predicate LinksOnlyStaged(phase: Phase)
      requires Valid()
      reads this
    {
      && ShareNothing(install, backup)
      && (ShareNothing(install, active) <==> !Staged(w, hmpName, pre, State(phase, View())))
    }

    /** After a boot of this HMP that is cut short, install shares files with active exactly when it is staged. */
    lemma CutShortBootLinks(before: Hmp, oldInstall: Option<Dir>, oldActive: Option<Dir>)
      requires Valid() && View() == BootHmp(w, hmpName, pre, before, w.mounts, NO_FAULTS).hmp
      requires InStore(oldInstall, store) && InStore(oldActive, store)
      requires Show(oldInstall, store) == before.install && Show(oldActive, store) == before.active
      requires KeptOrStaged(NO_FAULTS, BootStages(w, hmpName, pre, before), oldInstall, oldActive)
      requires ShareNothing(oldInstall, oldActive) <==> !Staged(w, hmpName, pre, State(Booting, before))
      ensures ShareNothing(install, active) <==> !Staged(w, hmpName, pre, State(Booting, View()))
    {
      BootKeepsOrStages(w, hmpName, pre, before);
      if install.Some? && active.Some? {
        if BootStages(w, hmpName, pre, before) {
          assert HMP_INFO_NAME in install.value;
          assert active.value[HMP_INFO_NAME] == install.value[HMP_INFO_NAME];
        } else {
          assert View().install == before.install && View().active == before.active;
        }
      }
    }

    /** One operation on a running device. */
    method PerformRunning(op: Op, faults: BackupFaults) returns (phase': Phase, ghost done: Op)
      requires Valid() && Separate()
      modifies this
      ensures Valid() && Separate()
      ensures done == Decided(op, old(installModule).Some?, if done.InstallNew? then done.steps.backup else Linked)
      ensures NoBackupFaults(faults) && done.InstallNew? ==> done.steps.backup.Linked?
      ensures State(phase', View()) == Step(w, hmpName, pre, State(Running, old(View())), done)
      ensures phase'.Booting? ==> View().install.None? || View() == old(View())
    {
      hide InstallPackage, Show, NoBackupFaults;
      phase', done := Running, Decided(op, installModule.Some?, Linked);
      match op {
        case InstallNew(files, steps) =>
          ghost var end;
          var code;
          code, end := ReallyInstallModulePackage(
            files, steps.unpacks, faults, steps.writesVerity, steps.setsParam, steps.createsActive);
          done := Decided(op, old(installModule).Some?, end);
        case Uninstall =>
          var _ := UninstallModulePackage(UninstallFaults(Removed, Removed, Removed));
        case CrashRevert =>
          var rebooted := Revert(NO_REVERT_FAULTS);
          phase' := if rebooted then Booting else Running;
        case PowerCycle => phase' := Booting;
        case _ =>
      }
    }

    /** One operation on a booting device. */
    method PerformBooting(op: Op) returns (phase': Phase)
      requires Valid()
      modifies this
      ensures Valid() && (phase'.Running? ==> Separate())
      ensures State(phase', View()) == Step(w, hmpName, pre, State(Booting, old(View())), op)
      ensures old(ShareNothing(install, backup)) ==> ShareNothing(install, backup)
      ensures old(LinksOnlyStaged(Booting)) ==> LinksOnlyStaged(phase')
    {
      hide BootHmp, Show, BootStages, Staged;
      phase' := Booting;
      installModule := None;
      ghost var start, oldInstall, oldActive := View(), install, active;
      if op.Boot? || (op.BootCutShort? && op.processed) {
        var rebooted, mounted;
        ghost var used;
        rebooted, mounted, used := DoModuleUpdate(w.mounts, _ => false, NO_FAULTS);
        if ShareNothing(oldInstall, oldActive) <==> !Staged(w, hmpName, pre, State(Booting, start)) {
          CutShortBootLinks(start, oldInstall, oldActive);
        }
        if op.Boot? && !rebooted {
          install := None;
          NothingPending(w, hmpName, pre, State(Running, View()));
          phase' := Running;
        }
      }
    }

    /** One operation of a run. Whether installModule was set before, and how a backup ends, is found here. */
    method Perform(phase: Phase, op: Op, faults: BackupFaults) returns (phase': Phase, ghost done: Op)
      requires Valid() && (phase.Running? ==> Separate())
      modifies this
      ensures Valid() && (phase'.Running? ==> Separate())
      ensures Requested(op, faults, done)
      ensures phase.Running? && done.InstallNew? ==> done.steps.hadModule == old(installModule).Some?
      ensures State(phase', View()) == Step(w, hmpName, pre, State(phase, old(View())), done)
      ensures old(ShareNothing(install, backup)) ==> ShareNothing(install, backup)
      ensures StrictOrder(w) && Good(w, hmpName, pre, State(phase, old(View()))) && old(LinksOnlyStaged(phase)) ==>
                LinksOnlyStaged(phase')
    {
      hide Step, Show, Good, StrictOrder, NoBackupFaults, Staged;
      if phase.Booting? {
        done := op;
        phase' := PerformBooting(op);
      } else {
        ghost var start := View();
        phase', done := PerformRunning(op, faults);
        if View().install.None? || phase'.Running? {
          NothingPending(w, hmpName, pre, State(phase', View()));
        } else if StrictOrder(w) && Good(w, hmpName, pre, State(Running, start)) {
          RunningIsNotStaged(w, hmpName, pre, start);
        }
      }
    }

    lemma NothingShared()
      requires Valid() && View() == NO_DIRS
      ensures ShareNothing(install, active) && ShareNothing(install, backup)
    {
    }

    /**
     In every run hard links behave as copies, install never shares a file with backup, and it shares one with active
     exactly when the device is staged: so never on a running device, which can rewrite its install files safely.
     */
    method RunOperations(ops: seq<Op>, faults: nat -> BackupFaults) returns (phase: Phase, ghost done: seq<Op>)
      requires Valid() && View() == NO_DIRS
      modifies this
      ensures Valid() && (phase.Running? ==> Separate())
      ensures |done| == |ops|
      ensures forall i :: 0 <= i < |ops| ==> Requested(ops[i], faults(i), done[i])
      ensures State(phase, View()) == Run(w, hmpName, pre, FACTORY, done)
      ensures ShareNothing(install, backup)
      ensures StrictOrder(w) ==>
                (ShareNothing(install, active) <==> !Staged(w, hmpName, pre, State(phase, View())))
    {
      hide Step, Staged, Good, StrictOrder, Requested, Show, ShareNothing;
      phase, done := Booting, [];
      NothingShared();
      NothingPending(w, hmpName, pre, FACTORY);
      for i := 0 to |ops|
        invariant Valid() && (phase.Running? ==> Separate())
        invariant |done| == i
        invariant forall k :: 0 <= k < i ==> Requested(ops[k], faults(k), done[k])
        invariant State(phase, View()) == Run(w, hmpName, pre, FACTORY, done)
        invariant ShareNothing(install, backup)
        invariant StrictOrder(w) ==> LinksOnlyStaged(phase)
      {
        EveryRunIsGood(w, hmpName, pre, done);
        ghost var op;
        phase, op := Perform(phase, ops[i], faults(i));
        assert (done + [op])[..|done + [op]| - 1] == done;
        done := done + [op];
      }
    }
  }

  lemma NothingPending(w: World, h: string, pre: PreDir, st: State)
    requires st.hmp.install.None? || st.phase.Running?
    ensures !Staged(w, h, pre, st)
  {
  }

  /** An install with what its run decides: whether installModule was set before, and how its backup ends. */
  function Decided(op: Op, hadModule: bool, end: BackupEnd): Op {
    if op.InstallNew? then op.(steps := op.steps.(hadModule := hadModule, backup := end)) else op
  }

  /** What was performed is what was asked for, but for what the run decides; without faults a backup is finished. */
  ghost predicate Requested(op: Op, faults: BackupFaults, done: Op) {
    && Decided(done, false, Linked) == Decided(op, false, Linked)
    && (NoBackupFaults(faults) && op.InstallNew? && op.steps.backup.Linked? ==>
          done.InstallNew? && done.steps.backup.Linked?)
  }
}
