/** The packages found at boot: services/module_update/src/module_file_repository.cpp. */
module ModuleFileRepositories {
  import opened Common
  import opened ModuleFiles
  import opened Packages

  class ModuleFileRepository {
    var moduleFileMap: map<string, map<Place, ModuleFile>>

    constructor ()
      ensures moduleFileMap == map[]
    {
      moduleFileMap := map[];
    }

    function GetModuleFile(place: Place, hmpName: string): (r: Option<ModuleFile>)
      reads this
    {
      if hmpName !in moduleFileMap || place !in moduleFileMap[hmpName] then None
      else Some(moduleFileMap[hmpName][place])
    }

    predicate IsPreInstalledModule(file: ModuleFile)
      reads this
    {
      var system := GetModuleFile(Preinstall, file.info.hmpName);
      system.Some? && system.value.path == file.path
    }

    /** Keep what ProcessFile accepts of one file; the first accepted file of a directory stays. */
    method ProcessFile(w: World, hmpName: string, place: Place, view: View, name: string)
      requires name in view
      requires var system := GetModuleFile(Preinstall, hmpName);
               system.Some? ==> system.value.path == PathIn(Preinstall, hmpName, HMP_INFO_NAME)
      modifies this
      ensures var file := Open(w, place, hmpName, view, name);
              var accepted := && file.Some? && file.value.info.hmpName == hmpName && file.value.hasImage
                              && (place != Preinstall ==>
                                    name == HMP_INFO_NAME && old(GetModuleFile(Preinstall, hmpName)).Some?);
              if accepted && old(GetModuleFile(place, hmpName)).None? then
                && GetModuleFile(place, hmpName) == file
                && forall other: Place :: other != place ==>
                                            GetModuleFile(other, hmpName) == old(GetModuleFile(other, hmpName))
              else unchanged(this)
    {
      var file := Open(w, place, hmpName, view, name);
      if file.None? || file.value.info.hmpName != hmpName {
        return;
      }
      if !file.value.hasImage {
        return;
      }
      if place != Preinstall {
        var system := GetModuleFile(Preinstall, hmpName);
        CheckFilePathIsName(place, hmpName, name);
        if system.None? || !CheckFilePath(system.value.path, file.value.path, Prefix(place)) {
          return;
        }
      }
      var fileMap := if hmpName in moduleFileMap then moduleFileMap[hmpName] else map[];
      if place !in fileMap {
        moduleFileMap := moduleFileMap[hmpName := fileMap[place := file.value]];
      }
    }

    /** Scan one directory, in any order of its files. */
    method ScanDirectory(w: World, hmpName: string, place: Place, view: View)
      requires place == Preinstall ==> forall name :: name in view && name != HMP_INFO_NAME ==> name == IMG_FILE_NAME
      requires GetModuleFile(place, hmpName).None?
      requires var system := GetModuleFile(Preinstall, hmpName);
               system.Some? ==> system.value.path == PathIn(Preinstall, hmpName, HMP_INFO_NAME)
      modifies this
      ensures forall other: Place :: other != place ==>
                                       GetModuleFile(other, hmpName) == old(GetModuleFile(other, hmpName))
      ensures var p := Load(w, place, hmpName, view);
              GetModuleFile(place, hmpName) ==
              if p.Some? && (place != Preinstall ==> old(GetModuleFile(Preinstall, hmpName)).Some?)
              then Some(p.value.file) else None
    {
      var files := view.Keys;
      InfoNameHasSuffix(place, hmpName);
      hide PathIn, CheckFileSuffix;
      while files != {}
        invariant files <= view.Keys
        invariant forall other: Place :: other != place ==>
                                           GetModuleFile(other, hmpName) == old(GetModuleFile(other, hmpName))
        invariant var p := Load(w, place, hmpName, view);
                  GetModuleFile(place, hmpName) ==
                  if HMP_INFO_NAME !in files && p.Some? &&
                     (place != Preinstall ==> old(GetModuleFile(Preinstall, hmpName)).Some?)
                  then Some(p.value.file) else None
      {
        var name :| name in files;
        files := files - {name};
        if !CheckFileSuffix(PathIn(place, hmpName, name), MODULE_PACKAGE_SUFFIX) {
          continue;
        }
        if place != Preinstall && !w.signed(view[name]) {
          continue;
        }
        ProcessFile(w, hmpName, place, view, name);
      }
    }

    /** The three directories are scanned in the order preinstalled, install, active. */
    method InitRepository(w: World, hmpName: string, pre: PreDir, install: Option<View>, active: Option<View>)
      requires hmpName !in moduleFileMap
      modifies this
      ensures var system := Load(w, Preinstall, hmpName, PreView(pre));
              GetModuleFile(Preinstall, hmpName) == if system.Some? then Some(system.value.file) else None
      ensures var p := Candidate(w, Install, hmpName, pre, install);
              GetModuleFile(Install, hmpName) == if p.Some? then Some(p.value.file) else None
      ensures var p := Candidate(w, Active, hmpName, pre, active);
              GetModuleFile(Active, hmpName) == if p.Some? then Some(p.value.file) else None
    {
      ScanDirectory(w, hmpName, Preinstall, PreView(pre));
      ScanDirectory(w, hmpName, Install, if install.Some? then install.value else map[]);
      ScanDirectory(w, hmpName, Active, if active.Some? then active.value else map[]);
    }

    method Clear()
      modifies this
      ensures moduleFileMap == map[]
    {
      moduleFileMap := map[];
    }
  }
}
