/**
 Opening and loading the packages of one HMP: ModuleFile::Open (services/module_update/util/src/module_file.cpp)
 and the per-directory rules of services/module_update/src/module_file_repository.cpp.

 A directory is seen here as the files it shows, name to bytes. Signature checks, archive and JSON parsing,
 file-system magic, hash-tree checks and mounting are foreign code: they are fixed functions of the bytes, collected in
 World, and every theorem holds for all of them. The version order is a field of World too: the theorems need only
 that it is a strict partial order, which SourceOrderIsStrict shows of the comparison in ModuleFiles.
 */
module Packages {
  import opened Common
  import opened ModuleFiles

  const UPDATE_INSTALL_DIR := "/data/module_update_package"
  const UPDATE_ACTIVE_DIR := "/data/module_update/active"
  const MODULE_PREINSTALL_DIR := "/system/module_update"
  const HMP_INFO_NAME := "module_info.zip"
  const IMG_FILE_NAME := "module.img"
  const MODULE_PACKAGE_SUFFIX := ".zip"

  type Bytes = seq<byte>
  type View = map<string, Bytes>

  /** The three directories a package can be loaded from. */
  datatype Place = Preinstall | Install | Active

  /** A loadable package: what was opened, and the bytes it was opened from. */
  datatype Package = Package(file: ModuleFile, infoBytes: Bytes, imageBytes: Bytes)

  datatype World = World(
    newer: (ModulePackageInfo, ModulePackageInfo) -> bool,
    signed: Bytes -> bool,
    parse: Bytes -> Option<ModulePackageInfo>,
    isImage: Bytes -> bool,
    verity: (Bytes, Bytes) -> bool,
    mounts: Package -> bool)

  ghost predicate StrictOrder(w: World) {
    && (forall a, b :: w.newer(a, b) ==> !w.newer(b, a))
    && (forall a, b, c :: w.newer(a, b) && w.newer(b, c) ==> w.newer(a, c))
  }

  /** The order of this world is the one the source computes, for some conversion of numerals. */
  ghost predicate UsesSourceOrder(w: World, toLong: ToLong) {
    forall a, b :: w.newer(a, b) == InfoNewer(toLong, a, b)
  }

  lemma SourceOrderIsStrict(w: World, toLong: ToLong)
    requires UsesSourceOrder(w, toLong)
    ensures StrictOrder(w)
  {
    forall a, b, c | w.newer(a, b) && w.newer(b, c)
      ensures w.newer(a, c)
    {
      InfoNewerTransitive(toLong, a, b, c);
    }
  }

  /** ModuleFile::CompareVersion: a file is never older than one at the same path. */
  predicate Newer(w: World, f: ModuleFile, g: ModuleFile) {
    f.path == g.path || w.newer(f.info, g.info)
  }

  /** The loops of ModuleFile::CompareVersion decide Newer in a world that uses the source's order. */
  method CompareFiles(w: World, toLong: ToLong, newFile: ModuleFile, oldFile: ModuleFile) returns (r: bool)
    requires UsesSourceOrder(w, toLong)
    ensures r == Newer(w, newFile, oldFile)
  {
    r := CompareVersion(toLong, newFile, oldFile);
  }

  /** The preinstalled directory of an HMP: one archive, and an image or none. */
  datatype PreDir = PreDir(info: Bytes, image: Option<Bytes>)

  function PreView(pre: PreDir): (view: View)
    ensures forall name :: name in view && name != HMP_INFO_NAME ==> name == IMG_FILE_NAME
  {
    if pre.image.Some? then map[HMP_INFO_NAME := pre.info, IMG_FILE_NAME := pre.image.value]
    else map[HMP_INFO_NAME := pre.info]
  }

  function Prefix(place: Place): string {
    match place
    case Preinstall => MODULE_PREINSTALL_DIR
    case Install => UPDATE_INSTALL_DIR
    case Active => UPDATE_ACTIVE_DIR
  }

  function PathIn(place: Place, hmpName: string, name: string): string {
    Prefix(place) + "/" + hmpName + "/" + name
  }

  lemma PathsDiffer(p: Place, q: Place, hmpName: string, m: string, n: string)
    requires p != q
    ensures PathIn(p, hmpName, m) != PathIn(q, hmpName, n)
  {
    var a, b := PathIn(p, hmpName, m), PathIn(q, hmpName, n);
    assert a[1] == Prefix(p)[1] && b[1] == Prefix(q)[1];
    assert a[19] == Prefix(p)[19] && b[19] == Prefix(q)[19];
  }

  function Open(w: World, place: Place, hmpName: string, view: View, name: string): (r: Option<ModuleFile>) {
    if name !in view then None
    else
      match w.parse(view[name])
      case None => None
      case Some(info) =>
        var hasImage := IMG_FILE_NAME in view && w.isImage(view[IMG_FILE_NAME]);
        if hasImage || place == Preinstall then Some(ModuleFile(PathIn(place, hmpName, name), info, hasImage))
        else None
  }

  /** The package a directory offers at boot; the file name is fixed by CheckFilePath. */
  function Load(w: World, place: Place, hmpName: string, view: View): (r: Option<Package>) {
    if HMP_INFO_NAME !in view then None
    else if place != Preinstall && !w.signed(view[HMP_INFO_NAME]) then None
    else
      var file := Open(w, place, hmpName, view, HMP_INFO_NAME);
      if file.None? || file.value.info.hmpName != hmpName || !file.value.hasImage then None
      else Some(Package(file.value, view[HMP_INFO_NAME], view[IMG_FILE_NAME]))
  }

  /** An update directory is only considered when the preinstalled package itself loads. */
  function Candidate(w: World, place: Place, hmpName: string, pre: PreDir, dir: Option<View>): (r: Option<Package>)
    requires place != Preinstall
  {
    if dir.None? || Load(w, Preinstall, hmpName, PreView(pre)).None? then None
    else Load(w, place, hmpName, dir.value)
  }

  /** The same package, found at its place in the active directory after staging. */
  function MovedToActive(hmpName: string, p: Package): Package {
    p.(file := p.file.(path := PathIn(Active, hmpName, HMP_INFO_NAME)))
  }

  /** The path that staging computes by replacing the install prefix is that place. */
  lemma ReplacedPrefix(hmpName: string, name: string)
    ensures |PathIn(Install, hmpName, name)| >= |UPDATE_INSTALL_DIR|
    ensures UPDATE_ACTIVE_DIR + PathIn(Install, hmpName, name)[|UPDATE_INSTALL_DIR|..] == PathIn(Active, hmpName, name)
  {
    assert PathIn(Install, hmpName, name)[|UPDATE_INSTALL_DIR|..] == "/" + hmpName + "/" + name;
  }

  /** Overlaying a loadable install directory on any active directory makes active load that package. */
  lemma StagedDirectoryLoads(w: World, hmpName: string, install: View, active: View)
    requires Load(w, Install, hmpName, install).Some?
    ensures Load(w, Active, hmpName, active + install) ==
            Some(MovedToActive(hmpName, Load(w, Install, hmpName, install).value))
  {
  }

  // ---------------------------------------------------------------- path checks of the repository

  predicate CheckFileSuffix(file: string, suffix: string) {
    var pos := LastIndexOf(file, '.');
    pos.Some? && file[pos.value..] == suffix
  }

  predicate CheckFilePath(prePath: string, curPath: string, prefix: string)
    requires |prePath| >= |MODULE_PREINSTALL_DIR| && |curPath| >= |prefix|
  {
    prePath[|MODULE_PREINSTALL_DIR|..] == curPath[|prefix|..]
  }

  lemma CheckFilePathIsName(place: Place, hmpName: string, name: string)
    ensures CheckFilePath(PathIn(Preinstall, hmpName, HMP_INFO_NAME), PathIn(place, hmpName, name), Prefix(place))
            <==> name == HMP_INFO_NAME
  {
    PathTail(Preinstall, hmpName, HMP_INFO_NAME);
    PathTail(place, hmpName, name);
    SameHead("/" + hmpName + "/", HMP_INFO_NAME, name);
  }

  lemma PathTail(place: Place, hmpName: string, name: string)
    ensures PathIn(place, hmpName, name)[|Prefix(place)|..] == "/" + hmpName + "/" + name
  {
    DropHead(Prefix(place), "/", hmpName, "/", name);
  }

  lemma DropHead(head: string, a: string, b: string, c: string, d: string)
    ensures (head + a + b + c + d)[|head|..] == a + b + c + d
  {
  }

  lemma SameHead(head: string, a: string, b: string)
    ensures head + a == head + b <==> a == b
  {
    assert (head + a)[|head|..] == a && (head + b)[|head|..] == b;
  }

  lemma InfoNameHasSuffix(place: Place, hmpName: string)
    ensures CheckFileSuffix(PathIn(place, hmpName, HMP_INFO_NAME), MODULE_PACKAGE_SUFFIX)
    ensures !CheckFileSuffix(PathIn(place, hmpName, IMG_FILE_NAME), MODULE_PACKAGE_SUFFIX)
  {
    hide CheckFileSuffix, Prefix;
    assert "img"[0] != MODULE_PACKAGE_SUFFIX[1] && (['.'] + "img")[1] == "img"[0];
    assert HMP_INFO_NAME == "module_info" + ['.'] + "zip" && IMG_FILE_NAME == "module" + ['.'] + "img";
    SuffixOf(Prefix(place) + "/" + hmpName + "/", "module_info", "zip");
    SuffixOf(Prefix(place) + "/" + hmpName + "/", "module", "img");
  }

  lemma SuffixOf(head: string, stem: string, kind: string)
    requires '.' !in kind
    ensures CheckFileSuffix(head + (stem + ['.'] + kind), MODULE_PACKAGE_SUFFIX) <==>
            ['.'] + kind == MODULE_PACKAGE_SUFFIX
  {
    hide LastIndexOf;
    var file := (head + stem) + ['.'] + kind;
    assert file == head + (stem + ['.'] + kind);
    LastInMiddle(head + stem, '.', kind);
    assert file[|head + stem|..] == ['.'] + kind;
  }
}
