/**
 Version ordering of module packages: services/module_update/util/src/module_file.cpp.

 The comparisons are methods with the loops of the source. Each is proved equal to a predicate of its
 arguments, and the order theorems are lemmas about those predicates. `toLong` stands for
 Utils::ConvertToLong, which is not part of the repository; every theorem holds whatever it converts.
 */
module ModuleFiles {
  import opened Common

  const PACKINFO_VERSION_VECTOR_SIZE := 5

  datatype SaVersion = SaVersion(apiVersion: uint32, versionCode: uint32, patchVersion: uint32)
  datatype SaInfo = SaInfo(saName: string, saId: int32, version: SaVersion)
  datatype BundleInfo = BundleInfo(bundleName: string, bundleVersion: string)
  datatype ModuleInfo = ModuleInfo(saInfoList: seq<SaInfo>, bundleInfoList: seq<BundleInfo>)
  datatype ModulePackageInfo = ModulePackageInfo(
    hmpName: string,
    version: string,
    displayVersion: string,
    saSdkVersion: string,
    packageType: string,
    apiVersion: int32,
    moduleMap: map<string, ModuleInfo>)

  /** An opened package: its path, its parsed pack.info and whether a usable image lies beside it. */
  datatype ModuleFile = ModuleFile(path: string, info: ModulePackageInfo, hasImage: bool)

  type ToLong = string -> Option<int32>

  // ---------------------------------------------------------------- service lists

  predicate CompareSaVersion(smaller: SaVersion, bigger: SaVersion) {
    if smaller.apiVersion != bigger.apiVersion then false
    else if smaller.versionCode > bigger.versionCode then false
    else if smaller.versionCode < bigger.versionCode then true
    else bigger.patchVersion >= smaller.patchVersion
  }

  /** Version code and patch as one number, the code in front. */
  function Rank(v: SaVersion): nat {
    v.versionCode * TWO_TO_THE_32 + v.patchVersion
  }

  ghost predicate NotLower(o: SaVersion, n: SaVersion) {
    o.apiVersion == n.apiVersion && Rank(o) <= Rank(n)
  }

  /** The branches compare code and patch lexicographically, at one API level. */
  lemma CompareSaVersionIff(smaller: SaVersion, bigger: SaVersion)
    ensures CompareSaVersion(smaller, bigger) <==> NotLower(smaller, bigger)
  {
  }

  /** The first entry with the given id: what a map filled with `emplace` finds. */
  function FirstWithId(list: seq<SaInfo>, id: int32): (r: Option<SaInfo>)
    ensures r.Some? <==> exists i :: 0 <= i < |list| && list[i].saId == id
    ensures r.Some? ==> r.value in list && r.value.saId == id
  {
    if list == [] then None
    else if list[0].saId == id then Some(list[0])
    else FirstWithId(list[1..], id)
  }

  predicate SaNotLower(info: SaInfo, bigList: seq<SaInfo>) {
    var found := FirstWithId(bigList, info.saId);
    found.Some? && CompareSaVersion(info.version, found.value.version)
  }

  predicate SaListNotLower(smallList: seq<SaInfo>, bigList: seq<SaInfo>) {
    && |smallList| == |bigList|
    && forall i :: 0 <= i < |smallList| ==> SaNotLower(smallList[i], bigList)
  }

  lemma {:induction false} FirstWithIdOfPrefix(list: seq<SaInfo>, n: nat, id: int32)
    requires n < |list|
    ensures FirstWithId(list[..n + 1], id) ==
            if FirstWithId(list[..n], id).Some? then FirstWithId(list[..n], id)
            else if list[n].saId == id then Some(list[n]) else None
  {
    if n == 0 {
      assert list[..1] == [list[0]];
    } else {
      assert list[..n + 1][1..] == list[1..][..n];
      assert list[..n][1..] == list[1..][..n - 1];
      FirstWithIdOfPrefix(list[1..], n - 1, id);
    }
  }

  method CompareSaListVersion(smallList: seq<SaInfo>, bigList: seq<SaInfo>) returns (r: bool)
    ensures r == SaListNotLower(smallList, bigList)
  {
    if |smallList| != |bigList| {
      return false;
    }
    var saMap: map<int32, SaInfo> := map[];
    for n := 0 to |bigList|
      invariant forall id: int32 :: (id in saMap) == FirstWithId(bigList[..n], id).Some?
      invariant forall id: int32 :: id in saMap ==> Some(saMap[id]) == FirstWithId(bigList[..n], id)
    {
      forall id: int32 {
        FirstWithIdOfPrefix(bigList, n, id);
      }
      if bigList[n].saId !in saMap {
        saMap := saMap[bigList[n].saId := bigList[n]];
      }
    }
    assert bigList[..|bigList|] == bigList;
    for n := 0 to |smallList|
      invariant forall i :: 0 <= i < n ==> SaNotLower(smallList[i], bigList)
    {
      if smallList[n].saId !in saMap {
        assert !SaNotLower(smallList[n], bigList);
        return false;
      }
      if !CompareSaVersion(smallList[n].version, saMap[smallList[n].saId].version) {
        assert !SaNotLower(smallList[n], bigList);
        return false;
      }
    }
    return true;
  }

  // ---------------------------------------------------------------- bundle lists

  ghost predicate HasBundle(list: seq<BundleInfo>, name: string) {
    exists j :: 0 <= j < |list| && list[j].bundleName == name
  }

  ghost predicate BundleListMatches(smallList: seq<BundleInfo>, bigList: seq<BundleInfo>) {
    && |smallList| == |bigList|
    && forall i :: 0 <= i < |smallList| ==> HasBundle(bigList, smallList[i].bundleName)
  }

  method CompareBundleList(smallList: seq<BundleInfo>, bigList: seq<BundleInfo>) returns (r: bool)
    ensures r == BundleListMatches(smallList, bigList)
  {
    if |smallList| != |bigList| {
      return false;
    }
    var bundleSet: set<string> := {};
    for n := 0 to |bigList|
      invariant forall name :: name in bundleSet <==> HasBundle(bigList[..n], name)
    {
      forall name
        ensures HasBundle(bigList[..n + 1], name) <==> HasBundle(bigList[..n], name) || name == bigList[n].bundleName
      {
        assert bigList[..n + 1] == bigList[..n] + [bigList[n]];
        assert bigList[..n + 1][n] == bigList[n];
        if HasBundle(bigList[..n], name) {
          var j :| 0 <= j < n && bigList[..n][j].bundleName == name;
          assert bigList[..n + 1][j].bundleName == name;
        }
      }
      bundleSet := bundleSet + {bigList[n].bundleName};
    }
    assert bigList[..|bigList|] == bigList;
    for n := 0 to |smallList|
      invariant forall i :: 0 <= i < n ==> HasBundle(bigList, smallList[i].bundleName)
    {
      if smallList[n].bundleName !in bundleSet {
        return false;
      }
    }
    return true;
  }

  // ---------------------------------------------------------------- the package version

  /** The last position at which `c` occurs, as std::string::rfind finds it. */
  function LastIndexOf(s: string, c: char): (r: Option<nat>)
    ensures r.Some? <==> c in s
    ensures r.Some? ==> r.value < |s| && s[r.value] == c && c !in s[r.value + 1..]
  {
    if s == [] then None
    else if s[|s| - 1] == c then Some(|s| - 1)
    else
      var r := LastIndexOf(s[..|s| - 1], c);
      assert r.Some? ==> s[r.value + 1..] == s[..|s| - 1][r.value + 1..] + [s[|s| - 1]];
      assert s == s[..|s| - 1] + [s[|s| - 1]];
      r
  }

  /** The pieces between the separators; a string without one is a single piece. */
  function SplitString(s: string, c: char): (r: seq<string>)
    ensures |r| > 0
  {
    if s == [] then [""]
    else
      var rest := SplitString(s[1..], c);
      if s[0] == c then [""] + rest else [[s[0]] + rest[0]] + rest[1..]
  }

  /** `name M.S.F.B`, split at the last blank and then at the dots. */
  function ParseVersion(version: string): (r: Option<seq<string>>)
    ensures r.Some? ==> |r.value| == PACKINFO_VERSION_VECTOR_SIZE
  {
    var index := LastIndexOf(version, ' ');
    if index.None? then None
    else
      var numbers := SplitString(version[index.value + 1..], '.');
      if |numbers| != 4 then None else Some([version[..index.value]] + numbers)
  }

  /** The pieces with separators between them again. */
  function Join(parts: seq<string>, c: char): string
    requires parts != []
  {
    if |parts| == 1 then parts[0] else parts[0] + [c] + Join(parts[1..], c)
  }

  ghost predicate NoneHas(parts: seq<string>, c: char) {
    forall i :: 0 <= i < |parts| ==> c !in parts[i]
  }

  lemma {:induction false} JoinInvertsSplit(s: string, c: char)
    ensures Join(SplitString(s, c), c) == s && NoneHas(SplitString(s, c), c)
  {
    if s != [] {
      JoinInvertsSplit(s[1..], c);
      var rest := SplitString(s[1..], c);
      assert s == [s[0]] + s[1..];
      if s[0] == c {
        assert ([""] + rest)[1..] == rest;
      } else if |rest| > 1 {
        assert ([[s[0]] + rest[0]] + rest[1..])[1..] == rest[1..];
        assert [s[0]] + rest[0] + [c] + Join(rest[1..], c) == [s[0]] + (rest[0] + [c] + Join(rest[1..], c));
      }
    }
  }

  lemma {:induction false} SplitOnePiece(s: string, c: char)
    requires c !in s
    ensures SplitString(s, c) == [s]
  {
    if s != [] {
      SplitOnePiece(s[1..], c);
      assert s == [s[0]] + s[1..];
    }
  }

  lemma {:induction false} SplitFirstPiece(piece: string, c: char, rest: string)
    requires c !in piece
    ensures SplitString(piece + [c] + rest, c) == [piece] + SplitString(rest, c)
  {
    var s := piece + [c] + rest;
    if piece == [] {
      assert s[1..] == rest;
    } else {
      SplitFirstPiece(piece[1..], c, rest);
      assert s[1..] == piece[1..] + [c] + rest && s[0] == piece[0];
      var tail := SplitString(rest, c);
      assert ([piece[1..]] + tail)[1..] == tail && piece == [piece[0]] + piece[1..];
    }
  }

  lemma {:induction false} SplitInvertsJoin(parts: seq<string>, c: char)
    requires parts != [] && NoneHas(parts, c)
    ensures SplitString(Join(parts, c), c) == parts
  {
    if |parts| == 1 {
      SplitOnePiece(parts[0], c);
    } else {
      SplitInvertsJoin(parts[1..], c);
      SplitFirstPiece(parts[0], c, Join(parts[1..], c));
    }
  }

  lemma {:induction false} JoinHasWhatPartsHave(parts: seq<string>, c: char, d: char)
    requires parts != [] && c != d
    ensures d !in Join(parts, c) <==> NoneHas(parts, d)
  {
    if |parts| > 1 {
      JoinHasWhatPartsHave(parts[1..], c, d);
      assert d in Join(parts, c) <==> d in parts[0] || d in Join(parts[1..], c);
      assert NoneHas(parts, d) <==> d !in parts[0] && NoneHas(parts[1..], d);
    }
  }

  lemma {:induction false} OnlyAfter(s: string, c: char, k: nat)
    requires k < |s| && s[k] == c && forall i :: k < i < |s| ==> s[i] != c
    ensures LastIndexOf(s, c) == Some(k)
  {
    if k < |s| - 1 {
      OnlyAfter(s[..|s| - 1], c, k);
    }
  }

  lemma MiddleParts(before: string, c: char, after: string)
    ensures var s := before + [c] + after;
            |s| == |before| + 1 + |after| && s[..|before|] == before && s[|before|] == c && s[|before| + 1..] == after
  {
  }

  lemma LastInMiddle(before: string, c: char, after: string)
    requires c !in after
    ensures LastIndexOf(before + [c] + after, c) == Some(|before|)
  {
    hide LastIndexOf;
    var s := before + [c] + after;
    MiddleParts(before, c, after);
    forall i | |before| < i < |s|
      ensures s[i] != c
    {
      assert s[|before| + 1..][i - |before| - 1] == s[i];
    }
    OnlyAfter(s, c, |before|);
  }

  /** What a version text parses to: the name up to its last blank, and the four pieces between the dots after it. */
  lemma ParseVersionIff(version: string, name: string, numbers: seq<string>)
    ensures ParseVersion(version) == Some([name] + numbers) <==>
            && |numbers| == 4 && NoneHas(numbers, '.') && NoneHas(numbers, ' ')
            && version == name + [' '] + Join(numbers, '.')
  {
    hide SplitString, Join, NoneHas, LastIndexOf;
    var parsed := ParseVersion(version);
    if parsed == Some([name] + numbers) {
      var index := LastIndexOf(version, ' ').value;
      var rest := version[index + 1..];
      assert ([name] + numbers)[0] == name && ([name] + numbers)[1..] == numbers;
      assert ([version[..index]] + SplitString(rest, '.'))[1..] == SplitString(rest, '.');
      JoinInvertsSplit(rest, '.');
      JoinHasWhatPartsHave(numbers, '.', ' ');
      assert version == version[..index] + [' '] + rest;
    }
    if |numbers| == 4 && NoneHas(numbers, '.') && NoneHas(numbers, ' ')
       && version == name + [' '] + Join(numbers, '.') {
      JoinHasWhatPartsHave(numbers, '.', ' ');
      SplitInvertsJoin(numbers, '.');
      LastInMiddle(name, ' ', Join(numbers, '.'));
      MiddleParts(name, ' ', Join(numbers, '.'));
    }
  }

  ghost predicate HmpVersionBelow(toLong: ToLong, small: seq<string>, big: seq<string>) {
    && |small| == |big| == PACKINFO_VERSION_VECTOR_SIZE
    && small[0] == big[0]
    && (forall i :: 1 <= i <= 4 ==> toLong(small[i]).Some? && toLong(big[i]).Some?)
    && (forall i :: 1 <= i <= 3 ==> toLong(small[i]) == toLong(big[i]))
    && toLong(small[4]).value < toLong(big[4]).value
  }

  method CompareHmpVersion(toLong: ToLong, smallVersion: seq<string>, bigVersion: seq<string>) returns (r: bool)
    ensures r == HmpVersionBelow(toLong, smallVersion, bigVersion)
  {
    if |smallVersion| != PACKINFO_VERSION_VECTOR_SIZE || |bigVersion| != PACKINFO_VERSION_VECTOR_SIZE {
      return false;
    }
    if smallVersion[0] != bigVersion[0] {
      return false;
    }
    var smallVer: seq<int32>, bigVer: seq<int32> := [0], [0];
    for i := 1 to PACKINFO_VERSION_VECTOR_SIZE
      invariant |smallVer| == |bigVer| == i
      invariant forall k :: 1 <= k < i ==> toLong(smallVersion[k]) == Some(smallVer[k])
      invariant forall k :: 1 <= k < i ==> toLong(bigVersion[k]) == Some(bigVer[k])
    {
      var small := toLong(smallVersion[i]);
      if small.None? {
        return false;
      }
      var big := toLong(bigVersion[i]);
      if big.None? {
        return false;
      }
      smallVer, bigVer := smallVer + [small.value], bigVer + [big.value];
    }
    return smallVer[1] == bigVer[1] && smallVer[2] == bigVer[2] && smallVer[3] == bigVer[3] && smallVer[4] < bigVer[4];
  }

  // ---------------------------------------------------------------- the whole package

  ghost predicate ModuleNotLower(key: string, oldInfo: ModulePackageInfo, newInfo: ModulePackageInfo)
    requires key in oldInfo.moduleMap
  {
    && key in newInfo.moduleMap
    && SaListNotLower(oldInfo.moduleMap[key].saInfoList, newInfo.moduleMap[key].saInfoList)
    && BundleListMatches(oldInfo.moduleMap[key].bundleInfoList, newInfo.moduleMap[key].bundleInfoList)
  }

  ghost predicate InfoNewer(toLong: ToLong, newInfo: ModulePackageInfo, oldInfo: ModulePackageInfo) {
    var newVersion, oldVersion := ParseVersion(newInfo.version), ParseVersion(oldInfo.version);
    && newVersion.Some? && oldVersion.Some?
    && HmpVersionBelow(toLong, oldVersion.value, newVersion.value)
    && |oldInfo.moduleMap| == |newInfo.moduleMap|
    && forall key :: key in oldInfo.moduleMap ==> ModuleNotLower(key, oldInfo, newInfo)
  }

  /** What ModuleFile::CompareVersion decides; two files at one path count as newer than each other. */
  ghost predicate NewerThan(toLong: ToLong, newFile: ModuleFile, oldFile: ModuleFile) {
    newFile.path == oldFile.path || InfoNewer(toLong, newFile.info, oldFile.info)
  }

  method CompareVersion(toLong: ToLong, newFile: ModuleFile, oldFile: ModuleFile) returns (r: bool)
    ensures r == NewerThan(toLong, newFile, oldFile)
  {
    if newFile.path == oldFile.path {
      return true;
    }
    var newVersion, oldVersion := ParseVersion(newFile.info.version), ParseVersion(oldFile.info.version);
    if newVersion.None? || oldVersion.None? {
      return false;
    }
    var below := CompareHmpVersion(toLong, oldVersion.value, newVersion.value);
    if !below {
      return false;
    }
    if |oldFile.info.moduleMap| != |newFile.info.moduleMap| {
      return false;
    }
    var keys := oldFile.info.moduleMap.Keys;
    while keys != {}
      invariant keys <= oldFile.info.moduleMap.Keys
      invariant forall key :: key in oldFile.info.moduleMap && key !in keys ==>
                                ModuleNotLower(key, oldFile.info, newFile.info)
    {
      var key :| key in keys;
      if key !in newFile.info.moduleMap {
        assert !ModuleNotLower(key, oldFile.info, newFile.info);
        return false;
      }
      var saOk := CompareSaListVersion(oldFile.info.moduleMap[key].saInfoList, newFile.info.moduleMap[key].saInfoList);
      if !saOk {
        assert !ModuleNotLower(key, oldFile.info, newFile.info);
        return false;
      }
      var bundlesOk := CompareBundleList(
        oldFile.info.moduleMap[key].bundleInfoList, newFile.info.moduleMap[key].bundleInfoList);
      if !bundlesOk {
        assert !ModuleNotLower(key, oldFile.info, newFile.info);
        return false;
      }
      keys := keys - {key};
    }
    return true;
  }

  // ---------------------------------------------------------------- a strict partial order

  lemma SaListNotLowerTransitive(a: seq<SaInfo>, b: seq<SaInfo>, c: seq<SaInfo>)
    requires SaListNotLower(a, b) && SaListNotLower(b, c)
    ensures SaListNotLower(a, c)
  {
    forall i | 0 <= i < |a|
      ensures SaNotLower(a[i], c)
    {
      assert SaNotLower(a[i], b);
      var found := FirstWithId(b, a[i].saId).value;
      var j :| 0 <= j < |b| && b[j] == found;
      assert SaNotLower(b[j], c);
    }
  }

  lemma BundleListMatchesTransitive(a: seq<BundleInfo>, b: seq<BundleInfo>, c: seq<BundleInfo>)
    requires BundleListMatches(a, b) && BundleListMatches(b, c)
    ensures BundleListMatches(a, c)
  {
    forall i | 0 <= i < |a|
      ensures HasBundle(c, a[i].bundleName)
    {
      assert HasBundle(b, a[i].bundleName);
      var j :| 0 <= j < |b| && b[j].bundleName == a[i].bundleName;
      assert HasBundle(c, b[j].bundleName);
    }
  }

  /** Transitivity needs no assumption on repeated service ids: the lookup always returns a list element. */
  lemma InfoNewerTransitive(toLong: ToLong, a: ModulePackageInfo, b: ModulePackageInfo, c: ModulePackageInfo)
    requires InfoNewer(toLong, a, b) && InfoNewer(toLong, b, c)
    ensures InfoNewer(toLong, a, c)
  {
    forall key | key in c.moduleMap
      ensures ModuleNotLower(key, c, a)
    {
      assert ModuleNotLower(key, c, b) && ModuleNotLower(key, b, a);
      SaListNotLowerTransitive(
        c.moduleMap[key].saInfoList, b.moduleMap[key].saInfoList, a.moduleMap[key].saInfoList);
      BundleListMatchesTransitive(
        c.moduleMap[key].bundleInfoList, b.moduleMap[key].bundleInfoList, a.moduleMap[key].bundleInfoList);
    }
  }

  lemma InfoNewerAsymmetric(toLong: ToLong, a: ModulePackageInfo, b: ModulePackageInfo)
    requires InfoNewer(toLong, a, b)
    ensures !InfoNewer(toLong, b, a)
  {
  }

  lemma NewerThanIsStrictOrder(toLong: ToLong, a: ModuleFile, b: ModuleFile, c: ModuleFile)
    requires a.path != b.path && b.path != c.path && a.path != c.path
    requires NewerThan(toLong, a, b)
    ensures !NewerThan(toLong, b, a)
    ensures NewerThan(toLong, b, c) ==> NewerThan(toLong, a, c)
  {
    if NewerThan(toLong, b, c) {
      InfoNewerTransitive(toLong, a.info, b.info, c.info);
    }
  }

  // ---------------------------------------------------------------- what an upgrade forces

  ghost function SaIds(list: seq<SaInfo>): seq<int32> {
    seq(|list|, i requires 0 <= i < |list| => list[i].saId)
  }

  ghost function BundleNames(list: seq<BundleInfo>): seq<string> {
    seq(|list|, i requires 0 <= i < |list| => list[i].bundleName)
  }

  /** No service id and no bundle name is listed twice within a module. */
  ghost predicate DistinctEntries(info: ModulePackageInfo) {
    forall key :: key in info.moduleMap ==>
                    && Distinct(SaIds(info.moduleMap[key].saInfoList))
                    && Distinct(BundleNames(info.moduleMap[key].bundleInfoList))
  }

  /**
   The order stated without lookups, sizes or one-way inclusion: same modules, same services, same bundles,
   and no service below its old version.
   */
  ghost predicate SameShapeNoServiceLower(newModule: ModuleInfo, oldModule: ModuleInfo) {
    && Elements(SaIds(newModule.saInfoList)) == Elements(SaIds(oldModule.saInfoList))
    && Elements(BundleNames(newModule.bundleInfoList)) == Elements(BundleNames(oldModule.bundleInfoList))
    && forall o, n :: o in oldModule.saInfoList && n in newModule.saInfoList && o.saId == n.saId ==>
                        NotLower(o.version, n.version)
  }

  datatype HmpVersion = HmpVersion(name: string, m: int32, s: int32, f: int32, b: int32)

  /** A version text: a name, a blank, and four numerals with dots between them that convert to these numbers. */
  ghost predicate Reads(toLong: ToLong, version: string, v: HmpVersion) {
    exists numerals: seq<string> ::
      && NoneHas(numerals, '.') && NoneHas(numerals, ' ')
      && |numerals| == 4 && version == v.name + [' '] + Join(numerals, '.')
      && toLong(numerals[0]) == Some(v.m) && toLong(numerals[1]) == Some(v.s)
      && toLong(numerals[2]) == Some(v.f) && toLong(numerals[3]) == Some(v.b)
  }

  /** Both texts read as versions that differ in the last number only, which is higher in the new one. */
  ghost predicate VersionRises(toLong: ToLong, newVersion: string, oldVersion: string) {
    exists o, n ::
      Reads(toLong, oldVersion, o) && Reads(toLong, newVersion, n) && n == o.(b := n.b) && o.b < n.b
  }

  ghost predicate IsUpgrade(toLong: ToLong, newInfo: ModulePackageInfo, oldInfo: ModulePackageInfo) {
    && VersionRises(toLong, newInfo.version, oldInfo.version)
    && newInfo.moduleMap.Keys == oldInfo.moduleMap.Keys
    && forall key :: key in oldInfo.moduleMap ==>
                       SameShapeNoServiceLower(newInfo.moduleMap[key], oldInfo.moduleMap[key])
  }

  lemma IdPosition(list: seq<SaInfo>, id: int32)
    ensures id in Elements(SaIds(list)) <==> FirstWithId(list, id).Some?
    ensures Distinct(SaIds(list)) ==>
              forall n :: n in list && n.saId == id ==> FirstWithId(list, id) == Some(n)
  {
    var ids := SaIds(list);
    if FirstWithId(list, id).Some? {
      var i :| 0 <= i < |list| && list[i].saId == id;
      assert ids[i] == id;
    }
    if Distinct(ids) {
      forall n | n in list && n.saId == id
        ensures FirstWithId(list, id) == Some(n)
      {
        var i :| 0 <= i < |list| && list[i] == n;
        var found := FirstWithId(list, id).value;
        var j :| 0 <= j < |list| && list[j] == found;
        assert ids[i] == ids[j] == id;
      }
    }
  }

  lemma NotLowerForcesShape(small: seq<SaInfo>, big: seq<SaInfo>)
    requires Distinct(SaIds(small)) && Distinct(SaIds(big)) && SaListNotLower(small, big)
    ensures Elements(SaIds(big)) == Elements(SaIds(small))
    ensures forall o, n :: o in small && n in big && o.saId == n.saId ==> NotLower(o.version, n.version)
  {
    hide Distinct, FirstWithId, CompareSaVersion, NotLower;
    var smallIds, bigIds := SaIds(small), SaIds(big);
    DistinctHasFullCardinality(smallIds);
    DistinctHasFullCardinality(bigIds);
    forall id | id in Elements(smallIds)
      ensures id in Elements(bigIds)
    {
      var i :| 0 <= i < |smallIds| && smallIds[i] == id;
      assert SaNotLower(small[i], big);
      IdPosition(big, id);
    }
    SubsetOfSameSize(Elements(smallIds), Elements(bigIds));
    forall o, n | o in small && n in big && o.saId == n.saId
      ensures NotLower(o.version, n.version)
    {
      var i :| 0 <= i < |small| && small[i] == o;
      assert SaNotLower(small[i], big);
      IdPosition(big, n.saId);
      CompareSaVersionIff(o.version, n.version);
    }
  }

  lemma ShapeForcesNotLower(small: seq<SaInfo>, big: seq<SaInfo>)
    requires Distinct(SaIds(small)) && Distinct(SaIds(big)) && Elements(SaIds(big)) == Elements(SaIds(small))
    requires forall o, n :: o in small && n in big && o.saId == n.saId ==> NotLower(o.version, n.version)
    ensures SaListNotLower(small, big)
  {
    hide Distinct, FirstWithId, CompareSaVersion, NotLower;
    DistinctHasFullCardinality(SaIds(small));
    DistinctHasFullCardinality(SaIds(big));
    forall i | 0 <= i < |small|
      ensures SaNotLower(small[i], big)
    {
      assert SaIds(small)[i] in Elements(SaIds(small));
      IdPosition(big, small[i].saId);
      CompareSaVersionIff(small[i].version, FirstWithId(big, small[i].saId).value.version);
    }
  }

  lemma SaListShape(small: seq<SaInfo>, big: seq<SaInfo>)
    requires Distinct(SaIds(small)) && Distinct(SaIds(big))
    ensures SaListNotLower(small, big) <==>
            && Elements(SaIds(big)) == Elements(SaIds(small))
            && forall o, n :: o in small && n in big && o.saId == n.saId ==> NotLower(o.version, n.version)
  {
    hide Distinct, SaListNotLower, NotLower, Elements, SaIds;
    if SaListNotLower(small, big) {
      NotLowerForcesShape(small, big);
    }
    if && Elements(SaIds(big)) == Elements(SaIds(small))
       && forall o, n :: o in small && n in big && o.saId == n.saId ==> NotLower(o.version, n.version) {
      ShapeForcesNotLower(small, big);
    }
  }

  lemma BundleListShape(small: seq<BundleInfo>, big: seq<BundleInfo>)
    requires Distinct(BundleNames(small)) && Distinct(BundleNames(big))
    ensures BundleListMatches(small, big) <==> Elements(BundleNames(big)) == Elements(BundleNames(small))
  {
    var smallNames, bigNames := BundleNames(small), BundleNames(big);
    DistinctHasFullCardinality(smallNames);
    DistinctHasFullCardinality(bigNames);
    forall name
      ensures name in Elements(bigNames) <==> HasBundle(big, name)
    {
      if HasBundle(big, name) {
        var j :| 0 <= j < |big| && big[j].bundleName == name;
        assert bigNames[j] == name;
      }
    }
    if BundleListMatches(small, big) {
      forall name | name in Elements(smallNames)
        ensures name in Elements(bigNames)
      {
        var i :| 0 <= i < |smallNames| && smallNames[i] == name;
        assert HasBundle(big, small[i].bundleName);
      }
      SubsetOfSameSize(Elements(smallNames), Elements(bigNames));
    }
    if Elements(bigNames) == Elements(smallNames) {
      forall i | 0 <= i < |small|
        ensures HasBundle(big, small[i].bundleName)
      {
        assert smallNames[i] in Elements(bigNames);
      }
    }
  }

  /** With no repeated ids or names, the size checks and one-way lookups decide exactly IsUpgrade. */
  /** The parts of a parsed version, one by one. */
  ghost predicate Numbered(toLong: ToLong, parts: seq<string>, v: HmpVersion) {
    && |parts| == PACKINFO_VERSION_VECTOR_SIZE && parts[0] == v.name
    && toLong(parts[1]) == Some(v.m) && toLong(parts[2]) == Some(v.s)
    && toLong(parts[3]) == Some(v.f) && toLong(parts[4]) == Some(v.b)
  }

  lemma ReadsIffNumbered(toLong: ToLong, version: string, v: HmpVersion)
    ensures Reads(toLong, version, v) <==>
            ParseVersion(version).Some? && Numbered(toLong, ParseVersion(version).value, v)
  {
    hide ParseVersion, Join, NoneHas;
    var parts := ParseVersion(version);
    if Reads(toLong, version, v) {
      var numerals: seq<string> :|
        && NoneHas(numerals, '.') && NoneHas(numerals, ' ')
        && |numerals| == 4 && version == v.name + [' '] + Join(numerals, '.')
        && toLong(numerals[0]) == Some(v.m) && toLong(numerals[1]) == Some(v.s)
        && toLong(numerals[2]) == Some(v.f) && toLong(numerals[3]) == Some(v.b);
      ParseVersionIff(version, v.name, numerals);
      assert parts.value == [v.name] + numerals;
    }
    if parts.Some? && Numbered(toLong, parts.value, v) {
      var numerals := parts.value[1..];
      assert parts.value == [v.name] + numerals;
      ParseVersionIff(version, v.name, numerals);
    }
  }

  lemma BelowIfNumbered(toLong: ToLong, small: seq<string>, big: seq<string>, o: HmpVersion, n: HmpVersion)
    requires Numbered(toLong, small, o) && Numbered(toLong, big, n) && n == o.(b := n.b)
    ensures HmpVersionBelow(toLong, small, big) <==> o.b < n.b
  {
  }

  ghost function VersionOf(toLong: ToLong, parts: seq<string>): HmpVersion
    requires |parts| == PACKINFO_VERSION_VECTOR_SIZE && forall i :: 1 <= i <= 4 ==> toLong(parts[i]).Some?
  {
    HmpVersion(
      parts[0], toLong(parts[1]).value, toLong(parts[2]).value, toLong(parts[3]).value, toLong(parts[4]).value)
  }

  lemma NumberedIfBelow(toLong: ToLong, small: seq<string>, big: seq<string>)
    requires HmpVersionBelow(toLong, small, big)
    ensures var o, n := VersionOf(toLong, small), VersionOf(toLong, big);
            Numbered(toLong, small, o) && Numbered(toLong, big, n) && n == o.(b := n.b) && o.b < n.b
  {
  }

  lemma RisesMeansBelow(toLong: ToLong, newVersion: string, oldVersion: string)
    requires VersionRises(toLong, newVersion, oldVersion)
    ensures ParseVersion(newVersion).Some? && ParseVersion(oldVersion).Some?
    ensures HmpVersionBelow(toLong, ParseVersion(oldVersion).value, ParseVersion(newVersion).value)
  {
    hide ParseVersion, Reads, Numbered, HmpVersionBelow;
    var o, n :|
      Reads(toLong, oldVersion, o) && Reads(toLong, newVersion, n) && n == o.(b := n.b) && o.b < n.b;
    ReadsIffNumbered(toLong, oldVersion, o);
    ReadsIffNumbered(toLong, newVersion, n);
    BelowIfNumbered(toLong, ParseVersion(oldVersion).value, ParseVersion(newVersion).value, o, n);
  }

  lemma BelowMeansRises(toLong: ToLong, newVersion: string, oldVersion: string)
    requires ParseVersion(newVersion).Some? && ParseVersion(oldVersion).Some?
    requires HmpVersionBelow(toLong, ParseVersion(oldVersion).value, ParseVersion(newVersion).value)
    ensures VersionRises(toLong, newVersion, oldVersion)
  {
    var small, big := ParseVersion(oldVersion).value, ParseVersion(newVersion).value;
    var o, n := VersionOf(toLong, small), VersionOf(toLong, big);
    hide ParseVersion, Reads, Numbered, HmpVersionBelow, VersionOf;
    NumberedIfBelow(toLong, small, big);
    ReadsIffNumbered(toLong, oldVersion, o);
    ReadsIffNumbered(toLong, newVersion, n);
  }

  lemma InfoNewerIffUpgrade(toLong: ToLong, newInfo: ModulePackageInfo, oldInfo: ModulePackageInfo)
    requires DistinctEntries(newInfo) && DistinctEntries(oldInfo)
    ensures InfoNewer(toLong, newInfo, oldInfo) <==> IsUpgrade(toLong, newInfo, oldInfo)
  {
    hide ParseVersion, VersionRises, HmpVersionBelow, SaListNotLower, BundleListMatches, Distinct, Elements, NotLower;
    var newVersion, oldVersion := ParseVersion(newInfo.version), ParseVersion(oldInfo.version);
    if VersionRises(toLong, newInfo.version, oldInfo.version) {
      RisesMeansBelow(toLong, newInfo.version, oldInfo.version);
    } else if newVersion.Some? && oldVersion.Some? && HmpVersionBelow(toLong, oldVersion.value, newVersion.value) {
      BelowMeansRises(toLong, newInfo.version, oldInfo.version);
    }
    forall key | key in oldInfo.moduleMap && key in newInfo.moduleMap
      ensures ModuleNotLower(key, oldInfo, newInfo) <==>
              SameShapeNoServiceLower(newInfo.moduleMap[key], oldInfo.moduleMap[key])
    {
      SaListShape(oldInfo.moduleMap[key].saInfoList, newInfo.moduleMap[key].saInfoList);
      BundleListShape(oldInfo.moduleMap[key].bundleInfoList, newInfo.moduleMap[key].bundleInfoList);
    }
    if InfoNewer(toLong, newInfo, oldInfo) {
      assert oldInfo.moduleMap.Keys <= newInfo.moduleMap.Keys by {
        forall key | key in oldInfo.moduleMap.Keys
          ensures key in newInfo.moduleMap.Keys
        {
          assert ModuleNotLower(key, oldInfo, newInfo);
        }
      }
      SubsetOfSameSize(oldInfo.moduleMap.Keys, newInfo.moduleMap.Keys);
    }
  }
}
