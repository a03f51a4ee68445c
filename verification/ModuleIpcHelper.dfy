/**
 Package lists across a process boundary: services/module_update/util/src/module_ipc_helper.cpp and the list templates of
 services/module_update/util/include/module_ipc_helper.h.

 A parcel is a sequence of typed items with a read cursor; a read of another type, or past the end, yields the default.
 The order in which a writer visits an unordered map is an input.
 */
module ModuleIpcHelper {
  import opened Common
  import opened ModuleFiles

  const IPC_MIN_SIZE := 0
  const IPC_MAX_SIZE := 128

  datatype Item = Str(s: string) | I32(i: int32) | U32(u: uint32)

  /** static_cast of a container size. */
  function AsInt32(n: nat): int32 {
    (n + 0x8000_0000) % TWO_TO_THE_32 - 0x8000_0000
  }

  // ---------------------------------------------------------------- what is written

  function SaInfoItems(x: SaInfo): seq<Item> {
    [Str(x.saName), I32(x.saId), U32(x.version.apiVersion), U32(x.version.versionCode), U32(x.version.patchVersion)]
  }

  function BundleInfoItems(x: BundleInfo): seq<Item> {
    [Str(x.bundleName), Str(x.bundleVersion)]
  }

  ghost function AllItems<T>(list: seq<T>, items: T -> seq<Item>): seq<Item> {
    if list == [] then [] else AllItems(list[..|list| - 1], items) + items(list[|list| - 1])
  }

  ghost function ListItems<T>(list: seq<T>, items: T -> seq<Item>): seq<Item> {
    [I32(AsInt32(|list|))] + AllItems(list, items)
  }

  datatype Module = Module(name: string, info: ModuleInfo)

  ghost function ModuleItems(m: Module): seq<Item> {
    [Str(m.name)] + ListItems(m.info.saInfoList, SaInfoItems) + ListItems(m.info.bundleInfoList, BundleInfoItems)
  }

  /** A package and the order in which its module map is visited. */
  datatype Package = Package(info: ModulePackageInfo, order: seq<string>)

  ghost predicate Visits(p: Package) {
    Distinct(p.order) && Elements(p.order) == p.info.moduleMap.Keys
  }

  ghost function InOrder(moduleMap: map<string, ModuleInfo>, order: seq<string>): (r: seq<Module>)
    requires Elements(order) == moduleMap.Keys
    ensures |r| == |order|
  {
    seq(|order|, i requires 0 <= i < |order| => assert order[i] in Elements(order); Module(order[i], moduleMap[order[i]]))
  }

  ghost function HeadItems(info: ModulePackageInfo): seq<Item> {
    [Str(info.hmpName), Str(info.version), Str(info.saSdkVersion), Str(info.packageType), I32(info.apiVersion)]
  }

  ghost function PackageItems(p: Package): seq<Item> {
    HeadItems(p.info) + if Visits(p) then ListItems(InOrder(p.info.moduleMap, p.order), ModuleItems) else []
  }

  /** The order on the wire: the five fields of a package, the number of its modules, and five fields per service. */
  lemma WireOrder(p: Package, x: SaInfo)
    requires Visits(p)
    ensures var items := PackageItems(p);
            && |items| >= 6
            && items[0] == Str(p.info.hmpName) && items[1] == Str(p.info.version)
            && items[2] == Str(p.info.saSdkVersion) && items[3] == Str(p.info.packageType)
            && items[4] == I32(p.info.apiVersion) && items[5] == I32(AsInt32(|p.order|))
    ensures var items := SaInfoItems(x);
            && |items| == 5 && items[0] == Str(x.saName) && items[1] == I32(x.saId)
            && items[2] == U32(x.version.apiVersion)
            && items[3] == U32(x.version.versionCode) && items[4] == U32(x.version.patchVersion)
  {
    hide AllItems, InOrder, AsInt32, Distinct;
  }

  // ---------------------------------------------------------------- the parcel

  ghost predicate At(items: seq<Item>, at: nat, expected: seq<Item>) {
    at + |expected| <= |items| && items[at..at + |expected|] == expected
  }

  class MessageParcel {
    var items: seq<Item>
    var cursor: nat

    constructor ()
      ensures items == [] && cursor == 0
    {
      items, cursor := [], 0;
    }

    method Write(item: Item)
      modifies this`items
      ensures items == old(items) + [item]
    {
      items := items + [item];
    }

    /** What is left to read starts with `expected`. */
    ghost predicate Next(expected: seq<Item>)
      reads this
    {
      At(items, cursor, expected)
    }

    method ReadString16() returns (s: string)
      modifies this`cursor
      ensures cursor == if old(cursor) < |items| then old(cursor) + 1 else old(cursor)
      ensures old(cursor) < |items| && items[old(cursor)].Str? ==> s == items[old(cursor)].s
    {
      s := "";
      if cursor < |items| {
        s := if items[cursor].Str? then items[cursor].s else "";
        cursor := cursor + 1;
      }
    }

    method ReadInt32() returns (i: int32)
      modifies this`cursor
      ensures cursor == if old(cursor) < |items| then old(cursor) + 1 else old(cursor)
      ensures old(cursor) < |items| && items[old(cursor)].I32? ==> i == items[old(cursor)].i
    {
      i := 0;
      if cursor < |items| {
        i := if items[cursor].I32? then items[cursor].i else 0;
        cursor := cursor + 1;
      }
    }

    method ReadUint32() returns (u: uint32)
      modifies this`cursor
      ensures cursor == if old(cursor) < |items| then old(cursor) + 1 else old(cursor)
      ensures old(cursor) < |items| && items[old(cursor)].U32? ==> u == items[old(cursor)].u
    {
      u := 0;
      if cursor < |items| {
        u := if items[cursor].U32? then items[cursor].u else 0;
        cursor := cursor + 1;
      }
    }
  }

  // ---------------------------------------------------------------- writing

  method WriteSaInfo(data: MessageParcel, info: SaInfo)
    modifies data`items
    ensures data.items == old(data.items) + SaInfoItems(info)
  {
    data.Write(Str(info.saName));
    data.Write(I32(info.saId));
    data.Write(U32(info.version.apiVersion));
    data.Write(U32(info.version.versionCode));
    data.Write(U32(info.version.patchVersion));
  }

  method WriteBundleInfo(data: MessageParcel, info: BundleInfo)
    modifies data`items
    ensures data.items == old(data.items) + BundleInfoItems(info)
  {
    data.Write(Str(info.bundleName));
    data.Write(Str(info.bundleVersion));
  }

  lemma AllItemsOfPrefix<T>(list: seq<T>, items: T -> seq<Item>, n: nat)
    requires n < |list|
    ensures AllItems(list[..n + 1], items) == AllItems(list[..n], items) + items(list[n])
  {
    assert list[..n + 1][..n] == list[..n];
  }

  method WriteSaList(data: MessageParcel, list: seq<SaInfo>)
    modifies data`items
    ensures data.items == old(data.items) + ListItems(list, SaInfoItems)
  {
    data.Write(I32(AsInt32(|list|)));
    for n := 0 to |list|
      invariant data.items == old(data.items) + ([I32(AsInt32(|list|))] + AllItems(list[..n], SaInfoItems))
    {
      AllItemsOfPrefix(list, SaInfoItems, n);
      WriteSaInfo(data, list[n]);
    }
    assert list[..|list|] == list;
  }

  method WriteBundleList(data: MessageParcel, list: seq<BundleInfo>)
    modifies data`items
    ensures data.items == old(data.items) + ListItems(list, BundleInfoItems)
  {
    data.Write(I32(AsInt32(|list|)));
    for n := 0 to |list|
      invariant data.items == old(data.items) + ([I32(AsInt32(|list|))] + AllItems(list[..n], BundleInfoItems))
    {
      AllItemsOfPrefix(list, BundleInfoItems, n);
      WriteBundleInfo(data, list[n]);
    }
    assert list[..|list|] == list;
  }

  method WriteModule(data: MessageParcel, name: string, info: ModuleInfo)
    modifies data`items
    ensures data.items == old(data.items) + ModuleItems(Module(name, info))
  {
    hide ListItems, SaInfoItems, BundleInfoItems;
    data.Write(Str(name));
    WriteSaList(data, info.saInfoList);
    WriteBundleList(data, info.bundleInfoList);
  }

  lemma EntryInOrder(moduleMap: map<string, ModuleInfo>, order: seq<string>, n: nat)
    requires Elements(order) == moduleMap.Keys && n < |order|
    ensures order[n] in moduleMap && InOrder(moduleMap, order)[n] == Module(order[n], moduleMap[order[n]])
  {
    assert order[n] in Elements(order);
  }

  lemma NoItems<T>(list: seq<T>, items: T -> seq<Item>)
    ensures AllItems(list[..0], items) == []
  {
  }

  method WriteModuleMap(data: MessageParcel, moduleMap: map<string, ModuleInfo>, order: seq<string>)
    requires Distinct(order) && Elements(order) == moduleMap.Keys
    modifies data`items
    ensures data.items == old(data.items) + ListItems(InOrder(moduleMap, order), ModuleItems)
  {
    hide ModuleItems, InOrder, Elements, Distinct, AllItems, AsInt32;
    ghost var modules := InOrder(moduleMap, order);
    VisitsAll(moduleMap, order);
    NoItems(modules, ModuleItems);
    data.Write(I32(AsInt32(|moduleMap|)));
    for n := 0 to |order|
      invariant data.items == old(data.items) + ([I32(AsInt32(|order|))] + AllItems(modules[..n], ModuleItems))
    {
      AllItemsOfPrefix(modules, ModuleItems, n);
      EntryInOrder(moduleMap, order, n);
      WriteModule(data, order[n], moduleMap[order[n]]);
    }
    assert modules[..|order|] == modules;
  }

  method WriteModulePackageInfo(data: MessageParcel, info: ModulePackageInfo, order: seq<string>)
    requires Visits(Package(info, order))
    modifies data`items
    ensures data.items == old(data.items) + PackageItems(Package(info, order))
  {
    hide ListItems, InOrder, ModuleItems;
    data.Write(Str(info.hmpName));
    data.Write(Str(info.version));
    data.Write(Str(info.saSdkVersion));
    data.Write(Str(info.packageType));
    data.Write(I32(info.apiVersion));
    assert data.items == old(data.items) + HeadItems(info);
    WriteModuleMap(data, info.moduleMap, order);
  }

  lemma VisitsAll(moduleMap: map<string, ModuleInfo>, order: seq<string>)
    requires Distinct(order) && Elements(order) == moduleMap.Keys
    ensures |order| == |moduleMap|
  {
    DistinctHasFullCardinality(order);
    assert |moduleMap| == |moduleMap.Keys|;
  }

  method WriteModulePackageInfos(data: MessageParcel, packages: seq<Package>)
    requires forall p :: p in packages ==> Visits(p)
    modifies data`items
    ensures data.items == old(data.items) + ListItems(packages, PackageItems)
  {
    hide PackageItems, Visits;
    data.Write(I32(AsInt32(|packages|)));
    for n := 0 to |packages|
      invariant data.items == old(data.items) + ([I32(AsInt32(|packages|))] + AllItems(packages[..n], PackageItems))
    {
      AllItemsOfPrefix(packages, PackageItems, n);
      WriteModulePackageInfo(data, packages[n].info, packages[n].order);
    }
    assert packages[..|packages|] == packages;
  }

  // ---------------------------------------------------------------- reading

  /** The cast of a size keeps what the reader accepts, and nothing else looks like it below 2^32 members. */
  lemma CastSize(n: nat)
    ensures n <= IPC_MAX_SIZE ==> AsInt32(n) == n
    ensures IPC_MIN_SIZE <= AsInt32(n) <= IPC_MAX_SIZE <==> n % TWO_TO_THE_32 <= IPC_MAX_SIZE
  {
    hide AsInt32;
    CastCases(n);
    if n <= IPC_MAX_SIZE {
      Remainder(n, n, 0);
    }
  }

  /** Two's complement: the lower half of the remainders is kept, the upper half is negative. */
  lemma CastCases(n: nat)
    ensures var r := n % TWO_TO_THE_32;
            AsInt32(n) == if r < 0x8000_0000 then r else r - TWO_TO_THE_32
  {
    var q, r := n / TWO_TO_THE_32, n % TWO_TO_THE_32;
    if r < 0x8000_0000 {
      Remainder(n + 0x8000_0000, r + 0x8000_0000, q);
    } else {
      Remainder(n + 0x8000_0000, r - 0x8000_0000, q + 1);
    }
  }

  lemma Remainder(n: nat, r: nat, q: nat)
    requires n == q * TWO_TO_THE_32 + r && r < TWO_TO_THE_32
    ensures n % TWO_TO_THE_32 == r
  {
  }

  predicate SmallInfo(info: ModuleInfo) {
    |info.saInfoList| <= IPC_MAX_SIZE && |info.bundleInfoList| <= IPC_MAX_SIZE
  }

  /** What a reader can return: at most 128 modules, each with at most 128 services and 128 bundles. */
  ghost predicate SmallMap(moduleMap: map<string, ModuleInfo>) {
    |moduleMap| <= IPC_MAX_SIZE && forall key :: key in moduleMap ==> SmallInfo(moduleMap[key])
  }

  /** In a parcel that goes on with the items of a list, those of its n-th element lie after those of the first n. */
  lemma {:induction false} ElementItemsAt<T>(all: seq<Item>, at: nat, list: seq<T>, items: T -> seq<Item>, n: nat)
    requires n < |list| && At(all, at, AllItems(list, items))
    ensures At(all, at + |AllItems(list[..n], items)|, items(list[n]))
    decreases |list|
  {
    var front, last := list[..|list| - 1], list[|list| - 1];
    var a, b := AllItems(front, items), items(last);
    assert AllItems(list, items) == a + b;
    assert all[at..at + |a|] == all[at..at + |a + b|][..|a|];
    if n < |front| {
      ElementItemsAt(all, at, front, items, n);
      assert front[..n] == list[..n];
    } else {
      assert list[..n] == front;
      assert all[at + |a|..at + |a| + |b|] == all[at..at + |a + b|][|a|..];
    }
  }

  /** The same, for a reader that has come to its n-th element. */
  lemma NextElement<T>(reply: MessageParcel, start: nat, list: seq<T>, items: T -> seq<Item>, n: nat)
    requires n < |list| && At(reply.items, start, AllItems(list, items))
    requires reply.cursor == start + |AllItems(list[..n], items)|
    ensures reply.Next(items(list[n]))
    ensures |AllItems(list[..n + 1], items)| == |AllItems(list[..n], items)| + |items(list[n])|
  {
    ElementItemsAt(reply.items, start, list, items, n);
    AllItemsOfPrefix(list, items, n);
  }

  lemma ItemsAt(items: seq<Item>, at: nat, expected: seq<Item>)
    requires At(items, at, expected)
    ensures at + |expected| <= |items|
    ensures forall j :: at <= j < at + |expected| ==> items[j] == expected[j - at]
  {
    forall j | at <= j < at + |expected|
      ensures items[j] == expected[j - at]
    {
      assert items[at..at + |expected|][j - at] == items[j];
    }
  }

  /** Reading `sent` back: each reader returns what the parcel goes on with and moves the cursor behind it. */
  method ReadSaInfo(reply: MessageParcel, ghost sent: SaInfo) returns (info: SaInfo)
    modifies reply`cursor
    ensures old(reply.Next(SaInfoItems(sent))) ==>
              info == sent && reply.cursor == old(reply.cursor) + |SaInfoItems(sent)|
  {
    if reply.Next(SaInfoItems(sent)) {
      ItemsAt(reply.items, reply.cursor, SaInfoItems(sent));
    }
    var saName := reply.ReadString16();
    var saId := reply.ReadInt32();
    var apiVersion := reply.ReadUint32();
    var versionCode := reply.ReadUint32();
    var patchVersion := reply.ReadUint32();
    info := SaInfo(saName, saId, SaVersion(apiVersion, versionCode, patchVersion));
  }

  method ReadBundleInfo(reply: MessageParcel, ghost sent: BundleInfo) returns (info: BundleInfo)
    modifies reply`cursor
    ensures old(reply.Next(BundleInfoItems(sent))) ==>
              info == sent && reply.cursor == old(reply.cursor) + |BundleInfoItems(sent)|
  {
    if reply.Next(BundleInfoItems(sent)) {
      ItemsAt(reply.items, reply.cursor, BundleInfoItems(sent));
    }
    var bundleName := reply.ReadString16();
    var bundleVersion := reply.ReadString16();
    info := BundleInfo(bundleName, bundleVersion);
  }

  /** A list that follows in the parcel: its size is next, and then its elements. */
  lemma ListFollows<T>(reply: MessageParcel, sent: seq<T>, items: T -> seq<Item>)
    requires reply.Next(ListItems(sent, items))
    ensures reply.cursor < |reply.items| && reply.items[reply.cursor] == I32(AsInt32(|sent|))
    ensures At(reply.items, reply.cursor + 1, AllItems(sent, items))
    ensures |ListItems(sent, items)| == 1 + |AllItems(sent, items)| && |AllItems(sent[..0], items)| == 0
  {
    var c, x := reply.cursor, ListItems(sent, items);
    assert reply.items[c] == reply.items[c..c + |x|][0];
    assert reply.items[c + 1..c + |x|] == reply.items[c..c + |x|][1..];
  }

  method ReadSaList(reply: MessageParcel, ghost sent: seq<SaInfo>) returns (list: seq<SaInfo>)
    modifies reply`cursor
    ensures |list| <= IPC_MAX_SIZE
    ensures old(reply.Next(ListItems(sent, SaInfoItems))) ==> (list == sent <==> |sent| <= IPC_MAX_SIZE)
    ensures old(reply.Next(ListItems(sent, SaInfoItems))) && |sent| <= IPC_MAX_SIZE ==>
              reply.cursor == old(reply.cursor) + |ListItems(sent, SaInfoItems)|
    ensures old(reply.Next(ListItems(sent, SaInfoItems))) && |sent| % TWO_TO_THE_32 > IPC_MAX_SIZE ==>
              list == [] && reply.cursor == old(reply.cursor) + 1
  {
    hide At, SaInfoItems, AllItems, ListItems, AsInt32;
    ghost var c, follows := reply.cursor, reply.Next(ListItems(sent, SaInfoItems));
    ghost var good := follows && |sent| <= IPC_MAX_SIZE;
    if follows {
      ListFollows(reply, sent, SaInfoItems);
      CastSize(|sent|);
    }
    list := [];
    var size := reply.ReadInt32();
    if size > IPC_MAX_SIZE || size < IPC_MIN_SIZE {
      return;
    }
    for i := 0 to size
      invariant |list| == i
      invariant good ==> && size == |sent| && list == sent[..i]
                         && reply.cursor == c + 1 + |AllItems(sent[..i], SaInfoItems)|
    {
      ghost var next := if good then sent[i] else SaInfo("", 0, SaVersion(0, 0, 0));
      if good {
        NextElement(reply, c + 1, sent, SaInfoItems, i);
      }
      var item := ReadSaInfo(reply, next);
      list := list + [item];
    }
    assert good ==> sent[..|sent|] == sent;
  }

  method ReadBundleList(reply: MessageParcel, ghost sent: seq<BundleInfo>) returns (list: seq<BundleInfo>)
    modifies reply`cursor
    ensures |list| <= IPC_MAX_SIZE
    ensures old(reply.Next(ListItems(sent, BundleInfoItems))) ==> (list == sent <==> |sent| <= IPC_MAX_SIZE)
    ensures old(reply.Next(ListItems(sent, BundleInfoItems))) && |sent| <= IPC_MAX_SIZE ==>
              reply.cursor == old(reply.cursor) + |ListItems(sent, BundleInfoItems)|
    ensures old(reply.Next(ListItems(sent, BundleInfoItems))) && |sent| % TWO_TO_THE_32 > IPC_MAX_SIZE ==>
              list == [] && reply.cursor == old(reply.cursor) + 1
  {
    hide At, BundleInfoItems, AllItems, ListItems, AsInt32;
    ghost var c, follows := reply.cursor, reply.Next(ListItems(sent, BundleInfoItems));
    ghost var good := follows && |sent| <= IPC_MAX_SIZE;
    if follows {
      ListFollows(reply, sent, BundleInfoItems);
      CastSize(|sent|);
    }
    list := [];
    var size := reply.ReadInt32();
    if size > IPC_MAX_SIZE || size < IPC_MIN_SIZE {
      return;
    }
    for i := 0 to size
      invariant |list| == i
      invariant good ==> && size == |sent| && list == sent[..i]
                         && reply.cursor == c + 1 + |AllItems(sent[..i], BundleInfoItems)|
    {
      ghost var next := if good then sent[i] else BundleInfo("", "");
      if good {
        NextElement(reply, c + 1, sent, BundleInfoItems, i);
      }
      var item := ReadBundleInfo(reply, next);
      list := list + [item];
    }
    assert good ==> sent[..|sent|] == sent;
  }

  lemma AtSplit(items: seq<Item>, at: nat, a: seq<Item>, b: seq<Item>)
    requires At(items, at, a + b)
    ensures At(items, at, a) && At(items, at + |a|, b)
  {
    assert items[at..at + |a|] == items[at..at + |a + b|][..|a|];
    assert items[at + |a|..at + |a| + |b|] == items[at..at + |a + b|][|a|..];
  }

  ghost predicate SmallModule(m: Module) {
    SmallInfo(m.info)
  }

  /** Every list and map inside the package is small enough for the reader. */
  ghost predicate SmallPackage(p: Package) {
    && Visits(p)
    && |p.order| <= IPC_MAX_SIZE
    && AllSmallModules(InOrder(p.info.moduleMap, p.order))
  }

  lemma ModuleFollows(items: seq<Item>, at: nat, sent: Module)
    requires At(items, at, ModuleItems(sent))
    ensures var sas, bundles :=
              ListItems(sent.info.saInfoList, SaInfoItems), ListItems(sent.info.bundleInfoList, BundleInfoItems);
            && at < |items| && items[at] == Str(sent.name)
            && At(items, at + 1, sas) && At(items, at + 1 + |sas|, bundles)
            && |ModuleItems(sent)| == 1 + |sas| + |bundles|
  {
    hide ListItems;
    var sas, bundles :=
      ListItems(sent.info.saInfoList, SaInfoItems), ListItems(sent.info.bundleInfoList, BundleInfoItems);
    AtSplit(items, at, [Str(sent.name)] + sas, bundles);
    AtSplit(items, at, [Str(sent.name)], sas);
    assert items[at] == items[at..at + 1][0];
  }

  method ReadModule(reply: MessageParcel, ghost sent: Module) returns (m: Module)
    modifies reply`cursor
    ensures SmallInfo(m.info)
    ensures old(reply.Next(ModuleItems(sent))) && SmallModule(sent) ==>
              m == sent && reply.cursor == old(reply.cursor) + |ModuleItems(sent)|
  {
    hide ListItems, ModuleItems, At;
    if reply.Next(ModuleItems(sent)) {
      ModuleFollows(reply.items, reply.cursor, sent);
    }
    var name := reply.ReadString16();
    var saInfoList := ReadSaList(reply, sent.info.saInfoList);
    var bundleInfoList := ReadBundleList(reply, sent.info.bundleInfoList);
    m := Module(name, ModuleInfo(saInfoList, bundleInfoList));
  }

  /** emplace: an entry whose name is already there is dropped. */
  function Emplaced(moduleMap: map<string, ModuleInfo>, m: Module): map<string, ModuleInfo> {
    if m.name in moduleMap then moduleMap else moduleMap[m.name := m.info]
  }

  ghost function AllEmplaced(modules: seq<Module>): map<string, ModuleInfo> {
    if modules == [] then map[] else Emplaced(AllEmplaced(modules[..|modules| - 1]), modules[|modules| - 1])
  }

  /** Emplacing a module that is not in the map yet. */
  lemma EmplacedNew(
    moduleMap: map<string, ModuleInfo>, keys: set<string>, name: string, rebuilt: map<string, ModuleInfo>)
    requires name in moduleMap && rebuilt.Keys == keys && name !in keys
    requires forall key :: key in rebuilt ==> key in moduleMap && rebuilt[key] == moduleMap[key]
    ensures var more := Emplaced(rebuilt, Module(name, moduleMap[name]));
            && more.Keys == keys + {name}
            && forall key :: key in more ==> key in moduleMap && more[key] == moduleMap[key]
  {
  }

  lemma OrderOneMore(order: seq<string>, n: nat)
    requires Distinct(order) && n < |order|
    ensures order[n] in Elements(order) && order[n] !in Elements(order[..n])
    ensures Elements(order[..n + 1]) == Elements(order[..n]) + {order[n]}
  {
    assert order[..n + 1] == order[..n] + [order[n]];
  }

  /** Whatever order the writer visits a map in, emplacing its entries in that order rebuilds it. */
  lemma {:induction false} EmplacingRebuilds(moduleMap: map<string, ModuleInfo>, order: seq<string>, n: nat)
    requires Distinct(order) && Elements(order) == moduleMap.Keys && n <= |order|
    ensures var rebuilt := AllEmplaced(InOrder(moduleMap, order)[..n]);
            && rebuilt.Keys == Elements(order[..n])
            && forall key :: key in rebuilt ==> key in moduleMap && rebuilt[key] == moduleMap[key]
  {
    if n > 0 {
      hide Distinct, Elements, AllEmplaced, Emplaced;
      var modules := InOrder(moduleMap, order);
      EmplacingRebuilds(moduleMap, order, n - 1);
      OrderOneMore(order, n - 1);
      EmplacedOfPrefix(modules, n - 1);
      EmplacedNew(moduleMap, Elements(order[..n - 1]), order[n - 1], AllEmplaced(modules[..n - 1]));
    }
  }

  lemma EmplacedOfPrefix(modules: seq<Module>, n: nat)
    requires n < |modules|
    ensures AllEmplaced(modules[..n + 1]) == Emplaced(AllEmplaced(modules[..n]), modules[n])
  {
    assert modules[..n + 1][..n] == modules[..n];
  }

  ghost predicate AllSmallModules(modules: seq<Module>) {
    forall i :: 0 <= i < |modules| ==> SmallModule(modules[i])
  }

  lemma EmplacedStaysSmall(moduleMap: map<string, ModuleInfo>, m: Module, n: nat)
    requires |moduleMap| <= n && (forall key :: key in moduleMap ==> SmallInfo(moduleMap[key])) && SmallInfo(m.info)
    ensures var more := Emplaced(moduleMap, m);
            |more| <= n + 1 && forall key :: key in more ==> SmallInfo(more[key])
  {
  }

  lemma NothingEmplaced(sent: seq<Module>)
    ensures |AllItems(sent[..0], ModuleItems)| == 0 && AllEmplaced(sent[..0]) == map[]
  {
  }

  method ReadModules(reply: MessageParcel, size: nat, ghost sent: seq<Module>, ghost good: bool)
    returns (moduleMap: map<string, ModuleInfo>)
    requires size <= IPC_MAX_SIZE
    requires good ==> size == |sent| && reply.Next(AllItems(sent, ModuleItems)) && AllSmallModules(sent)
    modifies reply`cursor
    ensures SmallMap(moduleMap)
    ensures good ==> && moduleMap == AllEmplaced(sent)
                     && reply.cursor == old(reply.cursor) + |AllItems(sent, ModuleItems)|
  {
    hide At, ModuleItems, SmallModule, AllItems, AllEmplaced, Emplaced, SmallInfo;
    ghost var c := reply.cursor;
    moduleMap := map[];
    NothingEmplaced(sent);
    for i := 0 to size
      invariant |moduleMap| <= i && forall key :: key in moduleMap ==> SmallInfo(moduleMap[key])
      invariant good ==> && moduleMap == AllEmplaced(sent[..i])
                         && reply.cursor == c + |AllItems(sent[..i], ModuleItems)|
    {
      ghost var next := if good then sent[i] else Module("", ModuleInfo([], []));
      if good {
        NextElement(reply, c, sent, ModuleItems, i);
        EmplacedOfPrefix(sent, i);
      }
      var m := ReadModule(reply, next);
      EmplacedStaysSmall(moduleMap, m, i);
      moduleMap := Emplaced(moduleMap, m);
    }
    assert good ==> sent[..|sent|] == sent;
  }

  method ReadModuleMap(reply: MessageParcel, ghost sent: seq<Module>) returns (moduleMap: map<string, ModuleInfo>)
    modifies reply`cursor
    ensures SmallMap(moduleMap)
    ensures old(reply.Next(ListItems(sent, ModuleItems))) && |sent| <= IPC_MAX_SIZE && AllSmallModules(sent) ==>
              && moduleMap == AllEmplaced(sent)
              && reply.cursor == old(reply.cursor) + |ListItems(sent, ModuleItems)|
    ensures old(reply.Next(ListItems(sent, ModuleItems))) && |sent| % TWO_TO_THE_32 > IPC_MAX_SIZE ==>
              moduleMap == map[] && reply.cursor == old(reply.cursor) + 1
  {
    hide At, ModuleItems, AllSmallModules, AllItems, ListItems, AllEmplaced, AsInt32;
    ghost var follows := reply.Next(ListItems(sent, ModuleItems));
    ghost var good := follows && |sent| <= IPC_MAX_SIZE && AllSmallModules(sent);
    if follows {
      ListFollows(reply, sent, ModuleItems);
      CastSize(|sent|);
    }
    var moduleSize := reply.ReadInt32();
    if moduleSize > IPC_MAX_SIZE || moduleSize < IPC_MIN_SIZE {
      return map[];
    }
    moduleMap := ReadModules(reply, moduleSize, sent, good);
  }

  /** What arrives: everything but the display version. */
  function Received(info: ModulePackageInfo): ModulePackageInfo {
    info.(displayVersion := "")
  }

  lemma AllEmplacedRebuilds(p: Package)
    requires Visits(p)
    ensures AllEmplaced(InOrder(p.info.moduleMap, p.order)) == p.info.moduleMap
  {
    hide InOrder, AllEmplaced, Distinct;
    var modules := InOrder(p.info.moduleMap, p.order);
    EmplacingRebuilds(p.info.moduleMap, p.order, |p.order|);
    assert modules[..|p.order|] == modules && p.order[..|p.order|] == p.order;
    hide Elements;
    assert AllEmplaced(modules).Keys == p.info.moduleMap.Keys;
  }

  /** Name, version, SDK version, type, API version and all modules arrive; only the display version does not. */
  lemma OnlyDisplayVersionIsLost(a: ModulePackageInfo, b: ModulePackageInfo)
    ensures Received(a) == Received(b) <==>
            && a.hmpName == b.hmpName && a.version == b.version && a.saSdkVersion == b.saSdkVersion
            && a.packageType == b.packageType && a.apiVersion == b.apiVersion && a.moduleMap == b.moduleMap
  {
  }

  /** A package that follows in the parcel: its head, and then its modules, which rebuild its map. */
  lemma PackageFollows(items: seq<Item>, at: nat, sent: Package)
    requires At(items, at, PackageItems(sent)) && Visits(sent)
    ensures var info, modules := sent.info, InOrder(sent.info.moduleMap, sent.order);
            && At(items, at, HeadItems(info))
            && At(items, at + 5, ListItems(modules, ModuleItems))
            && |PackageItems(sent)| == 5 + |ListItems(modules, ModuleItems)|
            && AllEmplaced(modules) == info.moduleMap
  {
    hide InOrder, AllEmplaced, ListItems, At, Distinct, Elements;
    var modules := InOrder(sent.info.moduleMap, sent.order);
    AtSplit(items, at, HeadItems(sent.info), ListItems(modules, ModuleItems));
    AllEmplacedRebuilds(sent);
  }

  lemma InOrderHasAll(moduleMap: map<string, ModuleInfo>, order: seq<string>)
    requires Elements(order) == moduleMap.Keys
    ensures AllSmallModules(InOrder(moduleMap, order)) <==> forall key :: key in moduleMap ==> SmallInfo(moduleMap[key])
  {
    var modules := InOrder(moduleMap, order);
    if AllSmallModules(modules) {
      forall key | key in moduleMap
        ensures SmallInfo(moduleMap[key])
      {
        assert key in Elements(order);
        var i :| 0 <= i < |order| && order[i] == key;
        assert SmallModule(modules[i]);
      }
    } else {
      var i :| 0 <= i < |modules| && !SmallModule(modules[i]);
      assert order[i] in Elements(order);
    }
  }

  lemma SmallPackageIff(p: Package)
    requires Visits(p)
    ensures SmallPackage(p) <==> SmallMap(p.info.moduleMap)
  {
    hide Distinct, Elements, InOrder, AllSmallModules, SmallInfo;
    VisitsAll(p.info.moduleMap, p.order);
    InOrderHasAll(p.info.moduleMap, p.order);
  }

  method ReadHead(reply: MessageParcel, ghost sent: ModulePackageInfo) returns (info: ModulePackageInfo)
    modifies reply`cursor
    ensures old(reply.Next(HeadItems(sent))) ==>
              reply.cursor == old(reply.cursor) + 5 && info == sent.(displayVersion := "", moduleMap := map[])
  {
    if reply.Next(HeadItems(sent)) {
      ItemsAt(reply.items, reply.cursor, HeadItems(sent));
    }
    var hmpName := reply.ReadString16();
    var version := reply.ReadString16();
    var saSdkVersion := reply.ReadString16();
    var packageType := reply.ReadString16();
    var apiVersion := reply.ReadInt32();
    info := ModulePackageInfo(hmpName, version, "", saSdkVersion, packageType, apiVersion, map[]);
  }

  method ReadModulePackageInfo(reply: MessageParcel, ghost sent: Package) returns (info: ModulePackageInfo)
    modifies reply`cursor
    ensures SmallMap(info.moduleMap)
    ensures old(reply.Next(PackageItems(sent))) && Visits(sent) ==>
              (info == Received(sent.info) <==> SmallPackage(sent))
    ensures old(reply.Next(PackageItems(sent))) && SmallPackage(sent) ==>
              reply.cursor == old(reply.cursor) + |PackageItems(sent)|
  {
    hide At, ListItems, InOrder, AllEmplaced, SmallMap, AllSmallModules, HeadItems, PackageItems, Distinct, Elements;
    ghost var modules := [];
    if reply.Next(PackageItems(sent)) && Visits(sent) {
      modules := InOrder(sent.info.moduleMap, sent.order);
      PackageFollows(reply.items, reply.cursor, sent);
      SmallPackageIff(sent);
    }
    info := ReadHead(reply, sent.info);
    var moduleMap := ReadModuleMap(reply, modules);
    info := info.(moduleMap := moduleMap);
  }

  ghost predicate AllSmallPackages(packages: seq<Package>) {
    forall i :: 0 <= i < |packages| ==> SmallPackage(packages[i])
  }

  ghost predicate AllReceived(infos: seq<ModulePackageInfo>, packages: seq<Package>) {
    |infos| == |packages| && forall i :: 0 <= i < |infos| ==> infos[i] == Received(packages[i].info)
  }

  lemma ReceivedOneMore(infos: seq<ModulePackageInfo>, packages: seq<Package>, n: nat, info: ModulePackageInfo)
    requires n < |packages| && AllReceived(infos, packages[..n]) && info == Received(packages[n].info)
    ensures AllReceived(infos + [info], packages[..n + 1])
  {
  }

  ghost predicate AllSmallMaps(infos: seq<ModulePackageInfo>) {
    forall i :: 0 <= i < |infos| ==> SmallMap(infos[i].moduleMap)
  }

  lemma NothingReceived(sent: seq<Package>)
    ensures |AllItems(sent[..0], PackageItems)| == 0 && AllReceived([], sent[..0])
  {
  }

  method ReadPackages(reply: MessageParcel, size: nat, ghost sent: seq<Package>, ghost good: bool)
    returns (infos: seq<ModulePackageInfo>)
    requires good ==> size == |sent| && reply.Next(AllItems(sent, PackageItems)) && AllSmallPackages(sent)
    modifies reply`cursor
    ensures |infos| == size && AllSmallMaps(infos)
    ensures good ==> && AllReceived(infos, sent)
                     && reply.cursor == old(reply.cursor) + |AllItems(sent, PackageItems)|
  {
    hide At, PackageItems, SmallMap, AllSmallModules, Visits, AllItems, Received, AllReceived, InOrder;
    ghost var c := reply.cursor;
    infos := [];
    NothingReceived(sent);
    for i := 0 to size
      invariant |infos| == i && AllSmallMaps(infos)
      invariant good ==> && AllReceived(infos, sent[..i])
                         && reply.cursor == c + |AllItems(sent[..i], PackageItems)|
    {
      ghost var next := if good then sent[i] else Package(ModulePackageInfo("", "", "", "", "", -1, map[]), []);
      if good {
        NextElement(reply, c, sent, PackageItems, i);
      }
      var item := ReadModulePackageInfo(reply, next);
      if good {
        ReceivedOneMore(infos, sent, i, item);
      }
      infos := infos + [item];
    }
    assert good ==> sent[..|sent|] == sent;
  }

  /** Packages all of which arrived were small. */
  lemma ReceivedAreSmall(infos: seq<ModulePackageInfo>, packages: seq<Package>)
    requires AllReceived(infos, packages) && AllSmallMaps(infos) && forall p :: p in packages ==> Visits(p)
    ensures AllSmallPackages(packages)
  {
    hide SmallMap, Visits, SmallPackage;
    forall i | 0 <= i < |packages|
      ensures SmallPackage(packages[i])
    {
      SmallPackageIff(packages[i]);
      assert infos[i].moduleMap == packages[i].info.moduleMap;
    }
  }

  method ReadModulePackageInfos(reply: MessageParcel, ghost sent: seq<Package>) returns (infos: seq<ModulePackageInfo>)
    modifies reply`cursor
    ensures old(reply.Next(ListItems(sent, PackageItems))) && (forall p :: p in sent ==> Visits(p)) ==>
              (AllReceived(infos, sent) <==> |sent| <= IPC_MAX_SIZE && AllSmallPackages(sent))
    ensures old(reply.Next(ListItems(sent, PackageItems))) && |sent| <= IPC_MAX_SIZE && AllSmallPackages(sent) ==>
              reply.cursor == old(reply.cursor) + |ListItems(sent, PackageItems)|
    ensures old(reply.Next(ListItems(sent, PackageItems))) && |sent| % TWO_TO_THE_32 > IPC_MAX_SIZE ==>
              infos == [] && reply.cursor == old(reply.cursor) + 1
  {
    hide At, PackageItems, AllSmallPackages, AllSmallMaps, AllItems, ListItems, AsInt32, Visits, Received;
    ghost var follows := reply.Next(ListItems(sent, PackageItems));
    ghost var good := follows && |sent| <= IPC_MAX_SIZE && AllSmallPackages(sent);
    if follows {
      ListFollows(reply, sent, PackageItems);
      CastSize(|sent|);
    }
    var size := reply.ReadInt32();
    if size > IPC_MAX_SIZE || size < IPC_MIN_SIZE {
      return [];
    }
    infos := ReadPackages(reply, size, sent, good);
    if AllReceived(infos, sent) && (forall p :: p in sent ==> Visits(p)) {
      ReceivedAreSmall(infos, sent);
    }
  }

  // ---------------------------------------------------------------- the whole reply

  lemma {:induction false} PackagesTakeSpace(packages: seq<Package>)
    ensures |AllItems(packages, PackageItems)| >= |packages|
  {
    if packages != [] {
      PackagesTakeSpace(packages[..|packages| - 1]);
    }
  }

  /**
   The stub writes a list and its return code. Reading it back yields the packages if and only if there are at most 128
   of them and every list and map inside them has at most 128 members; then the return code comes next and nothing is
   left over.
   */
  method PackageInfoReply(packages: seq<Package>, ret: int32)
    returns (infos: seq<ModulePackageInfo>, code: int32, left: nat)
    requires forall p :: p in packages ==> Visits(p)
    ensures AllReceived(infos, packages) <==> |packages| <= 128 && AllSmallPackages(packages)
    ensures AllReceived(infos, packages) ==> code == ret && left == 0
    ensures |packages| % TWO_TO_THE_32 > 128 ==> infos == [] && left > 0
  {
    hide PackageItems, AllSmallPackages, Visits, AllReceived;
    var parcel := new MessageParcel();
    WriteModulePackageInfos(parcel, packages);
    ghost var list := parcel.items;
    PackagesTakeSpace(packages);
    parcel.Write(I32(ret));
    assert parcel.items[..|list|] == list && parcel.items[|list|] == I32(ret);
    assert parcel.Next(ListItems(packages, PackageItems));
    infos := ReadModulePackageInfos(parcel, packages);
    code := parcel.ReadInt32();
    left := if parcel.cursor <= |parcel.items| then |parcel.items| - parcel.cursor else 0;
  }
}
