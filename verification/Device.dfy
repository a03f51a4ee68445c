/**
 A whole device: CheckModuleUpdate (services/module_update/src/module_update.cpp) boots every preinstalled HMP, in an
 order the source does not fix, until one of them reverts and restarts the device.
 */
module Device {
  import opened Common
  import opened Packages
  import opened Lifecycle

  type Volume = map<string, Hmp>

  /** One boot: the order of the HMPs, which packages mount this time, and the file operations that fail. */
  datatype Inputs = Inputs(
    order: seq<string>,
    mounts: Package -> bool,
    faults: string -> BootFaults,
    clearInstall: string -> Removal)

  datatype Outcome = Outcome(volume: Volume, rebooted: bool)

  ghost function BootTasks(w: World, pres: map<string, PreDir>, v: Volume, order: seq<string>, inputs: Inputs): Outcome
    requires v.Keys <= pres.Keys
  {
    if order == [] then Outcome(v, false)
    else if order[0] !in v then BootTasks(w, pres, v, order[1..], inputs)
    else
      var h := order[0];
      var b := BootHmp(w, h, pres[h], v[h], inputs.mounts, inputs.faults(h));
      var next := v[h := b.hmp];
      if b.rebooted then Outcome(next, true) else BootTasks(w, pres, next, order[1..], inputs)
  }

  /** A boot that nothing cuts short removes the install directories at its end. */
  ghost function CheckModuleUpdate(w: World, pres: map<string, PreDir>, v: Volume, inputs: Inputs): Outcome
    requires v.Keys <= pres.Keys
  {
    var o := BootTasks(w, pres, v, inputs.order, inputs);
    if o.rebooted then o
    else
      Outcome(
        map h | h in o.volume :: o.volume[h].(install := RemoveDir(o.volume[h].install, inputs.clearInstall(h))),
        false)
  }

  // ---------------------------------------------------------------- reboots terminate

  ghost function WithActive(v: Volume): set<string> {
    set h | h in v && v[h].active.Some?
  }

  ghost function WithBackup(v: Volume): set<string> {
    set h | h in v && v[h].backup.Some?
  }

  ghost function Total(v: Volume): nat {
    |WithActive(v)| + |WithBackup(v)|
  }

  lemma SubsetIsNotLarger<T>(a: set<T>, b: set<T>)
    requires a <= b
    ensures |a| <= |b|
    ensures a != b ==> |a| < |b|
  {
    assert b == a + (b - a);
    if a != b {
      assert b - a != {};
    }
  }

  lemma SmallerDirectories(v: Volume, h: string, s: Hmp)
    requires h in v
    requires (s.active.Some? ==> v[h].active.Some?) && (s.backup.Some? ==> v[h].backup.Some?)
    ensures Total(v[h := s]) <= Total(v)
    ensures Directories(s) < Directories(v[h]) ==> Total(v[h := s]) < Total(v)
  {
    var u := v[h := s];
    SubsetIsNotLarger(WithActive(u), WithActive(v));
    SubsetIsNotLarger(WithBackup(u), WithBackup(v));
    if Directories(s) < Directories(v[h]) {
      assert (h in WithActive(v) && h !in WithActive(u)) || (h in WithBackup(v) && h !in WithBackup(u));
    }
  }

  lemma {:induction false} BootTasksLower(
    w: World, pres: map<string, PreDir>, v: Volume, order: seq<string>, inputs: Inputs)
    requires v.Keys <= pres.Keys
    ensures var o := BootTasks(w, pres, v, order, inputs);
            && o.volume.Keys == v.Keys
            && Total(o.volume) + (if o.rebooted then 1 else 0) <= Total(v)
    decreases |order|
  {
    if order != [] && order[0] in v {
      var h := order[0];
      var b := BootHmp(w, h, pres[h], v[h], inputs.mounts, inputs.faults(h));
      BootLowersDirectories(w, h, pres[h], v[h], inputs.mounts, inputs.faults(h));
      SmallerDirectories(v, h, b.hmp);
      if !b.rebooted {
        BootTasksLower(w, pres, v[h := b.hmp], order[1..], inputs);
      }
    } else if order != [] {
      BootTasksLower(w, pres, v, order[1..], inputs);
    }
  }

  lemma BootLowersTotal(w: World, pres: map<string, PreDir>, v: Volume, inputs: Inputs)
    requires v.Keys <= pres.Keys
    ensures var o := CheckModuleUpdate(w, pres, v, inputs);
            && o.volume.Keys == v.Keys
            && Total(o.volume) + (if o.rebooted then 1 else 0) <= Total(v)
  {
    BootTasksLower(w, pres, v, inputs.order, inputs);
    var o := BootTasks(w, pres, v, inputs.order, inputs);
    var end := CheckModuleUpdate(w, pres, v, inputs).volume;
    assert WithActive(end) == WithActive(o.volume) && WithBackup(end) == WithBackup(o.volume);
  }

  ghost function Boots(w: World, pres: map<string, PreDir>, v: Volume, boots: seq<Inputs>): (r: (Volume, nat))
    requires v.Keys <= pres.Keys
    decreases |boots|
  {
    if boots == [] then (v, 0)
    else
      BootLowersTotal(w, pres, v, boots[0]);
      var o := CheckModuleUpdate(w, pres, v, boots[0]);
      var rest := Boots(w, pres, o.volume, boots[1..]);
      (rest.0, rest.1 + if o.rebooted then 1 else 0)
  }

  /** However many boots, whatever mounts and whichever file operations fail, n HMPs restart at most 2n times. */
  lemma {:induction false} RevertRebootsAreBounded(w: World, pres: map<string, PreDir>, v: Volume, boots: seq<Inputs>)
    requires v.Keys <= pres.Keys
    ensures Boots(w, pres, v, boots).1 + Total(Boots(w, pres, v, boots).0) <= Total(v) <= 2 * |v|
    decreases |boots|
  {
    SubsetIsNotLarger(WithActive(v), v.Keys);
    SubsetIsNotLarger(WithBackup(v), v.Keys);
    if boots != [] {
      BootLowersTotal(w, pres, v, boots[0]);
      RevertRebootsAreBounded(w, pres, CheckModuleUpdate(w, pres, v, boots[0]).volume, boots[1..]);
    }
  }

  // ---------------------------------------------------------------- each HMP sees one operation

  ghost predicate IsPlain(w: World, inputs: Inputs) {
    && inputs.mounts == w.mounts
    && (forall h :: inputs.faults(h) == NO_FAULTS && inputs.clearInstall(h).Removed?)
  }

  /** What one boot does to one HMP: nothing yet, a boot that ran to its end, or a boot that itself restarted. */
  lemma {:induction false} BootTasksOnOne(
    w: World, pres: map<string, PreDir>, v: Volume, order: seq<string>, inputs: Inputs, h: string)
    requires v.Keys <= pres.Keys && h in v && Distinct(order) && IsPlain(w, inputs)
    ensures var o := BootTasks(w, pres, v, order, inputs);
            var b := BootHmp(w, h, pres[h], v[h], w.mounts, NO_FAULTS);
            && h in o.volume
            && (h !in order ==> o.volume[h] == v[h])
            && (o.volume[h] == v[h] || o.volume[h] == b.hmp)
            && (!o.rebooted && h in order ==> o.volume[h] == b.hmp && !b.rebooted)
    decreases |order|
  {
    if order != [] {
      var g := order[0];
      assert Distinct(order[1..]);
      assert h in order <==> h == g || h in order[1..];
      if g == h {
        assert h !in order[1..];
      }
      if g !in v {
        BootTasksOnOne(w, pres, v, order[1..], inputs, h);
      } else {
        var b := BootHmp(w, g, pres[g], v[g], inputs.mounts, inputs.faults(g));
        if !b.rebooted {
          BootTasksOnOne(w, pres, v[g := b.hmp], order[1..], inputs, h);
        }
      }
    }
  }

  /** So a boot of the device is, for each of its HMPs, one operation of that HMP's own run. */
  lemma BootIsOneStepPerHmp(w: World, pres: map<string, PreDir>, v: Volume, inputs: Inputs, h: string)
    requires v.Keys <= pres.Keys && h in v && h in inputs.order && Distinct(inputs.order) && IsPlain(w, inputs)
    ensures var o := CheckModuleUpdate(w, pres, v, inputs);
            && h in o.volume
            && exists op :: (op in {Op.Boot, BootCutShort(true), BootCutShort(false)})
                            && Step(w, h, pres[h], State(Booting, v[h]), op) ==
                               State(if o.rebooted then Booting else Running, o.volume[h])
  {
    var o := CheckModuleUpdate(w, pres, v, inputs);
    BootTasksOnOne(w, pres, v, inputs.order, inputs, h);
    var start := State(Booting, v[h]);
    var op := if !o.rebooted then Op.Boot else if o.volume[h] == v[h] then BootCutShort(false) else BootCutShort(true);
    assert Step(w, h, pres[h], start, op) == State(if o.rebooted then Booting else Running, o.volume[h]);
  }
}
