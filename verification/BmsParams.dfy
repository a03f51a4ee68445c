/**
 Parameters for the bundle manager after a revert: NotifyBmsRevert of services/module_update/util/src/module_utils.cpp
 sets them at once, or records them in a file that SetParameterFromFile of services/module_update/src/module_update.cpp
 replays at the next boot.
 */
module BmsParams {
  import opened Common

  const BMS_START_INSTALL := "persist.moduleupdate.bms.scan"
  const BMS_RESULT_PREFIX := "persist.moduleupdate.bms.install"
  const NOTIFY_BMS_REVERT := "revert_bms"
  const BMS_INSTALL_FAIL := "false"

  type Params = map<string, string>

  /** One call of SetParameter. */
  datatype Setting = Setting(name: string, value: string)

  /** A module of the preinstalled package, in the order its map is visited. */
  datatype Module = Module(name: string, hasBundles: bool)

  const START_SETTING := Setting(BMS_START_INSTALL, NOTIFY_BMS_REVERT)

  function FailSetting(name: string): Setting {
    Setting(BMS_RESULT_PREFIX + "." + name, BMS_INSTALL_FAIL)
  }

  function ModuleSettings(modules: seq<Module>): seq<Setting> {
    if modules == [] then []
    else
      ModuleSettings(modules[..|modules| - 1])
      + (if modules[|modules| - 1].hasBundles then [FailSetting(modules[|modules| - 1].name)] else [])
  }

  function Settings(modules: seq<Module>): seq<Setting> {
    [START_SETTING] + ModuleSettings(modules)
  }

  /** Settings in order; `accepts` says which ones the parameter service takes. */
  function Apply(params: Params, settings: seq<Setting>, accepts: Setting -> bool): Params {
    if settings == [] then params
    else
      var s := settings[|settings| - 1];
      var before := Apply(params, settings[..|settings| - 1], accepts);
      if accepts(s) then before[s.name := s.value] else before
  }

  /** How many of the settings the parameter service refuses. */
  function Refused(settings: seq<Setting>, accepts: Setting -> bool): nat {
    if settings == [] then 0
    else Refused(settings[..|settings| - 1], accepts) + (if accepts(settings[|settings| - 1]) then 0 else 1)
  }

  // ---------------------------------------------------------------- text

  function Line(s: Setting): string {
    s.name + "=" + s.value + "\n"
  }

  function Text(settings: seq<Setting>): string {
    if settings == [] then "" else Line(settings[0]) + Text(settings[1..])
  }

  function IndexOf(s: string, c: char): (r: Option<nat>)
    ensures r.Some? <==> c in s
    ensures r.Some? ==> r.value < |s| && s[r.value] == c && c !in s[..r.value]
  {
    if s == "" then None
    else if s[0] == c then Some(0)
    else
      var r := IndexOf(s[1..], c);
      assert r.Some? ==> s[..r.value + 1] == [s[0]] + s[1..][..r.value];
      assert s == [s[0]] + s[1..];
      if r.Some? then Some(r.value + 1) else None
  }

  /** std::getline: the characters up to the first newline, which is dropped. */
  function FirstLine(text: string): string {
    var end := IndexOf(text, '\n');
    if end.Some? then text[..end.value] else text
  }

  function AfterFirstLine(text: string): (rest: string)
    ensures text != "" ==> |rest| < |text|
  {
    var end := IndexOf(text, '\n');
    if end.Some? then text[end.value + 1..] else ""
  }

  /** A line without '=' is skipped; otherwise it is split at the first one. */
  function ParseLine(line: string): seq<Setting> {
    var pos := IndexOf(line, '=');
    if pos.None? then [] else [Setting(line[..pos.value], line[pos.value + 1..])]
  }

  function Parse(text: string): seq<Setting>
    decreases |text|
  {
    if text == "" then [] else ParseLine(FirstLine(text)) + Parse(AfterFirstLine(text))
  }

  lemma Regroup<T>(a: seq<T>, b: seq<T>, c: seq<T>)
    ensures (a + b) + c == a + (b + c)
  {
  }

  predicate Clean(name: string) {
    '=' !in name && '\n' !in name
  }

  lemma {:induction false} IndexInMiddle(before: string, c: char, after: string)
    requires c !in before
    ensures IndexOf(before + [c] + after, c) == Some(|before|)
  {
    var s := before + [c] + after;
    if before != "" {
      IndexInMiddle(before[1..], c, after);
      assert s[0] == before[0] && s[1..] == before[1..] + [c] + after;
    }
  }

  lemma ParseOneLine(s: Setting, rest: string)
    requires Clean(s.name) && '\n' !in s.value
    ensures Parse(Line(s) + rest) == [s] + Parse(rest)
  {
    var body := s.name + "=" + s.value;
    var text := Line(s) + rest;
    assert text == body + ['\n'] + rest;
    IndexInMiddle(body, '\n', rest);
    assert FirstLine(text) == body && AfterFirstLine(text) == rest;
    IndexInMiddle(s.name, '=', s.value);
    assert body[..|s.name|] == s.name && body[|s.name| + 1..] == s.value;
  }

  /** A line without '=' sets nothing. */
  lemma OtherLinesAreSkipped(line: string, rest: string)
    requires '=' !in line && '\n' !in line
    ensures Parse(line + ['\n'] + rest) == Parse(rest)
  {
    IndexInMiddle(line, '\n', rest);
    var text := line + ['\n'] + rest;
    assert FirstLine(text) == line && AfterFirstLine(text) == rest;
  }

  /** Clean settings survive printing and parsing, also in front of more text. */
  lemma {:induction false} ParseInvertsText(settings: seq<Setting>, rest: string)
    requires forall s :: s in settings ==> Clean(s.name) && '\n' !in s.value
    ensures Parse(Text(settings) + rest) == settings + Parse(rest)
  {
    if settings == [] {
      assert Text(settings) + rest == rest;
    } else {
      var s, more := settings[0], settings[1..];
      ParseInvertsText(more, rest);
      ParseOneLine(s, Text(more) + rest);
      Regroup(Line(s), Text(more), rest);
      Regroup([s], more, Parse(rest));
      assert settings == [s] + more;
      hide Parse, Line;
    }
  }

  /** Whatever the text, no parsed name contains '=' or a newline. */
  lemma {:induction false} ParsedNamesAreClean(text: string)
    ensures forall s :: s in Parse(text) ==> Clean(s.name)
    decreases |text|
  {
    if text != "" {
      ParsedNamesAreClean(AfterFirstLine(text));
      assert '\n' !in FirstLine(text);
    }
  }

  lemma {:induction false} SettingsOfModules(modules: seq<Module>, s: Setting)
    ensures s in ModuleSettings(modules) <==> exists m :: m in modules && m.hasBundles && s == FailSetting(m.name)
  {
    if modules != [] {
      var front, last := modules[..|modules| - 1], modules[|modules| - 1];
      SettingsOfModules(front, s);
      assert forall m :: m in modules <==> m in front || m == last;
    }
  }

  lemma CleanConcat(a: string, b: string)
    ensures Clean(a + b) <==> Clean(a) && Clean(b)
  {
    assert forall c :: c in a + b <==> c in a || c in b;
  }

  lemma ConstantsAreClean()
    ensures Clean(BMS_START_INSTALL) && Clean(BMS_RESULT_PREFIX + ".")
    ensures '\n' !in NOTIFY_BMS_REVERT && '\n' !in BMS_INSTALL_FAIL
  {
  }

  lemma CleanSetting(name: string)
    ensures Clean(FailSetting(name).name) <==> Clean(name)
    ensures '\n' !in FailSetting(name).value && Clean(START_SETTING.name) && '\n' !in START_SETTING.value
  {
    ConstantsAreClean();
    CleanConcat(BMS_RESULT_PREFIX + ".", name);
  }

  /** The recorded file replays the very settings that were meant, if and only if all names with bundles are clean. */
  lemma RecordIsFaithfulIffClean(modules: seq<Module>)
    ensures Parse(Text(Settings(modules))) == Settings(modules)
            <==> forall m :: m in modules && m.hasBundles ==> Clean(m.name)
  {
    var settings := Settings(modules);
    CleanSetting("");
    if forall m :: m in modules && m.hasBundles ==> Clean(m.name) {
      forall s | s in settings
        ensures Clean(s.name) && '\n' !in s.value
      {
        SettingsOfModules(modules, s);
        if s != START_SETTING {
          var m :| m in modules && m.hasBundles && s == FailSetting(m.name);
          CleanSetting(m.name);
        }
      }
      ParseInvertsText(settings, "");
      assert Text(settings) + "" == Text(settings) && settings + [] == settings;
    } else {
      var m :| m in modules && m.hasBundles && !Clean(m.name);
      CleanSetting(m.name);
      SettingsOfModules(modules, FailSetting(m.name));
      assert FailSetting(m.name) in settings;
      ParsedNamesAreClean(Text(settings));
    }
  }

  // ---------------------------------------------------------------- direct and deferred

  lemma {:induction false} ApplyConcat(params: Params, a: seq<Setting>, b: seq<Setting>, accepts: Setting -> bool)
    ensures Apply(params, a + b, accepts) == Apply(Apply(params, a, accepts), b, accepts)
  {
    if b == [] {
      assert a + b == a;
    } else {
      ApplyConcat(params, a, b[..|b| - 1], accepts);
      assert (a + b)[..|a + b| - 1] == a + b[..|b| - 1];
    }
  }

  /** Replaying a text is replaying its first line and then the rest. */
  lemma ReplayStep(params: Params, text: string, accepts: Setting -> bool)
    requires text != ""
    ensures var settings, rest := ParseLine(FirstLine(text)), Parse(AfterFirstLine(text));
            Apply(params, Parse(text), accepts) ==
            if settings == [] then Apply(params, rest, accepts)
            else Apply(Apply(params, [settings[0]], accepts), rest, accepts)
  {
    hide FirstLine, AfterFirstLine, Apply;
    var settings, rest := ParseLine(FirstLine(text)), Parse(AfterFirstLine(text));
    if settings == [] {
      assert settings + rest == rest;
    } else {
      assert settings == [settings[0]];
      ApplyConcat(params, settings, rest, accepts);
    }
  }

  lemma ReplayEnd(params: Params, accepts: Setting -> bool)
    ensures Apply(params, Parse(""), accepts) == params
  {
  }

  /** Whether one of the modules with bundles has this name. */
  ghost predicate Fails(modules: seq<Module>, name: string) {
    exists i :: 0 <= i < |modules| && modules[i].hasBundles && modules[i].name == name
  }

  /** What the failure of a module is called. */
  lemma FailSettingIs(name: string)
    ensures FailSetting(name) == Setting("persist.moduleupdate.bms.install." + name, "false")
    ensures FailSetting(name).name != "persist.moduleupdate.bms.scan"
  {
    assert BMS_RESULT_PREFIX + "." == "persist.moduleupdate.bms.install.";
    assert FailSetting(name).name[25] == 'i' && BMS_START_INSTALL[25] == 's';
  }

  lemma FailNamesDiffer(a: string, b: string)
    ensures FailSetting(a).name == FailSetting(b).name <==> a == b
  {
    var p := BMS_RESULT_PREFIX + ".";
    assert (p + a)[|p|..] == a && (p + b)[|p|..] == b;
  }

  /** The parameters afterwards: "false" for each module with bundles, if the service took it; others as before. */
  lemma {:induction false} ModuleSettingsSet(
    params: Params, modules: seq<Module>, accepts: Setting -> bool, name: string)
    ensures var after := Apply(params, ModuleSettings(modules), accepts);
            var key := "persist.moduleupdate.bms.install." + name;
            if Fails(modules, name) && accepts(Setting(key, "false")) then key in after && after[key] == "false"
            else (key in after <==> key in params) && (key in params ==> after[key] == params[key])
  {
    FailSettingIs(name);
    if modules != [] {
      var front, last := modules[..|modules| - 1], modules[|modules| - 1];
      ModuleSettingsSet(params, front, accepts, name);
      FailNamesDiffer(last.name, name);
      assert Fails(modules, name) <==> Fails(front, name) || (last.hasBundles && last.name == name);
      assert ModuleSettings(modules)
          == ModuleSettings(front) + if last.hasBundles then [FailSetting(last.name)] else [];
      ApplyConcat(params, ModuleSettings(front), if last.hasBundles then [FailSetting(last.name)] else [], accepts);
      hide FailSetting, ModuleSettings, Fails;
    }
  }

  /** Any other parameter is as before. */
  lemma {:induction false} OthersUnchanged(params: Params, modules: seq<Module>, accepts: Setting -> bool, key: string)
    requires forall name :: key != "persist.moduleupdate.bms.install." + name
    ensures var after := Apply(params, ModuleSettings(modules), accepts);
            (key in after <==> key in params) && (key in params ==> after[key] == params[key])
  {
    if modules != [] {
      var front, last := modules[..|modules| - 1], modules[|modules| - 1];
      OthersUnchanged(params, front, accepts, key);
      FailSettingIs(last.name);
      ApplyConcat(params, ModuleSettings(front), if last.hasBundles then [FailSetting(last.name)] else [], accepts);
      hide FailSetting;
    }
  }

  /** A parameter with this name is set to the value if the service takes that, and is as before otherwise. */
  ghost predicate SetIfAccepted(params: Params, after: Params, s: Setting, accepts: Setting -> bool) {
    if accepts(s) then s.name in after && after[s.name] == s.value else Unchanged(params, after, s.name)
  }

  ghost predicate Unchanged(params: Params, after: Params, key: string) {
    (key in after <==> key in params) && (key in params ==> after[key] == params[key])
  }

  lemma OneSetting(params: Params, s: Setting, accepts: Setting -> bool)
    ensures Apply(params, [s], accepts) == if accepts(s) then params[s.name := s.value] else params
  {
    assert [s][..0] == [];
    assert Apply(params, [], accepts) == params;
  }

  /**
   The parameters after a direct notification: the scan parameter reads "revert_bms", the result of each module with
   bundles reads "false", as far as the service takes that, and every other parameter is as it was.
   */
  lemma NotifySets(params: Params, modules: seq<Module>, accepts: Setting -> bool, name: string, key: string)
    ensures var after := Apply(params, Settings(modules), accepts);
            var scan, result := "persist.moduleupdate.bms.scan", "persist.moduleupdate.bms.install." + name;
            && SetIfAccepted(params, after, Setting(scan, "revert_bms"), accepts)
            && (if Fails(modules, name) then SetIfAccepted(params, after, Setting(result, "false"), accepts)
                else Unchanged(params, after, result))
            && (key != scan && (forall n :: key != "persist.moduleupdate.bms.install." + n) ==>
                  Unchanged(params, after, key))
  {
    var scan := "persist.moduleupdate.bms.scan";
    var start := Apply(params, [START_SETTING], accepts);
    OneSetting(params, START_SETTING, accepts);
    ApplyConcat(params, [START_SETTING], ModuleSettings(modules), accepts);
    FailSettingIs(name);
    ModuleSettingsSet(start, modules, accepts, name);
    forall n
      ensures scan != "persist.moduleupdate.bms.install." + n
    {
      FailSettingIs(n);
    }
    OthersUnchanged(start, modules, accepts, scan);
    if forall n :: key != "persist.moduleupdate.bms.install." + n {
      OthersUnchanged(start, modules, accepts, key);
    }
    hide Apply, ModuleSettings, FailSetting, Fails;
  }

  class ParameterSystem {
    var params: Params
    var paramsFile: Option<string>
    const accepts: Setting -> bool

    constructor (params: Params, accepts: Setting -> bool)
      ensures this.params == params && this.accepts == accepts && paramsFile == None
    {
      this.params, this.accepts, paramsFile := params, accepts, None;
    }

    method SetParameter(s: Setting) returns (ok: bool)
      modifies this`params
      ensures params == Apply(old(params), [s], accepts) && ok == accepts(s)
    {
      ok := accepts(s);
      if ok {
        params := params[s.name := s.value];
      }
    }

    /**
     Set the failures now, or record them at the end of the file; the start setting is made in every case, also when the
     preinstalled package does not open. The result counts the refused failures.
     */
    method NotifyBmsRevert(package: Option<seq<Module>>, record: bool) returns (result: int)
      modifies this
      ensures params ==
              Apply(old(params), if record || package.None? then [START_SETTING] else Settings(package.value), accepts)
      ensures paramsFile ==
              if record && package.Some?
              then Some((if old(paramsFile).Some? then old(paramsFile).value else "") + Text(Settings(package.value)))
              else old(paramsFile)
      ensures result == if package.None? then -1
                        else if record then 0
                        else Refused(ModuleSettings(package.value), accepts)
    {
      hide Line, FailSetting, Apply, Refused, ModuleSettings, Text, Settings;
      ghost var start := params;
      var _ := SetParameter(START_SETTING);
      if package.None? {
        return -1;
      }
      var modules := package.value;
      result := 0;
      var text := Line(START_SETTING);
      TextOfOne(START_SETTING);
      NoModules(modules, accepts);
      for n := 0 to |modules|
        invariant params == Apply(start, if record then [START_SETTING] else Settings(modules[..n]), accepts)
        invariant text == Text(Settings(modules[..n]))
        invariant paramsFile == old(paramsFile)
        invariant result == if record then 0 else Refused(ModuleSettings(modules[..n]), accepts)
      {
        SettingsOfPrefix(modules, n);
        if !modules[n].hasBundles {
          continue;
        }
        var s := FailSetting(modules[n].name);
        ApplyConcat(start, Settings(modules[..n]), [s], accepts);
        TextConcat(Settings(modules[..n]), [s]);
        TextOfOne(s);
        if !record {
          var ok := SetParameter(s);
          OneMoreRefused(ModuleSettings(modules[..n]), s, accepts);
          if !ok {
            result := result + 1;
          }
        }
        text := text + Line(s);
      }
      assert modules[..|modules|] == modules;
      if record {
        paramsFile := Some((if paramsFile.Some? then paramsFile.value else "") + text);
      }
    }

    /** Replay the file line by line and remove it. */
    method SetParameterFromFile()
      modifies this
      ensures paramsFile == None
      ensures params == if old(paramsFile).None? then old(params)
                        else Apply(old(params), Parse(old(paramsFile).value), accepts)
    {
      if paramsFile.None? {
        return;
      }
      hide Parse, FirstLine, AfterFirstLine, ParseLine, Apply;
      var rest := paramsFile.value;
      ghost var meant := Apply(params, Parse(rest), accepts);
      while rest != ""
        invariant Apply(params, Parse(rest), accepts) == meant
        decreases |rest|
      {
        ReplayStep(params, rest, accepts);
        var settings := ParseLine(FirstLine(rest));
        if settings != [] {
          var _ := SetParameter(settings[0]);
        }
        rest := AfterFirstLine(rest);
      }
      ReplayEnd(params, accepts);
      paramsFile := None;
    }
  }

  lemma NoModules(modules: seq<Module>, accepts: Setting -> bool)
    ensures Settings(modules[..0]) == [START_SETTING] && ModuleSettings(modules[..0]) == []
    ensures Refused([], accepts) == 0
  {
  }

  lemma SettingsOfPrefix(modules: seq<Module>, n: nat)
    requires n < |modules|
    ensures Settings(modules[..n + 1]) ==
            if modules[n].hasBundles then Settings(modules[..n]) + [FailSetting(modules[n].name)]
            else Settings(modules[..n])
    ensures ModuleSettings(modules[..n + 1]) ==
            if modules[n].hasBundles then ModuleSettings(modules[..n]) + [FailSetting(modules[n].name)]
            else ModuleSettings(modules[..n])
  {
    assert modules[..n + 1][..n] == modules[..n];
  }

  lemma OneMoreRefused(settings: seq<Setting>, s: Setting, accepts: Setting -> bool)
    ensures Refused(settings + [s], accepts) == Refused(settings, accepts) + (if accepts(s) then 0 else 1)
  {
    assert (settings + [s])[..|settings|] == settings;
  }

  lemma {:induction false} TextConcat(a: seq<Setting>, b: seq<Setting>)
    ensures Text(a + b) == Text(a) + Text(b)
  {
    hide Line;
    if a == [] {
      assert a + b == b;
    } else {
      TextConcat(a[1..], b);
      assert (a + b)[1..] == a[1..] + b && (a + b)[0] == a[0];
      Regroup(Line(a[0]), Text(a[1..]), Text(b));
    }
  }

  lemma TextOfOne(s: Setting)
    ensures Text([s]) == Line(s)
  {
    hide Line;
    assert [s][1..] == [];
    assert Line(s) + "" == Line(s);
  }

  /** The settings of several HMPs, one after another. */
  function AllSettings(hmps: seq<seq<Module>>): seq<Setting> {
    if hmps == [] then [] else AllSettings(hmps[..|hmps| - 1]) + Settings(hmps[|hmps| - 1])
  }

  ghost predicate AllClean(hmps: seq<seq<Module>>) {
    forall i, m :: 0 <= i < |hmps| && m in hmps[i] && m.hasBundles ==> Clean(m.name)
  }

  lemma {:induction false} AllRecordsReplay(hmps: seq<seq<Module>>)
    requires AllClean(hmps)
    ensures Parse(Text(AllSettings(hmps))) == AllSettings(hmps)
    ensures forall s :: s in AllSettings(hmps) ==> Clean(s.name) && '\n' !in s.value
  {
    var all := AllSettings(hmps);
    if hmps != [] {
      AllRecordsReplay(hmps[..|hmps| - 1]);
      var last := hmps[|hmps| - 1];
      forall s | s in Settings(last)
        ensures Clean(s.name) && '\n' !in s.value
      {
        SettingsOfModules(last, s);
        CleanSetting("");
        if s != START_SETTING {
          var m :| m in last && m.hasBundles && s == FailSetting(m.name);
          CleanSetting(m.name);
        }
      }
    }
    ParseInvertsText(all, "");
    assert Text(all) + "" == Text(all) && all + [] == all;
  }

  /** The start setting, made `n` times. */
  ghost function Starts(n: nat): seq<Setting> {
    seq(n, _ => START_SETTING)
  }

  lemma OneMoreStart(params: Params, n: nat, accepts: Setting -> bool)
    ensures Apply(params, Starts(n + 1), accepts) == Apply(Apply(params, Starts(n), accepts), [START_SETTING], accepts)
  {
    ApplyConcat(params, Starts(n), [START_SETTING], accepts);
    assert Starts(n + 1) == Starts(n) + [START_SETTING];
  }

  lemma SettingTwice(params: Params, s: Setting, accepts: Setting -> bool)
    ensures Apply(Apply(params, [s], accepts), [s], accepts) == Apply(params, [s], accepts)
  {
  }

  /** Making the start setting first changes nothing when the settings begin with it. */
  lemma {:induction false} StartsAreAbsorbed(params: Params, n: nat, hmps: seq<seq<Module>>, accepts: Setting -> bool)
    requires hmps != []
    ensures Apply(Apply(params, Starts(n), accepts), AllSettings(hmps), accepts) ==
            Apply(params, AllSettings(hmps), accepts)
  {
    if n == 0 {
      assert Apply(params, Starts(0), accepts) == params;
    } else {
      hide Apply, Starts, AllSettings;
      StartsAreAbsorbed(params, n - 1, hmps, accepts);
      AllSettingsStart(hmps);
      var all := AllSettings(hmps);
      assert all == [START_SETTING] + all[1..];
      var before := Apply(params, Starts(n - 1), accepts);
      OneMoreStart(params, n - 1, accepts);
      SettingTwice(before, START_SETTING, accepts);
      ApplyConcat(Apply(params, Starts(n), accepts), [START_SETTING], all[1..], accepts);
      ApplyConcat(before, [START_SETTING], all[1..], accepts);
    }
  }

  lemma {:induction false} AllSettingsStart(hmps: seq<seq<Module>>)
    requires hmps != []
    ensures |AllSettings(hmps)| > 0 && AllSettings(hmps)[0] == START_SETTING
  {
    if |hmps| > 1 {
      AllSettingsStart(hmps[..|hmps| - 1]);
    }
  }

  /**
   Several HMPs revert, each recording to the same file, and the file is replayed: the parameters end as if each had set
   them directly, whichever settings the service refuses.
   */
  method DeferredEqualsDirect(deferred: ParameterSystem, direct: ParameterSystem, hmps: seq<seq<Module>>)
    requires AllClean(hmps)
    requires deferred != direct && deferred.params == direct.params && deferred.accepts == direct.accepts
    requires deferred.paramsFile.None?
    modifies deferred, direct
    ensures deferred.params == direct.params == Apply(old(direct.params), AllSettings(hmps), direct.accepts)
    ensures deferred.paramsFile.None?
  {
    hide Text, Parse, Apply, AllSettings, Starts, Settings, AllClean;
    ghost var params, accepts := direct.params, direct.accepts;
    NothingApplied(params, hmps, accepts);
    for i := 0 to |hmps|
      invariant direct.params == Apply(params, AllSettings(hmps[..i]), accepts)
      invariant deferred.params == Apply(params, Starts(i), accepts)
      invariant if i == 0 then deferred.paramsFile.None? else deferred.paramsFile == Some(Text(AllSettings(hmps[..i])))
    {
      OneMoreHmp(params, hmps, i, accepts);
      OneMoreStart(params, i, accepts);
      var _ := direct.NotifyBmsRevert(Some(hmps[i]), false);
      var _ := deferred.NotifyBmsRevert(Some(hmps[i]), true);
    }
    assert hmps[..|hmps|] == hmps;
    if hmps != [] {
      AllRecordsReplay(hmps);
      StartsAreAbsorbed(params, |hmps|, hmps, accepts);
    }
    deferred.SetParameterFromFile();
  }

  lemma NothingApplied(params: Params, hmps: seq<seq<Module>>, accepts: Setting -> bool)
    ensures Apply(params, AllSettings(hmps[..0]), accepts) == params == Apply(params, Starts(0), accepts)
    ensures Text(AllSettings(hmps[..0])) == ""
  {
  }

  lemma OneMoreHmp(params: Params, hmps: seq<seq<Module>>, n: nat, accepts: Setting -> bool)
    requires n < |hmps|
    ensures Apply(params, AllSettings(hmps[..n + 1]), accepts) ==
            Apply(Apply(params, AllSettings(hmps[..n]), accepts), Settings(hmps[n]), accepts)
    ensures Text(AllSettings(hmps[..n + 1])) == Text(AllSettings(hmps[..n])) + Text(Settings(hmps[n]))
  {
    hide Text, Apply, Settings;
    assert hmps[..n + 1][..n] == hmps[..n];
    ApplyConcat(params, AllSettings(hmps[..n]), Settings(hmps[n]), accepts);
    TextConcat(AllSettings(hmps[..n]), Settings(hmps[n]));
  }
}
