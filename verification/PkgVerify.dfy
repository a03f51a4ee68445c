/** The verification action: frameworks/actions/verify_action/src/pkg_verify.cpp. */
module PkgVerify {
  import opened Common
  import opened StatusManagers

  const PKG_VERIFY_PERCENT := 4

  /** SetUpdatePercent for each value in turn. */
  ghost function Shown(p: Progress, values: seq<int>): Progress {
    if values == [] then p
    else
      var before := Shown(p, values[..|values| - 1]);
      Updated(before, before.status, values[|values| - 1], "")
  }

  ghost function NonEmpty(paths: seq<string>): seq<string> {
    if paths == [] then []
    else NonEmpty(paths[..|paths| - 1]) + (if paths[|paths| - 1] != "" then [paths[|paths| - 1]] else [])
  }

  /** A package is good when its path resolves and its signature verifies. */
  ghost predicate Good(realPath: string -> Option<string>, verify: string -> int, path: string) {
    realPath(path).Some? && verify(realPath(path).value) == 0
  }

  function VerifyOne(realPath: string -> Option<string>, verify: string -> int, path: string): (ret: int)
    ensures ret == 0 <==> Good(realPath, verify, path)
  {
    match realPath(path)
    case None => -1
    case Some(resolved) => verify(resolved)
  }

  ghost predicate InSteps(values: seq<int>, low: int, high: int) {
    && (forall i :: 0 <= i < |values| ==> low <= values[i] <= high)
    && (forall i, j :: 0 <= i < j < |values| ==> values[i] <= values[j])
  }

  /** The share of the verification percent reached after some packages, rounded down. */
  function Percent(count: nat, pkgNum: nat): int
    requires pkgNum > 0
  {
    PKG_VERIFY_PERCENT * count / pkgNum
  }

  lemma PercentGrows(count: nat, pkgNum: nat)
    requires count < pkgNum
    ensures 0 <= Percent(count, pkgNum) <= Percent(count + 1, pkgNum) <= PKG_VERIFY_PERCENT
  {
    QuotientBounds(PKG_VERIFY_PERCENT * count, pkgNum);
    QuotientBounds(PKG_VERIFY_PERCENT * (count + 1), pkgNum);
    MultiplesGrow(pkgNum, Percent(count, pkgNum), Percent(count + 1, pkgNum) + 1);
    MultiplesGrow(pkgNum, Percent(count + 1, pkgNum), PKG_VERIFY_PERCENT + 1);
  }

  lemma PercentOfNone(pkgNum: nat)
    requires pkgNum > 0
    ensures Percent(0, pkgNum) == 0
  {
  }

  lemma QuotientBounds(a: nat, n: nat)
    requires n > 0
    ensures 0 <= a / n && n * (a / n) <= a < n * (a / n + 1)
  {
    assert a == n * (a / n) + a % n;
  }

  lemma MultiplesGrow(n: nat, x: int, y: int)
    requires n > 0
    ensures x >= y ==> n * x >= n * y
  {
  }

  /** The share is 4 * count / pkgNum, rounded down. */
  lemma PercentIsShare(count: nat, pkgNum: nat)
    requires pkgNum > 0
    ensures pkgNum * Percent(count, pkgNum) <= 4 * count < pkgNum * (Percent(count, pkgNum) + 1)
  {
    QuotientBounds(PKG_VERIFY_PERCENT * count, pkgNum);
  }

  /** Every path but the empty ones, each as often as it is given. */
  lemma {:induction false} NonEmptyCounts(paths: seq<string>, path: string)
    ensures multiset(NonEmpty(paths))[path] == if path == "" then 0 else multiset(paths)[path]
  {
    if paths != [] {
      var front, last := paths[..|paths| - 1], paths[|paths| - 1];
      assert NonEmpty(paths) == NonEmpty(front) + if last != "" then [last] else [];
      hide NonEmpty;
      NonEmptyCounts(front, path);
      assert paths == front + [last];
      AppendCounts(front, last, path);
      if last != "" {
        AppendCounts(NonEmpty(front), last, path);
      } else {
        assert NonEmpty(front) + [] == NonEmpty(front);
      }
    }
  }

  lemma GoodPaths(paths: seq<string>, realPath: string -> Option<string>, verify: string -> int)
    ensures (forall i :: 0 <= i < |NonEmpty(paths)| ==> Good(realPath, verify, NonEmpty(paths)[i]))
            <==> forall path :: path in paths && path != "" ==> Good(realPath, verify, path)
  {
    hide NonEmpty, Good;
    var list := NonEmpty(paths);
    if forall i :: 0 <= i < |list| ==> Good(realPath, verify, list[i]) {
      forall path | path in paths && path != ""
        ensures Good(realPath, verify, path)
      {
        InNonEmpty(paths, path);
        var i :| 0 <= i < |list| && list[i] == path;
      }
    }
    if forall path :: path in paths && path != "" ==> Good(realPath, verify, path) {
      forall i | 0 <= i < |list|
        ensures Good(realPath, verify, list[i])
      {
        InNonEmpty(paths, list[i]);
      }
    }
  }

  lemma InNonEmpty(paths: seq<string>, path: string)
    ensures path in NonEmpty(paths) <==> path in paths && path != ""
  {
    hide NonEmpty;
    NonEmptyCounts(paths, path);
    assert path in multiset(NonEmpty(paths)) <==> path in NonEmpty(paths);
    assert path in multiset(paths) <==> path in paths;
  }

  /** The values of a run in which all packages are good: 1, then 1 and the share after each package, then 5. */
  ghost predicate GoodRun(values: seq<int>, pkgNum: nat) {
    && pkgNum > 0 && |values| == pkgNum + 2 && values[0] == 1 && values[pkgNum + 1] == 5
    && forall k :: 0 <= k <= pkgNum ==> values[k] == 1 + Percent(k, pkgNum)
  }

  lemma NothingShown(p: Progress)
    ensures Shown(p, []) == p && InSteps([], 1, 1 + PKG_VERIFY_PERCENT)
  {
  }

  lemma StepsExtend(values: seq<int>, value: int)
    requires InSteps(values, 1, 1 + PKG_VERIFY_PERCENT) && 1 <= value <= 1 + PKG_VERIFY_PERCENT
    requires values != [] ==> values[|values| - 1] <= value
    ensures InSteps(values + [value], 1, 1 + PKG_VERIFY_PERCENT)
  {
  }

  /** One SetUpdatePercent, added to the values shown since `start`. */
  method ShowNext(statusManager: StatusManager, ghost start: Progress, ghost values: seq<int>, value: int)
    returns (ghost shown: seq<int>)
    requires statusManager.Now() == Shown(start, values)
    requires InSteps(values, 1, 1 + PKG_VERIFY_PERCENT) && 1 <= value <= 1 + PKG_VERIFY_PERCENT
    requires values != [] ==> values[|values| - 1] <= value
    modifies statusManager
    ensures shown == values + [value] && InSteps(shown, 1, 1 + PKG_VERIFY_PERCENT)
    ensures statusManager.Now() == Shown(start, shown)
  {
    StepsExtend(values, value);
    hide InSteps, Updated;
    assert (values + [value])[..|values|] == values;
    statusManager.SetUpdatePercent(value);
    shown := values + [value];
  }

  method CollectPaths(pkgPath: seq<string>) returns (pkgList: seq<string>)
    ensures pkgList == NonEmpty(pkgPath)
  {
    pkgList := [];
    for n := 0 to |pkgPath|
      invariant pkgList == NonEmpty(pkgPath[..n])
    {
      assert pkgPath[..n + 1][..n] == pkgPath[..n];
      if pkgPath[n] != "" {
        pkgList := pkgList + [pkgPath[n]];
      }
    }
    assert pkgPath[..|pkgPath|] == pkgPath;
  }

  /**
   The result is 0 exactly when every path that is not empty resolves to a package whose signature verifies. The values
   shown are those of such a run, up to the first bad package.
   */
  method Verify(
    statusManager: StatusManager, pkgPath: seq<string>, realPath: string -> Option<string>, verify: string -> int)
    returns (ret: int, ghost values: seq<int>)
    modifies statusManager
    ensures ret == 0 <==> forall path :: path in pkgPath && path != "" ==> Good(realPath, verify, path)
    ensures statusManager.Now() == Shown(old(statusManager.Now()), values)
    ensures InSteps(values, 1, 1 + PKG_VERIFY_PERCENT)
    ensures NonEmpty(pkgPath) == [] <==> values == []
    ensures ret == 0 && values != [] ==> GoodRun(values, |NonEmpty(pkgPath)|)
  {
    hide Percent, NonEmpty, Shown, InSteps, VerifyOne, Good;
    var pkgList := CollectPaths(pkgPath);
    GoodPaths(pkgPath, realPath, verify);
    values := [];
    ghost var start := statusManager.Now();
    NothingShown(start);
    var pkgNum := |pkgList|;
    if pkgNum == 0 {
      return 0, values;
    }
    PercentOfNone(pkgNum);
    values := ShowNext(statusManager, start, values, 1);
    for count := 0 to pkgNum
      invariant forall i :: 0 <= i < count ==> Good(realPath, verify, pkgList[i])
      invariant statusManager.Now() == Shown(start, values)
      invariant |values| == count + 1 && InSteps(values, 1, 1 + PKG_VERIFY_PERCENT) && values[0] == 1
      invariant forall k :: 0 <= k <= count ==> values[k] == 1 + Percent(k, pkgNum)
      invariant values[count] <= 1 + PKG_VERIFY_PERCENT
    {
      ret := VerifyOne(realPath, verify, pkgList[count]);
      if ret != 0 {
        return ret, values;
      }
      PercentGrows(count, pkgNum);
      values := ShowNext(statusManager, start, values, Percent(count + 1, pkgNum) + 1);
    }
    values := ShowNext(statusManager, start, values, 1 + PKG_VERIFY_PERCENT);
    return 0, values;
  }
}
