/** Reactor reports: a report, a sequence of levels, is safe when its
    levels only rise or only fall, by 1 to 3 at each step. The dampener
    also accepts an unsafe report that one removed level makes safe. */
module Reports {
  import opened Basics

  /** Every step rises by 1 to 3. */
  ghost predicate Rising(r: seq<int>) {
    forall i :: 0 <= i < |r| - 1 ==> 1 <= r[i + 1] - r[i] <= 3
  }

  /** Every step falls by 1 to 3. */
  ghost predicate Falling(r: seq<int>) {
    forall i :: 0 <= i < |r| - 1 ==> 1 <= r[i] - r[i + 1] <= 3
  }

  ghost predicate Safe(r: seq<int>) {
    Rising(r) || Falling(r)
  }

  /** The report without its level at `i`. */
  function Without(r: seq<int>, i: nat): seq<int>
    requires i < |r|
  {
    r[..i] + r[i + 1..]
  }

  /** Unsafe as given, safe once one level is removed. */
  ghost predicate Dampened(r: seq<int>) {
    !Safe(r) && exists i :: 0 <= i < |r| && Safe(Without(r, i))
  }

  ghost function CountSafe(reports: seq<seq<int>>): nat {
    if reports == [] then 0
    else CountSafe(reports[..|reports| - 1]) + (if Safe(reports[|reports| - 1]) then 1 else 0)
  }

  ghost function CountDampened(reports: seq<seq<int>>): nat {
    if reports == [] then 0
    else CountDampened(reports[..|reports| - 1]) + (if Dampened(reports[|reports| - 1]) then 1 else 0)
  }

  /** The direction the first step fixes. */
  datatype Sorting = Unset | Asc | Desc

  /** Walks the levels, keeping the direction of the first step: an equal
      pair, a step larger than 3 or a step against that direction makes the
      report unsafe. */
  method ReportIsSafe(report: seq<int>) returns (safe: bool)
    requires |report| > 0
    ensures safe == Safe(report)
  {
    var sorting := Unset;
    var prevLevel := report[0];
    for i := 1 to |report|
      invariant prevLevel == report[i - 1]
      invariant (sorting == Unset) == (i == 1)
      invariant sorting == Asc ==> report[0] < report[1] && forall k :: 0 <= k < i - 1 ==> 1 <= report[k + 1] - report[k] <= 3
      invariant sorting == Desc ==> report[0] > report[1] && forall k :: 0 <= k < i - 1 ==> 1 <= report[k] - report[k + 1] <= 3
    {
      var level := report[i];
      var diff := Abs(level - prevLevel);
      if diff == 0 {
        BadStep(report, i - 1);
        return false;
      }
      if diff > 3 {
        BadStep(report, i - 1);
        return false;
      }
      if sorting == Unset {
        if level > prevLevel {
          sorting := Asc;
        } else {
          sorting := Desc;
        }
      }
      if sorting == Asc && level < prevLevel {
        AgainstDirection(report, i - 1);
        return false;
      }
      if sorting == Desc && level > prevLevel {
        AgainstDirection(report, i - 1);
        return false;
      }
      prevLevel := level;
    }
    return true;
  }

  /** An equal adjacent pair, or a step of more than 3, makes a report unsafe. */
  lemma {:induction false} BadStep(r: seq<int>, i: nat)
    requires i + 1 < |r| && !(1 <= Abs(r[i + 1] - r[i]) <= 3)
    ensures !Safe(r)
  {
    assert !(1 <= r[i + 1] - r[i] <= 3) && !(1 <= r[i] - r[i + 1] <= 3);
  }

  /** A later step against the direction of the first one makes a report
      unsafe. */
  lemma {:induction false} AgainstDirection(r: seq<int>, i: nat)
    requires 0 < i && i + 1 < |r|
    requires (r[0] < r[1] && r[i + 1] < r[i]) || (r[0] > r[1] && r[i + 1] > r[i])
    ensures !Safe(r)
  {
    if r[0] < r[1] {
      assert !(1 <= r[i + 1] - r[i]) && !(1 <= r[0] - r[1]);
    } else {
      assert !(1 <= r[i] - r[i + 1]) && !(1 <= r[1] - r[0]);
    }
  }

  /** The first step fixes the direction of a safe report. */
  lemma {:induction false} DirectionOfFirstStep(r: seq<int>)
    requires |r| >= 2 && Safe(r)
    ensures r[0] < r[1] ==> Rising(r) && !Falling(r)
    ensures r[0] > r[1] ==> Falling(r) && !Rising(r)
  {
    if Rising(r) {
      assert 1 <= r[1] - r[0];
    }
    if Falling(r) {
      assert 1 <= r[0] - r[1];
    }
  }

  /** The dampener: tries the report without each level in turn and stops
      at the first that is safe. */
  method CanSuppressOne(report: seq<int>) returns (found: bool)
    requires |report| >= 2
    ensures found <==> exists i :: 0 <= i < |report| && Safe(Without(report, i))
  {
    for i := 0 to |report|
      invariant forall k :: 0 <= k < i ==> !Safe(Without(report, k))
    {
      var suppressed := report[..i] + report[i + 1..];
      found := ReportIsSafe(suppressed);
      if found {
        assert suppressed == Without(report, i);
        return;
      }
    }
    return false;
  }

  /** Counts the safe reports and, separately, the unsafe ones the
      dampener accepts; the second result adds both. Every report has a
      level. */
  method Solve(reports: seq<seq<int>>) returns (result1: nat, result2: nat)
    requires forall k :: 0 <= k < |reports| ==> |reports[k]| > 0
    ensures result1 == CountSafe(reports)
    ensures result2 == CountSafe(reports) + CountDampened(reports)
  {
    var safeReports, safeWithSuppression := 0, 0;
    for k := 0 to |reports|
      invariant safeReports == CountSafe(reports[..k])
      invariant safeWithSuppression == CountDampened(reports[..k])
    {
      var report := reports[k];
      assert reports[..k + 1][..k] == reports[..k] && reports[..k + 1][k] == report;
      var safe := ReportIsSafe(report);
      if safe {
        safeReports := safeReports + 1;
        continue;
      }
      assert |report| >= 2;
      var found := CanSuppressOne(report);
      if found {
        safeWithSuppression := safeWithSuppression + 1;
      }
    }
    assert reports[..|reports|] == reports;
    result1, result2 := safeReports, safeReports + safeWithSuppression;
  }
}
