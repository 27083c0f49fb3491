/**
  The `report` package: the two Markdown reports, assembled piece by piece. Time, the
  latest-version lookups and the file write are inputs: the timestamp as text, the lookup
  as a function from module path to the version it found (or none on failure), and the
  write's outcome as an optional error. The text that would be written is returned.
 */
module Report {
  import opened Wrappers
  import opened Strings
  import Version
  import Deps
  import GitHub

  /** `a + (b + c)` is `a + b + c`: lines each `report += x + y` step up with the text it extends. */
  lemma Assoc(a: string, b: string, c: string)
    ensures a + (b + c) == a + b + c
  {
  }

  // ------------------------------------------------------------- pull-request lines

  /** The marker that makes the reports call a pull request unlabelled. */
  const Marker: string := ", ,"
  const NoLabels: string := " (No labels)"

  /** A pull-request line as the reports print it: `" (No labels)"` is added when it holds the `", ,"` marker. */
  function Annotated(pr: string): (r: string)
    ensures Contains(pr, Marker) ==> r == pr + NoLabels
    ensures !Contains(pr, Marker) ==> r == pr
  {
    if Contains(pr, Marker) then pr + NoLabels else pr
  }

  /** One pull request's line in a report, after `prefix` (empty in the dry-run report, `"- "` in the other). */
  function Item(prefix: string, pr: string): string {
    if Contains(pr, Marker) then prefix + pr + (NoLabels + "\n") else prefix + pr + "\n"
  }

  /** An item is the prefix, the annotated line and a newline. */
  lemma ItemAnnotated(prefix: string, pr: string)
    ensures Item(prefix, pr) == prefix + Annotated(pr) + "\n"
  {
    if Contains(pr, Marker) {
      Assoc(prefix + pr, NoLabels, "\n");
      Assoc(prefix, pr, NoLabels);
    }
  }

  /** One item per pull request, in order. */
  function PRBlock(prefix: string, prs: seq<string>): string {
    if prs == [] then "" else PRBlock(prefix, prs[..|prs| - 1]) + Item(prefix, prs[|prs| - 1])
  }

  function Items(prefix: string, prs: seq<string>): (r: seq<string>)
    ensures |r| == |prs|
    ensures forall k :: 0 <= k < |prs| ==> r[k] == prefix + Annotated(prs[k])
  {
    seq(|prs|, k requires 0 <= k < |prs| => prefix + Annotated(prs[k]))
  }

  /** The block is the prefixed, annotated pull requests, one per line, in order. */
  lemma {:induction false} PRBlockLines(prefix: string, prs: seq<string>)
    ensures PRBlock(prefix, prs) == Lines(Items(prefix, prs))
  {
    if prs != [] {
      var init := prs[..|prs| - 1];
      PRBlockLines(prefix, init);
      var ps := Items(prefix, prs);
      assert ps[..|ps| - 1] == Items(prefix, init);
      ItemAnnotated(prefix, prs[|prs| - 1]);
      Assoc(Lines(ps[..|ps| - 1]), ps[|ps| - 1], "\n");
    }
  }

  /** Every pull request gets its line in the block. */
  lemma PRBlockContains(prefix: string, prs: seq<string>, i: nat)
    requires i < |prs|
    ensures Contains(PRBlock(prefix, prs), prefix + Annotated(prs[i]) + "\n")
  {
    PRBlockLines(prefix, prs);
    LinesContain(Items(prefix, prs), i);
  }

  /** A merged pull request without labels is reported with the annotation. */
  lemma UnlabelledAnnotated(pr: GitHub.PullRequest)
    requires pr.mergedAt.Some? && pr.labels == []
    ensures Annotated(GitHub.PRLine(pr)) == GitHub.PRLine(pr) + NoLabels
  {
    GitHub.NoLabelsMarker(pr);
  }

  // ------------------------------------------------------------- dry-run report

  const DryRunTitle: string := "# Dry-Run Report\n\n**Repository:** "
  const GeneratedOn: string := "\n**Generated On:** "
  const BlankLine: string := "\n\n"

  function DryRunHeader(repo: string, timestamp: string): string {
    DryRunTitle + repo + GeneratedOn + timestamp + BlankLine
  }

  const AlreadyUpToDate: string := "\U{2705} All dependencies are already up to date!\n"
  const WouldUpdateHeading: string := "### Dependencies that would be updated:\n\n"
  const DryRunMergedHeading: string := "\n### Merged PRs since the latest release:\n\n"

  function Decision(releaseType: string): string {
    "\n### Decision on new release: " + releaseType + "\n"
  }

  function NextPossible(nextVersion: string): string {
    "Next possible version: " + nextVersion + "\n"
  }

  /** The accumulator part: the up-to-date line when it is empty, else the heading and its lines. */
  function DryRunBody(lines: seq<string>): string {
    if lines == [] then AlreadyUpToDate else WouldUpdateHeading + Lines(lines)
  }

  /** The release part, present only when there are pull requests. */
  function DryRunRelease(prs: seq<string>, releaseType: string, nextVersion: string): string {
    if prs == [] then ""
    else DryRunMergedHeading + PRBlock("", prs) + Decision(releaseType) + NextPossible(nextVersion)
  }

  /** The text of the dry-run report. */
  function DryRunReport(repo: string, timestamp: string, lines: seq<string>, prs: seq<string>, tag: string): string {
    var releaseType := Version.ReleaseTypeOf(prs);
    DryRunHeader(repo, timestamp) + DryRunBody(lines)
      + DryRunRelease(prs, releaseType, Version.GetNextVersion(tag, releaseType))
  }

  /** The `for _, line := range lines { report += line + "\n" }` loop. */
  method AppendLines(report: string, lines: seq<string>) returns (r: string)
    ensures r == report + Lines(lines)
  {
    r := report;
    var i := 0;
    while i < |lines|
      invariant 0 <= i <= |lines|
      invariant r == report + Lines(lines[..i])
    {
      assert lines[..i + 1][..i] == lines[..i];
      Assoc(report, Lines(lines[..i]), lines[i]);
      Assoc(report + Lines(lines[..i]), lines[i], "\n");
      r := r + (lines[i] + "\n");
      i := i + 1;
    }
    assert lines[..i] == lines;
  }

  /** The loop over pull requests that both reports share, `prefix` before each line. */
  method AppendPRs(report: string, prefix: string, prs: seq<string>) returns (r: string)
    ensures r == report + PRBlock(prefix, prs)
  {
    r := report;
    var i := 0;
    while i < |prs|
      invariant 0 <= i <= |prs|
      invariant r == report + PRBlock(prefix, prs[..i])
    {
      var pr := prs[i];
      assert prs[..i + 1][..i] == prs[..i];
      Assoc(report, PRBlock(prefix, prs[..i]), Item(prefix, pr));
      if Contains(pr, Marker) {
        r := r + (prefix + pr + (NoLabels + "\n"));
      } else {
        r := r + (prefix + pr + "\n");
      }
      i := i + 1;
    }
    assert prs[..i] == prs;
  }

  /** The release part is what the method appends after the accumulator part. */
  lemma ReleaseAppended(before: string, prs: seq<string>, releaseType: string, nextVersion: string)
    requires prs != []
    ensures before + DryRunMergedHeading + PRBlock("", prs) + Decision(releaseType) + NextPossible(nextVersion)
         == before + DryRunRelease(prs, releaseType, nextVersion)
  {
    Assoc(before, DryRunMergedHeading, PRBlock("", prs));
    Assoc(before, DryRunMergedHeading + PRBlock("", prs), Decision(releaseType));
    Assoc(before, DryRunMergedHeading + PRBlock("", prs) + Decision(releaseType), NextPossible(nextVersion));
  }

  /** The report in three parts, once the release type and the next version are known. */
  lemma DryRunReportOf(repo: string, timestamp: string, lines: seq<string>, prs: seq<string>, tag: string,
                       releaseType: string, nextVersion: string)
    requires releaseType == Version.ReleaseTypeOf(prs)
    requires prs != [] ==> nextVersion == Version.GetNextVersion(tag, releaseType)
    ensures DryRunReport(repo, timestamp, lines, prs, tag)
         == DryRunHeader(repo, timestamp) + DryRunBody(lines) + DryRunRelease(prs, releaseType, nextVersion)
  {
  }

  /**
    `GenerateDryRunReport`: reads the accumulator, writes the report and, only when the
    write succeeded, clears the accumulator.
   */
  method GenerateDryRunReport(log: Deps.DryRunLog, repo: string, prs: seq<string>, tag: string,
                              timestamp: string, writeError: Option<string>)
    returns (report: string, err: Option<string>)
    modifies log
    ensures report == DryRunReport(repo, timestamp, old(log.lines), prs, tag)
    ensures writeError.Some? ==> err == Some("failed to write dry-run report: " + writeError.value)
                                 && log.lines == old(log.lines)
    ensures writeError.None? ==> err.None? && log.lines == []
  {
    report := DryRunHeader(repo, timestamp);
    ghost var header := report;
    var dryRunReport := log.GetDryRunReport();
    if |dryRunReport| == 0 {
      report := report + AlreadyUpToDate;
    } else {
      report := report + WouldUpdateHeading;
      report := AppendLines(report, dryRunReport);
      Assoc(header, WouldUpdateHeading, Lines(dryRunReport));
    }
    ghost var before := report;
    assert before == header + DryRunBody(dryRunReport);

    var releaseType := Version.DetermineReleaseType(prs);
    ghost var nextVersion := Version.GetNextVersion(tag, releaseType);
    if |prs| > 0 {
      report := report + DryRunMergedHeading;
      report := AppendPRs(report, "", prs);
      report := report + Decision(releaseType);
      var next := Version.GetNextVersion(tag, releaseType);
      report := report + NextPossible(next);
      ReleaseAppended(before, prs, releaseType, next);
    } else {
      assert before + "" == before;
    }
    DryRunReportOf(repo, timestamp, dryRunReport, prs, tag, releaseType, nextVersion);

    if writeError.Some? {
      return report, Some("failed to write dry-run report: " + writeError.value);
    }
    log.ClearDryRunReport();
    err := None;
  }

  /** The report opens with the header, which names the repository and the time it was generated. */
  lemma DryRunReportHeader(repo: string, timestamp: string, lines: seq<string>, prs: seq<string>, tag: string)
    ensures HasPrefix(DryRunReport(repo, timestamp, lines, prs, tag), DryRunHeader(repo, timestamp))
    ensures Contains(DryRunReport(repo, timestamp, lines, prs, tag), repo)
    ensures Contains(DryRunReport(repo, timestamp, lines, prs, tag), timestamp)
  {
    var plan := (Version.ReleaseTypeOf(prs), Version.GetNextVersion(tag, Version.ReleaseTypeOf(prs)));
    var rest := DryRunBody(lines) + DryRunRelease(prs, plan.0, plan.1);
    var h := DryRunHeader(repo, timestamp);
    Assoc(h, DryRunBody(lines), DryRunRelease(prs, plan.0, plan.1));
    assert (h + rest)[..|h|] == h;
    Assoc(DryRunTitle + repo + GeneratedOn + timestamp, BlankLine, rest);
    ContainsInside(DryRunTitle + repo + GeneratedOn, timestamp, BlankLine + rest);
    Assoc(DryRunTitle + repo + GeneratedOn, timestamp, BlankLine + rest);
    Assoc(DryRunTitle + repo, GeneratedOn, timestamp + (BlankLine + rest));
    ContainsInside(DryRunTitle, repo, GeneratedOn + (timestamp + (BlankLine + rest)));
  }

  /** With an empty accumulator the report says everything is up to date. */
  lemma DryRunNothingToUpdate(repo: string, timestamp: string, prs: seq<string>, tag: string)
    ensures Contains(DryRunReport(repo, timestamp, [], prs, tag), AlreadyUpToDate)
  {
    var plan := (Version.ReleaseTypeOf(prs), Version.GetNextVersion(tag, Version.ReleaseTypeOf(prs)));
    ContainsInside(DryRunHeader(repo, timestamp), AlreadyUpToDate, DryRunRelease(prs, plan.0, plan.1));
  }

  /** Otherwise the list follows its heading, and every accumulated line is in the report on its own line. */
  lemma DryRunListsLines(repo: string, timestamp: string, lines: seq<string>, prs: seq<string>, tag: string, i: nat)
    requires i < |lines|
    ensures Contains(DryRunReport(repo, timestamp, lines, prs, tag), WouldUpdateHeading + Lines(lines))
    ensures Contains(DryRunReport(repo, timestamp, lines, prs, tag), lines[i] + "\n")
  {
    var plan := (Version.ReleaseTypeOf(prs), Version.GetNextVersion(tag, Version.ReleaseTypeOf(prs)));
    var h, b := DryRunHeader(repo, timestamp), WouldUpdateHeading + Lines(lines);
    var t := DryRunRelease(prs, plan.0, plan.1);
    ContainsInside(h, b, t);
    LinesContain(lines, i);
    ContainsWithin(WouldUpdateHeading, Lines(lines), "", lines[i] + "\n");
    assert WouldUpdateHeading + Lines(lines) + "" == b;
    ContainsWithin(h, b, t, lines[i] + "\n");
  }

  /** Without pull requests the report ends with the accumulator part. */
  lemma DryRunNoPRs(repo: string, timestamp: string, lines: seq<string>, tag: string)
    ensures DryRunReport(repo, timestamp, lines, [], tag) == DryRunHeader(repo, timestamp) + DryRunBody(lines)
  {
  }

  /**
    With pull requests, each one is listed (annotated), and the report ends with the
    decision: the release type of the list, and the version that release type selects.
   */
  lemma DryRunWithPRs(repo: string, timestamp: string, lines: seq<string>, prs: seq<string>, tag: string, i: nat)
    requires i < |prs|
    ensures Contains(DryRunReport(repo, timestamp, lines, prs, tag), Annotated(prs[i]) + "\n")
    ensures Deps.EndsWith(DryRunReport(repo, timestamp, lines, prs, tag),
                          Decision(Version.ReleaseTypeOf(prs))
                          + NextPossible(Version.GetNextVersion(tag, Version.ReleaseTypeOf(prs))))
  {
    var releaseType := Version.ReleaseTypeOf(prs);
    var nextVersion := Version.GetNextVersion(tag, releaseType);
    DryRunReportOf(repo, timestamp, lines, prs, tag, releaseType, nextVersion);
    var head := DryRunHeader(repo, timestamp) + DryRunBody(lines) + DryRunMergedHeading;
    var tail := Decision(releaseType) + NextPossible(nextVersion);
    ReleaseSplit(DryRunHeader(repo, timestamp) + DryRunBody(lines), prs, releaseType, nextVersion);
    ListedIn(head, prs, tail, i);
    EndsWithTail(head + PRBlock("", prs), tail);
  }

  lemma ReleaseSplit(before: string, prs: seq<string>, releaseType: string, nextVersion: string)
    requires prs != []
    ensures before + DryRunRelease(prs, releaseType, nextVersion)
         == before + DryRunMergedHeading + PRBlock("", prs) + (Decision(releaseType) + NextPossible(nextVersion))
  {
    ReleaseAppended(before, prs, releaseType, nextVersion);
    Assoc(before + DryRunMergedHeading + PRBlock("", prs), Decision(releaseType), NextPossible(nextVersion));
  }

  lemma ListedIn(head: string, prs: seq<string>, tail: string, i: nat)
    requires i < |prs|
    ensures Contains(head + PRBlock("", prs) + tail, Annotated(prs[i]) + "\n")
  {
    PRBlockContains("", prs, i);
    assert "" + Annotated(prs[i]) == Annotated(prs[i]);
    ContainsWithin(head, PRBlock("", prs), tail, Annotated(prs[i]) + "\n");
  }

  lemma EndsWithTail(head: string, tail: string)
    ensures Deps.EndsWith(head + tail, tail)
  {
    assert (head + tail)[|head|..] == tail;
  }


  // ------------------------------------------------------------- dependency report

  const DependencyTitle: string := "# Dependency Report\n\n**Repository:** "
  const CurrentVersion: string := "\n**Current Version:** "

  function DependencyHeader(repo: string, timestamp: string, tag: string): string {
    DependencyTitle + repo + GeneratedOn + timestamp + CurrentVersion + tag + BlankLine
  }

  const StatusSection: string := "## Dependency Status\n\n"
  const TableHead: string := "| Module | Current Version | Latest Version | Status |\n"
  const TableRule: string := "|--------|----------------|----------------|--------|\n"

  const UpToDateStatus: string := "\U{2705} Up to date"
  const UpdateStatus: string := "\U{1F504} Update available"

  /** `| <module> | <current> | <latest> | <status> |` and the newline. */
  function FormatRow(path: string, current: string, latest: string, status: string): string {
    "| " + path + " | " + current + " | " + latest + " | " + status + " |\n"
  }

  /** The status column for a successful lookup: an update exactly when the latest version is newer. */
  function Status(current: string, latest: string): (status: string)
    ensures status == UpdateStatus <==> Deps.IsNewerVersion(current, latest)
    ensures status == UpdateStatus || status == UpToDateStatus
  {
    if Deps.IsNewerVersion(current, latest) then UpdateStatus else UpToDateStatus
  }

  /** The row of a module whose latest-version lookup failed. */
  function ErrorRow(path: string, current: string): string {
    "| " + path + " | " + current + " | Error | \U{274C} Error |\n"
  }

  /** The row of an allowed module. */
  function Row(path: string, current: string, lookup: string -> Option<string>): string {
    match lookup(path)
    case None => ErrorRow(path, current)
    case Some(latest) => FormatRow(path, current, latest, Status(current, latest))
  }

  /** One rendered row per allowed module in iteration order; other modules get none. */
  function RowsOf(dependencies: seq<(string, string)>, render: (string, string) -> string): seq<string> {
    if dependencies == [] then []
    else
      var d := dependencies[|dependencies| - 1];
      RowsOf(dependencies[..|dependencies| - 1], render)
        + (if Deps.IsAllowedDependency(d.0) then [render(d.0, d.1)] else [])
  }

  /** The table rows of the dependency report. */
  function Rows(dependencies: seq<(string, string)>, lookup: string -> Option<string>): seq<string> {
    RowsOf(dependencies, (path, current) => Row(path, current, lookup))
  }

  /** Rows already end in a newline and are written one after another. */
  function Concat(rows: seq<string>): string {
    if rows == [] then "" else Concat(rows[..|rows| - 1]) + rows[|rows| - 1]
  }

  /** An allowed module whose lookup succeeded with a newer version: what `updatesAvailable` counts. */
  predicate Outdated(d: (string, string), lookup: string -> Option<string>) {
    Deps.IsAllowedDependency(d.0) && lookup(d.0).Some? && Deps.IsNewerVersion(d.1, lookup(d.0).value)
  }

  /** How many entries satisfy `p`. */
  function CountWhere(dependencies: seq<(string, string)>, p: ((string, string)) -> bool): nat {
    if dependencies == [] then 0
    else
      CountWhere(dependencies[..|dependencies| - 1], p) + (if p(dependencies[|dependencies| - 1]) then 1 else 0)
  }

  function UpdateCount(dependencies: seq<(string, string)>, lookup: string -> Option<string>): nat {
    CountWhere(dependencies, d => Outdated(d, lookup))
  }

  function AllowedCount(dependencies: seq<(string, string)>): nat {
    CountWhere(dependencies, (d: (string, string)) => Deps.IsAllowedDependency(d.0))
  }

  /** What one more entry adds to the rows and to the count. */
  lemma RowsStep(dependencies: seq<(string, string)>, lookup: string -> Option<string>, i: nat)
    requires i < |dependencies|
    ensures Rows(dependencies[..i + 1], lookup)
         == Rows(dependencies[..i], lookup)
            + (if Deps.IsAllowedDependency(dependencies[i].0)
               then [Row(dependencies[i].0, dependencies[i].1, lookup)] else [])
    ensures UpdateCount(dependencies[..i + 1], lookup)
         == UpdateCount(dependencies[..i], lookup) + (if Outdated(dependencies[i], lookup) then 1 else 0)
  {
    assert dependencies[..i + 1][..i] == dependencies[..i];
  }

  function Summary(updatesAvailable: nat, total: nat): string {
    "\n**Summary:** " + NatToString(updatesAvailable) + " out of " + NatToString(total)
      + " dependencies have updates available.\n\n"
  }

  const ActivityHeading: string := "## Recent Activity\n\n"
  const MergedHeading: string := "### Merged PRs since the latest release:\n\n"
  const AnalysisHeading: string := "\n### Release Analysis\n"
  const NoPRsLine: string := "No merged PRs found " + "since the latest release.\n"

  function RecommendedType(releaseType: string): string {
    "- **Recommended release type:** " + releaseType + "\n"
  }

  function NextVersionLine(nextVersion: string): string {
    "- **Next version:** " + nextVersion + "\n"
  }

  /** The activity section: the pull requests and the release analysis, or the line saying there are none. */
  function Activity(prs: seq<string>, releaseType: string, nextVersion: string): string {
    if prs != [] then
      ActivityHeading + MergedHeading + PRBlock("- ", prs) + AnalysisHeading
        + RecommendedType(releaseType) + NextVersionLine(nextVersion)
    else ActivityHeading + NoPRsLine
  }

  const RecommendationsHeading: string := "\n## Recommendations\n\n"
  const UpdateAdvice: string :=
    "1. **Update Dependencies:** " + "Consider updating the " + "outdated dependencies to "
    + "their latest versions.\n"
  const TestAdvice: string :=
    "2. **Run Tests:** After " + "updating dependencies, " + "ensure all tests pass.\n"
  const ReviewAdvice: string :=
    "3. **Review Changes:** " + "Check for any breaking " + "changes in the updated "
    + "dependencies.\n"
  const AllUpToDate: string :=
    "\U{2705} All dependencies " + "are up to date. No " + "immediate action required.\n"
  const ReleaseAdvice: string :=
    "4. **Consider Release:** " + "Based on the merged PRs, " + "consider creating a new "
    + "release.\n"

  function Advice(updatesAvailable: nat): string {
    if updatesAvailable > 0 then UpdateAdvice + TestAdvice + ReviewAdvice else AllUpToDate
  }

  function Closing(prs: seq<string>): string {
    if prs != [] then ReleaseAdvice else ""
  }

  function Recommendations(updatesAvailable: nat, prs: seq<string>): string {
    RecommendationsHeading + Advice(updatesAvailable) + Closing(prs)
  }

  /** The dependency-status section: the table head, one row per allowed module, and the summary. */
  function StatusText(dependencies: seq<(string, string)>, lookup: string -> Option<string>): string {
    StatusSection + TableHead + TableRule + Concat(Rows(dependencies, lookup))
      + Summary(UpdateCount(dependencies, lookup), |dependencies|)
  }

  /** The recent-activity section, with the release type of the pull requests and the version it selects. */
  function ActivityOf(prs: seq<string>, tag: string): string {
    var releaseType := Version.ReleaseTypeOf(prs);
    Activity(prs, releaseType, Version.GetNextVersion(tag, releaseType))
  }

  /** The text of the dependency report. */
  function DependencyReport(repo: string, timestamp: string, tag: string, dependencies: seq<(string, string)>,
                            lookup: string -> Option<string>, prs: seq<string>): string {
    DependencyHeader(repo, timestamp, tag) + StatusText(dependencies, lookup) + ActivityOf(prs, tag)
      + Recommendations(UpdateCount(dependencies, lookup), prs)
  }

  /** The row and the count of one entry, case by case. */
  lemma RowFacts(d: (string, string), lookup: string -> Option<string>)
    ensures !Deps.IsAllowedDependency(d.0) ==> !Outdated(d, lookup)
    ensures lookup(d.0).None? ==> Row(d.0, d.1, lookup) == ErrorRow(d.0, d.1) && !Outdated(d, lookup)
    ensures lookup(d.0).Some? ==>
              Row(d.0, d.1, lookup)
              == FormatRow(d.0, d.1, lookup(d.0).value,
                           if Deps.IsNewerVersion(d.1, lookup(d.0).value) then UpdateStatus else UpToDateStatus)
    ensures Deps.IsAllowedDependency(d.0) && lookup(d.0).Some? ==>
              (Outdated(d, lookup) <==> Deps.IsNewerVersion(d.1, lookup(d.0).value))
  {
  }

  /** The body of the loop over the dependency map: the row of an allowed module, and whether it counts. */
  method AppendEntry(report: string, mod: string, currentVer: string, lookup: string -> Option<string>)
    returns (r: string, counted: bool)
    ensures r == report + (if Deps.IsAllowedDependency(mod) then Row(mod, currentVer, lookup) else "")
    ensures counted == Outdated((mod, currentVer), lookup)
  {
    RowFacts((mod, currentVer), lookup);
    r, counted := report, false;
    if Deps.IsAllowedDependency(mod) {
      var latestVer := lookup(mod);
      if latestVer.None? {
        r := r + ErrorRow(mod, currentVer);
        return;
      }
      var status := UpToDateStatus;
      if Deps.IsNewerVersion(currentVer, latestVer.value) {
        status := UpdateStatus;
        counted := true;
      }
      r := r + FormatRow(mod, currentVer, latestVer.value, status);
    } else {
      assert r == report + "";
    }
  }

  /** The loop over the dependency map: one row per allowed module, counting the outdated ones. */
  method AppendRows(report: string, dependencies: seq<(string, string)>, lookup: string -> Option<string>)
    returns (r: string, updatesAvailable: nat)
    ensures r == report + Concat(Rows(dependencies, lookup))
    ensures updatesAvailable == UpdateCount(dependencies, lookup)
  {
    r := report;
    updatesAvailable := 0;
    var i := 0;
    while i < |dependencies|
      invariant 0 <= i <= |dependencies|
      invariant r == report + Concat(Rows(dependencies[..i], lookup))
      invariant updatesAvailable == UpdateCount(dependencies[..i], lookup)
    {
      r, updatesAvailable := AppendRow(report, dependencies, lookup, i, r, updatesAvailable);
      i := i + 1;
    }
    assert dependencies[..i] == dependencies;
  }

  /** One turn of that loop: the entry at `i` extends the table and the count. */
  method AppendRow(report: string, dependencies: seq<(string, string)>, lookup: string -> Option<string>, i: nat,
                   r: string, updatesAvailable: nat)
    returns (r': string, updatesAvailable': nat)
    requires i < |dependencies|
    requires r == report + Concat(Rows(dependencies[..i], lookup))
    requires updatesAvailable == UpdateCount(dependencies[..i], lookup)
    ensures r' == report + Concat(Rows(dependencies[..i + 1], lookup))
    ensures updatesAvailable' == UpdateCount(dependencies[..i + 1], lookup)
  {
    var mod := dependencies[i].0;
    var currentVer := dependencies[i].1;
    var counted;
    r', counted := AppendEntry(r, mod, currentVer, lookup);
    updatesAvailable' := updatesAvailable;
    if counted {
      updatesAvailable' := updatesAvailable' + 1;
    }
    TableStep(report, dependencies, lookup, i, mod, currentVer, r, r', updatesAvailable, counted);
  }

  /** One more entry extends the table by its row, if any, and the count by one if it is outdated. */
  lemma TableStep(report: string, dependencies: seq<(string, string)>, lookup: string -> Option<string>, i: nat,
                  mod: string, currentVer: string, before: string, after: string, count: nat, counted: bool)
    requires i < |dependencies| && dependencies[i] == (mod, currentVer)
    requires before == report + Concat(Rows(dependencies[..i], lookup))
    requires after == before + (if Deps.IsAllowedDependency(mod) then Row(mod, currentVer, lookup) else "")
    requires count == UpdateCount(dependencies[..i], lookup)
    requires counted == Outdated((mod, currentVer), lookup)
    ensures after == report + Concat(Rows(dependencies[..i + 1], lookup))
    ensures count + (if counted then 1 else 0) == UpdateCount(dependencies[..i + 1], lookup)
  {
    RowsStep(dependencies, lookup, i);
    var rows := Rows(dependencies[..i], lookup);
    if Deps.IsAllowedDependency(mod) {
      var row := Row(mod, currentVer, lookup);
      ConcatAppend(rows, row);
      Assoc(report, Concat(rows), row);
    } else {
      assert rows + [] == rows;
    }
  }

  /** The dependency-status section of `GenerateDependencyReport`. */
  method AppendStatus(report: string, dependencies: seq<(string, string)>, lookup: string -> Option<string>)
    returns (r: string, updatesAvailable: nat)
    ensures r == report + StatusText(dependencies, lookup)
    ensures updatesAvailable == UpdateCount(dependencies, lookup)
  {
    r := report + StatusSection;
    r := r + TableHead;
    r := r + TableRule;
    ghost var top := r;
    r, updatesAvailable := AppendRows(r, dependencies, lookup);
    r := r + Summary(updatesAvailable, |dependencies|);
    StatusAppended(report, dependencies, lookup);
  }

  lemma StatusAppended(report: string, dependencies: seq<(string, string)>, lookup: string -> Option<string>)
    ensures report + StatusSection + TableHead + TableRule + Concat(Rows(dependencies, lookup))
            + Summary(UpdateCount(dependencies, lookup), |dependencies|)
         == report + StatusText(dependencies, lookup)
  {
    var rows, summary := Concat(Rows(dependencies, lookup)), Summary(UpdateCount(dependencies, lookup), |dependencies|);
    Assoc(report, StatusSection, TableHead);
    Assoc(report, StatusSection + TableHead, TableRule);
    Assoc(report, StatusSection + TableHead + TableRule, rows);
    Assoc(report, StatusSection + TableHead + TableRule + rows, summary);
  }

  /** The recent-activity section of `GenerateDependencyReport`. */
  method AppendActivity(report: string, prs: seq<string>, tag: string) returns (r: string)
    ensures r == report + ActivityOf(prs, tag)
  {
    if |prs| > 0 {
      r := report + ActivityHeading;
      r := r + MergedHeading;
      r := AppendPRs(r, "- ", prs);
      var releaseType := Version.DetermineReleaseType(prs);
      var nextVersion := Version.GetNextVersion(tag, releaseType);
      r := r + AnalysisHeading;
      r := r + RecommendedType(releaseType);
      r := r + NextVersionLine(nextVersion);
      ActivityAppended(report, prs, releaseType, nextVersion);
    } else {
      r := report + ActivityHeading;
      r := r + NoPRsLine;
      Assoc(report, ActivityHeading, NoPRsLine);
    }
  }

  /** The activity section with pull requests is what the method appends. */
  lemma ActivityAppended(report: string, prs: seq<string>, releaseType: string, nextVersion: string)
    requires prs != []
    ensures report + ActivityHeading + MergedHeading + PRBlock("- ", prs) + AnalysisHeading
            + RecommendedType(releaseType) + NextVersionLine(nextVersion)
         == report + Activity(prs, releaseType, nextVersion)
  {
    var a := ActivityHeading + MergedHeading + PRBlock("- ", prs);
    Assoc(report, ActivityHeading, MergedHeading);
    Assoc(report, ActivityHeading + MergedHeading, PRBlock("- ", prs));
    Assoc(report, a, AnalysisHeading);
    Assoc(report, a + AnalysisHeading, RecommendedType(releaseType));
    Assoc(report, a + AnalysisHeading + RecommendedType(releaseType), NextVersionLine(nextVersion));
  }

  /** The recommendations section of `GenerateDependencyReport`. */
  method AppendRecommendations(report: string, updatesAvailable: nat, prs: seq<string>) returns (r: string)
    ensures r == report + Recommendations(updatesAvailable, prs)
  {
    r := report + RecommendationsHeading;
    ghost var top := r;
    if updatesAvailable > 0 {
      r := r + UpdateAdvice;
      r := r + TestAdvice;
      r := r + ReviewAdvice;
      Assoc(top, UpdateAdvice, TestAdvice);
      Assoc(top, UpdateAdvice + TestAdvice, ReviewAdvice);
    } else {
      r := r + AllUpToDate;
    }
    ghost var advised := r;
    if |prs| > 0 {
      r := r + ReleaseAdvice;
    } else {
      assert r == advised + "";
    }
    Assoc(report, RecommendationsHeading, Advice(updatesAvailable));
    Assoc(report, RecommendationsHeading + Advice(updatesAvailable), Closing(prs));
  }

  /**
    `GenerateDependencyReport`, the map given as its entries in iteration order. Allowed
    modules are looked up; a failed lookup gives an error row and is not counted; otherwise
    the row says whether an update is available, and such rows are counted.
   */
  method GenerateDependencyReport(repo: string, dependencies: seq<(string, string)>, prs: seq<string>, tag: string,
                                  lookup: string -> Option<string>, timestamp: string, writeError: Option<string>)
    returns (report: string, updatesAvailable: nat, err: Option<string>)
    ensures report == DependencyReport(repo, timestamp, tag, dependencies, lookup, prs)
    ensures updatesAvailable == UpdateCount(dependencies, lookup)
    ensures err == if writeError.Some? then Some("failed to write dependency report: " + writeError.value) else None
  {
    report := DependencyHeader(repo, timestamp, tag);
    report, updatesAvailable := AppendStatus(report, dependencies, lookup);
    report := AppendActivity(report, prs, tag);
    report := AppendRecommendations(report, updatesAvailable, prs);
    if writeError.Some? {
      return report, updatesAvailable, Some("failed to write dependency report: " + writeError.value);
    }
    err := None;
  }

  lemma ConcatAppend(rows: seq<string>, row: string)
    ensures Concat(rows + [row]) == Concat(rows) + row
  {
    assert (rows + [row])[..|rows|] == rows;
  }

  lemma {:induction false} RowsOfCount(dependencies: seq<(string, string)>, render: (string, string) -> string)
    ensures |RowsOf(dependencies, render)| == AllowedCount(dependencies)
  {
    if dependencies != [] {
      RowsOfCount(dependencies[..|dependencies| - 1], render);
    }
  }

  /** A count of entries that all satisfy `q` is at most the count of `q`, which is at most the length. */
  lemma {:induction false} CountWhereBounds(dependencies: seq<(string, string)>, p: ((string, string)) -> bool,
                                            q: ((string, string)) -> bool)
    requires forall d :: p(d) ==> q(d)
    ensures CountWhere(dependencies, p) <= CountWhere(dependencies, q) <= |dependencies|
  {
    if dependencies != [] {
      CountWhereBounds(dependencies[..|dependencies| - 1], p, q);
    }
  }

  /** The count is positive exactly when some entry satisfies `p`. */
  lemma {:induction false} CountWherePositive(dependencies: seq<(string, string)>, p: ((string, string)) -> bool)
    ensures CountWhere(dependencies, p) > 0 <==> exists k :: 0 <= k < |dependencies| && p(dependencies[k])
  {
    if dependencies != [] {
      var init := dependencies[..|dependencies| - 1];
      CountWherePositive(init, p);
      if CountWhere(init, p) > 0 {
        var k :| 0 <= k < |init| && p(init[k]);
        assert dependencies[k] == init[k];
      }
      if exists k :: 0 <= k < |dependencies| && p(dependencies[k]) {
        var k :| 0 <= k < |dependencies| && p(dependencies[k]);
        if k < |init| {
          assert init[k] == dependencies[k];
        }
      }
    }
  }

  /** Every allowed module has its rendered row in the concatenated rows. */
  lemma {:induction false} RowsOfContain(dependencies: seq<(string, string)>, render: (string, string) -> string, k: nat)
    requires k < |dependencies| && Deps.IsAllowedDependency(dependencies[k].0)
    ensures Contains(Concat(RowsOf(dependencies, render)), render(dependencies[k].0, dependencies[k].1))
  {
    var init := dependencies[..|dependencies| - 1];
    var d := dependencies[|dependencies| - 1];
    var rows := RowsOf(init, render);
    var row := render(dependencies[k].0, dependencies[k].1);
    if k == |dependencies| - 1 {
      ConcatAppend(rows, row);
      ContainsInside(Concat(rows), row, "");
      assert Concat(rows) + row + "" == Concat(rows) + row;
    } else {
      assert init[k] == dependencies[k];
      RowsOfContain(init, render, k);
      if Deps.IsAllowedDependency(d.0) {
        ConcatAppend(rows, render(d.0, d.1));
        ContainsWithin("", Concat(rows), render(d.0, d.1), row);
        assert "" + Concat(rows) + render(d.0, d.1) == Concat(rows) + render(d.0, d.1);
      } else {
        assert rows + [] == rows;
      }
    }
  }

  /** Every rendered row is the row of some allowed module. */
  lemma {:induction false} RowsOfSound(dependencies: seq<(string, string)>, render: (string, string) -> string, j: nat)
    requires j < |RowsOf(dependencies, render)|
    ensures exists k :: 0 <= k < |dependencies| && Deps.IsAllowedDependency(dependencies[k].0)
                        && RowsOf(dependencies, render)[j] == render(dependencies[k].0, dependencies[k].1)
  {
    var init := dependencies[..|dependencies| - 1];
    var d := dependencies[|dependencies| - 1];
    var rows := RowsOf(init, render);
    if j < |rows| {
      RowsOfSound(init, render, j);
      var k :| 0 <= k < |init| && Deps.IsAllowedDependency(init[k].0) && rows[j] == render(init[k].0, init[k].1);
      assert dependencies[k] == init[k];
    } else {
      assert RowsOf(dependencies, render)[j] == render(d.0, d.1);
    }
  }

  /** One row per allowed module, and at most that many are counted as outdated. */
  lemma RowsCount(dependencies: seq<(string, string)>, lookup: string -> Option<string>)
    ensures |Rows(dependencies, lookup)| == AllowedCount(dependencies)
    ensures UpdateCount(dependencies, lookup) <= AllowedCount(dependencies) <= |dependencies|
  {
    RowsOfCount(dependencies, (path, current) => Row(path, current, lookup));
    CountWhereBounds(dependencies, d => Outdated(d, lookup), (d: (string, string)) => Deps.IsAllowedDependency(d.0));
    CountWhereBounds(dependencies, (d: (string, string)) => Deps.IsAllowedDependency(d.0), (d: (string, string)) => Deps.IsAllowedDependency(d.0));
  }

  /** The table has no other rows: each one is the row of an allowed entry. */
  lemma RowsSound(dependencies: seq<(string, string)>, lookup: string -> Option<string>, j: nat)
    requires j < |Rows(dependencies, lookup)|
    ensures exists k :: 0 <= k < |dependencies| && Deps.IsAllowedDependency(dependencies[k].0)
                        && Rows(dependencies, lookup)[j] == Row(dependencies[k].0, dependencies[k].1, lookup)
  {
    RowsOfSound(dependencies, (path, current) => Row(path, current, lookup), j);
  }

  /** Updates are reported available exactly when some entry is outdated. */
  lemma UpdateCountPositive(dependencies: seq<(string, string)>, lookup: string -> Option<string>)
    ensures UpdateCount(dependencies, lookup) > 0
        <==> exists k :: 0 <= k < |dependencies| && Outdated(dependencies[k], lookup)
  {
    CountWherePositive(dependencies, d => Outdated(d, lookup));
  }

  /** Every allowed module has its row in the table. */
  lemma RowsContain(dependencies: seq<(string, string)>, lookup: string -> Option<string>, k: nat)
    requires k < |dependencies| && Deps.IsAllowedDependency(dependencies[k].0)
    ensures Contains(Concat(Rows(dependencies, lookup)), Row(dependencies[k].0, dependencies[k].1, lookup))
  {
    RowsOfContain(dependencies, (path, current) => Row(path, current, lookup), k);
  }

  /** Where the parts of a text stand in it. */
  lemma Parts(a: string, b: string, c: string, d: string)
    ensures Contains(a + b + c + d, b)
    ensures Contains(a + b + c + d, c)
    ensures Deps.EndsWith(a + b + c + d, d)
  {
    Assoc(a, b, c);
    Assoc(a, b + c, d);
    ContainsInside(a, b, c + d);
    Assoc(a + b, c, d);
    ContainsInside(a + b, c, d);
    EndsWithTail(a + b + c, d);
  }

  lemma EndsWithContains(s: string, suffix: string)
    requires Deps.EndsWith(s, suffix)
    ensures Contains(s, suffix)
  {
    ContainsAt(s, suffix, |s| - |suffix|);
  }

  lemma EndsWithTrans(s: string, mid: string, suffix: string)
    requires Deps.EndsWith(s, mid) && Deps.EndsWith(mid, suffix)
    ensures Deps.EndsWith(s, suffix)
  {
    assert s[|s| - |suffix|..] == mid[|mid| - |suffix|..];
  }

  /** The report holds its status and activity sections and ends with the recommendations. */
  lemma ReportParts(repo: string, timestamp: string, tag: string, dependencies: seq<(string, string)>,
                    lookup: string -> Option<string>, prs: seq<string>)
    ensures Contains(DependencyReport(repo, timestamp, tag, dependencies, lookup, prs), StatusText(dependencies, lookup))
    ensures Contains(DependencyReport(repo, timestamp, tag, dependencies, lookup, prs), ActivityOf(prs, tag))
    ensures Deps.EndsWith(DependencyReport(repo, timestamp, tag, dependencies, lookup, prs),
                          Recommendations(UpdateCount(dependencies, lookup), prs))
  {
    Parts(DependencyHeader(repo, timestamp, tag), StatusText(dependencies, lookup), ActivityOf(prs, tag),
          Recommendations(UpdateCount(dependencies, lookup), prs));
  }

  /** The status section holds the rows and ends with the summary. */
  lemma StatusParts(dependencies: seq<(string, string)>, lookup: string -> Option<string>)
    ensures Contains(StatusText(dependencies, lookup), Concat(Rows(dependencies, lookup)))
    ensures Deps.EndsWith(StatusText(dependencies, lookup), Summary(UpdateCount(dependencies, lookup), |dependencies|))
  {
    var rows, summary := Concat(Rows(dependencies, lookup)), Summary(UpdateCount(dependencies, lookup), |dependencies|);
    Parts(StatusSection + TableHead, TableRule, rows, summary);
    Assoc(StatusSection + TableHead + TableRule, rows, "");
    assert rows + "" == rows;
    ContainsInside(StatusSection + TableHead + TableRule, rows, summary);
  }

  /**
    The row of every allowed module is in the report: the error row when its lookup failed,
    otherwise the row with its latest version and the status that says whether it is newer.
   */
  lemma ReportRow(repo: string, timestamp: string, tag: string, dependencies: seq<(string, string)>,
                  lookup: string -> Option<string>, prs: seq<string>, k: nat)
    requires k < |dependencies| && Deps.IsAllowedDependency(dependencies[k].0)
    ensures lookup(dependencies[k].0).None? ==>
              Contains(DependencyReport(repo, timestamp, tag, dependencies, lookup, prs),
                       ErrorRow(dependencies[k].0, dependencies[k].1))
    ensures lookup(dependencies[k].0).Some? ==>
              Contains(DependencyReport(repo, timestamp, tag, dependencies, lookup, prs),
                       FormatRow(dependencies[k].0, dependencies[k].1, lookup(dependencies[k].0).value,
                                 Status(dependencies[k].1, lookup(dependencies[k].0).value)))
  {
    var r := DependencyReport(repo, timestamp, tag, dependencies, lookup, prs);
    RowsContain(dependencies, lookup, k);
    StatusParts(dependencies, lookup);
    ReportParts(repo, timestamp, tag, dependencies, lookup, prs);
    ContainsTrans(r, StatusText(dependencies, lookup), Concat(Rows(dependencies, lookup)));
    ContainsTrans(r, Concat(Rows(dependencies, lookup)), Row(dependencies[k].0, dependencies[k].1, lookup));
  }

  /** The summary gives the number of updates available out of all entries. */
  lemma ReportSummary(repo: string, timestamp: string, tag: string, dependencies: seq<(string, string)>,
                      lookup: string -> Option<string>, prs: seq<string>)
    ensures Contains(DependencyReport(repo, timestamp, tag, dependencies, lookup, prs),
                     Summary(UpdateCount(dependencies, lookup), |dependencies|))
  {
    var status := StatusText(dependencies, lookup);
    StatusParts(dependencies, lookup);
    ReportParts(repo, timestamp, tag, dependencies, lookup, prs);
    EndsWithContains(status, Summary(UpdateCount(dependencies, lookup), |dependencies|));
    ContainsTrans(DependencyReport(repo, timestamp, tag, dependencies, lookup, prs), status,
                  Summary(UpdateCount(dependencies, lookup), |dependencies|));
  }

  /** Without pull requests the activity section says so. */
  lemma ReportNoPRs(repo: string, timestamp: string, tag: string, dependencies: seq<(string, string)>,
                    lookup: string -> Option<string>)
    ensures Contains(DependencyReport(repo, timestamp, tag, dependencies, lookup, []), NoPRsLine)
  {
    ReportParts(repo, timestamp, tag, dependencies, lookup, []);
    EndsWithTail(ActivityHeading, NoPRsLine);
    EndsWithContains(ActivityOf([], tag), NoPRsLine);
    ContainsTrans(DependencyReport(repo, timestamp, tag, dependencies, lookup, []), ActivityOf([], tag), NoPRsLine);
  }

  /**
    The activity section is the "none merged" text exactly when there are no pull requests;
    with pull requests it opens with the merged-PRs heading instead.
   */
  lemma ActivityNoneIff(prs: seq<string>, tag: string)
    ensures ActivityOf(prs, tag) == ActivityHeading + NoPRsLine <==> prs == []
    ensures prs != [] ==> HasPrefix(ActivityOf(prs, tag), ActivityHeading + MergedHeading)
  {
    if prs != [] {
      var releaseType := Version.ReleaseTypeOf(prs);
      ActivityOpens(prs, releaseType, Version.GetNextVersion(tag, releaseType));
    }
  }

  /** With pull requests, the activity section opens with the merged-PRs heading. */
  lemma ActivityOpens(prs: seq<string>, releaseType: string, nextVersion: string)
    requires prs != []
    ensures Activity(prs, releaseType, nextVersion) != ActivityHeading + NoPRsLine
    ensures HasPrefix(Activity(prs, releaseType, nextVersion), ActivityHeading + MergedHeading)
  {
    var head := ActivityHeading + MergedHeading;
    var a := Activity(prs, releaseType, nextVersion);
    var k := |ActivityHeading|;
    assert a[k] == head[k] == '#';
    assert NoPRsLine[0] == 'N';
    assert (ActivityHeading + NoPRsLine)[k] == NoPRsLine[0];
    assert a[..|head|] == head;
  }

  /** The activity section with pull requests lists each one and gives the release type and next version. */
  lemma ActivityWithPRs(prs: seq<string>, releaseType: string, nextVersion: string, i: nat)
    requires i < |prs|
    ensures Contains(Activity(prs, releaseType, nextVersion), "- " + Annotated(prs[i]) + "\n")
    ensures Contains(Activity(prs, releaseType, nextVersion), RecommendedType(releaseType))
    ensures Deps.EndsWith(Activity(prs, releaseType, nextVersion), NextVersionLine(nextVersion))
  {
    var a := Activity(prs, releaseType, nextVersion);
    var block := PRBlock("- ", prs);
    Assoc(ActivityHeading + MergedHeading + block, AnalysisHeading, RecommendedType(releaseType));
    Parts(ActivityHeading + MergedHeading, block, AnalysisHeading + RecommendedType(releaseType),
          NextVersionLine(nextVersion));
    PRBlockContains("- ", prs, i);
    ContainsTrans(a, block, "- " + Annotated(prs[i]) + "\n");
    EndsWithTail(AnalysisHeading, RecommendedType(releaseType));
    EndsWithContains(AnalysisHeading + RecommendedType(releaseType), RecommendedType(releaseType));
    ContainsTrans(a, AnalysisHeading + RecommendedType(releaseType), RecommendedType(releaseType));
  }

  /**
    With pull requests, each one is listed after `"- "` (annotated), and the analysis gives the
    release type of the list and the version it selects.
   */
  lemma ReportWithPRs(repo: string, timestamp: string, tag: string, dependencies: seq<(string, string)>,
                      lookup: string -> Option<string>, prs: seq<string>, i: nat)
    requires i < |prs|
    ensures Contains(DependencyReport(repo, timestamp, tag, dependencies, lookup, prs), "- " + Annotated(prs[i]) + "\n")
    ensures Contains(DependencyReport(repo, timestamp, tag, dependencies, lookup, prs),
                     RecommendedType(Version.ReleaseTypeOf(prs)))
    ensures Contains(DependencyReport(repo, timestamp, tag, dependencies, lookup, prs),
                     NextVersionLine(Version.GetNextVersion(tag, Version.ReleaseTypeOf(prs))))
  {
    var r := DependencyReport(repo, timestamp, tag, dependencies, lookup, prs);
    var releaseType := Version.ReleaseTypeOf(prs);
    var nextVersion := Version.GetNextVersion(tag, releaseType);
    var a := ActivityOf(prs, tag);
    ReportParts(repo, timestamp, tag, dependencies, lookup, prs);
    ActivityWithPRs(prs, releaseType, nextVersion, i);
    EndsWithContains(a, NextVersionLine(nextVersion));
    ContainsTrans(r, a, "- " + Annotated(prs[i]) + "\n");
    ContainsTrans(r, a, RecommendedType(releaseType));
    ContainsTrans(r, a, NextVersionLine(nextVersion));
  }

  /**
    What the recommendations section says, by case: the three steps exactly when updates
    are available, the all-clear line exactly when none are, and item 4 closing the text
    exactly when there are pull requests.
   */
  lemma RecommendationsShape(updatesAvailable: nat, prs: seq<string>)
    ensures updatesAvailable > 0 ==>
              Contains(Recommendations(updatesAvailable, prs), UpdateAdvice + TestAdvice + ReviewAdvice)
    ensures updatesAvailable > 0 ==> !Contains(Recommendations(updatesAvailable, prs), AllUpToDate)
    ensures updatesAvailable == 0 ==> Contains(Recommendations(updatesAvailable, prs), AllUpToDate)
    ensures updatesAvailable == 0 ==> !Contains(Recommendations(updatesAvailable, prs), UpdateAdvice)
    ensures prs != [] ==> Deps.EndsWith(Recommendations(updatesAvailable, prs), ReleaseAdvice)
    ensures prs == [] ==> Deps.EndsWith(Recommendations(updatesAvailable, prs), Advice(updatesAvailable))
  {
    var advice := Advice(updatesAvailable);
    if updatesAvailable > 0 {
      ContainsInside(RecommendationsHeading, UpdateAdvice + TestAdvice + ReviewAdvice, Closing(prs));
      StepsLackAllClear(updatesAvailable, prs);
    } else {
      ContainsInside(RecommendationsHeading, AllUpToDate, Closing(prs));
      AllClearLacksSteps(updatesAvailable, prs);
    }
    EndsWithTail(RecommendationsHeading + advice, Closing(prs));
    if prs == [] {
      NoClosing(RecommendationsHeading, advice, prs);
    }
  }

  // The characters that open the first step and the all-clear line, and where they do not occur,
  // one paragraph at a time.

  lemma HeadingChars()
    ensures '\U{2705}' !in RecommendationsHeading && '1' !in RecommendationsHeading
  {
  }

  lemma UpdateAdviceChars()
    ensures UpdateAdvice[0] == '1' && '\U{2705}' !in UpdateAdvice
  {
  }

  lemma TestAdviceChars()
    ensures '\U{2705}' !in TestAdvice
  {
  }

  lemma ReviewAdviceChars()
    ensures '\U{2705}' !in ReviewAdvice
  {
  }

  lemma AllUpToDateChars()
    ensures AllUpToDate[0] == '\U{2705}' && '1' !in AllUpToDate
  {
  }

  lemma ReleaseAdviceNoCheckMark()
    ensures '\U{2705}' !in ReleaseAdvice
  {
  }

  lemma ReleaseAdviceNoOne()
    ensures '1' !in ReleaseAdvice
  {
  }

  /** With updates available, the check mark that opens the all-clear line is nowhere in the section. */
  lemma StepsLackAllClear(updatesAvailable: nat, prs: seq<string>)
    requires updatesAvailable > 0
    ensures !Contains(Recommendations(updatesAvailable, prs), AllUpToDate)
  {
    var c := AllUpToDate[0];
    AllUpToDateChars();
    HeadingChars();
    UpdateAdviceChars();
    TestAdviceChars();
    ReviewAdviceChars();
    ReleaseAdviceNoCheckMark();
    NotInSteps(RecommendationsHeading, UpdateAdvice, TestAdvice, ReviewAdvice, Closing(prs), c);
    AdviceLacks(Recommendations(updatesAvailable, prs), AllUpToDate);
  }

  /** With nothing to update, the `1` that opens the first step is nowhere in the section. */
  lemma AllClearLacksSteps(updatesAvailable: nat, prs: seq<string>)
    requires updatesAvailable == 0
    ensures !Contains(Recommendations(updatesAvailable, prs), UpdateAdvice)
  {
    var c := UpdateAdvice[0];
    UpdateAdviceChars();
    HeadingChars();
    AllUpToDateChars();
    ReleaseAdviceNoOne();
    NotInConcat(RecommendationsHeading, AllUpToDate, c);
    NotInConcat(RecommendationsHeading + AllUpToDate, Closing(prs), c);
    AdviceLacks(Recommendations(updatesAvailable, prs), UpdateAdvice);
  }

  lemma NotInConcat(a: string, b: string, c: char)
    requires c !in a && c !in b
    ensures c !in a + b
  {
  }

  lemma NotInSteps(heading: string, s1: string, s2: string, s3: string, closing: string, c: char)
    requires c !in heading && c !in s1 && c !in s2 && c !in s3 && c !in closing
    ensures c !in heading + (s1 + s2 + s3) + closing
  {
    NotInConcat(s1, s2, c);
    NotInConcat(s1 + s2, s3, c);
    NotInConcat(heading, s1 + s2 + s3, c);
    NotInConcat(heading + (s1 + s2 + s3), closing, c);
  }

  /** A paragraph whose first character the section lacks is not in it. */
  lemma AdviceLacks(rec: string, paragraph: string)
    requires paragraph != [] && paragraph[0] !in rec
    ensures !Contains(rec, paragraph)
  {
    if Contains(rec, paragraph) {
      ContainsHead(rec, paragraph);
    }
  }

  lemma NoClosing(heading: string, advice: string, prs: seq<string>)
    requires prs == []
    ensures Deps.EndsWith(heading + advice + Closing(prs), advice)
  {
    assert heading + advice + Closing(prs) == heading + advice;
    EndsWithTail(heading, advice);
  }

  /**
    The recommendations: the three update steps when some entry is outdated, the all-clear
    otherwise, and the closing release advice exactly when there are pull requests.
   */
  lemma ReportRecommendations(repo: string, timestamp: string, tag: string, dependencies: seq<(string, string)>,
                              lookup: string -> Option<string>, prs: seq<string>)
    ensures (exists k :: 0 <= k < |dependencies| && Outdated(dependencies[k], lookup)) ==>
              Contains(DependencyReport(repo, timestamp, tag, dependencies, lookup, prs),
                       UpdateAdvice + TestAdvice + ReviewAdvice)
    ensures (forall k :: 0 <= k < |dependencies| ==> !Outdated(dependencies[k], lookup)) ==>
              Contains(DependencyReport(repo, timestamp, tag, dependencies, lookup, prs), AllUpToDate)
    ensures prs != [] ==> Deps.EndsWith(DependencyReport(repo, timestamp, tag, dependencies, lookup, prs), ReleaseAdvice)
    ensures prs == [] ==> Deps.EndsWith(DependencyReport(repo, timestamp, tag, dependencies, lookup, prs),
                                        Advice(UpdateCount(dependencies, lookup)))
  {
    var count := UpdateCount(dependencies, lookup);
    var r := DependencyReport(repo, timestamp, tag, dependencies, lookup, prs);
    var rec := Recommendations(count, prs);
    ReportParts(repo, timestamp, tag, dependencies, lookup, prs);
    UpdateCountPositive(dependencies, lookup);
    RecommendationsShape(count, prs);
    EndsWithContains(r, rec);
    if count > 0 {
      ContainsTrans(r, rec, UpdateAdvice + TestAdvice + ReviewAdvice);
    } else {
      ContainsTrans(r, rec, AllUpToDate);
    }
    if prs != [] {
      EndsWithTrans(r, rec, ReleaseAdvice);
    } else {
      EndsWithTrans(r, rec, Advice(count));
    }
  }
}
