# jfrm release decisions, in Dafny

`jfrm` is a command-line helper for JFrog CLI plugin repositories. It can check the Go
dependencies of a repository against a fixed allow-list of JFrog modules and update
them. It also looks at the pull requests merged since the latest release, decides
whether the next release is a patch or a minor one, writes Markdown reports, and can
open a pull request with the updates.

This project models the deterministic core of that tool and proves properties of it:

- **version arithmetic and release classification** (`Version`): patch and minor bumps
  of a tag, the choice between them from the release-type label, and the "next minor" /
  "next patch" decision over merged pull-request lines;
- **dependency decisions** (`Deps`):
  - the choice of remote the repository is named after;
  - version comparison by Semantic Versioning 2.0.0 precedence, with a tolerant parse
    of its own (`SemVer`);
  - the six-module allow-list;
  - the dry-run accumulator, a class over a `seq<string>` that the update step appends
    to, the report reads and a successful report clears;
  - normalising a remote URL to an `owner/repo` slug;
  - folding `go.mod` requires into a map;
- **merged pull requests and the release lookup** (`GitHub`):
  - the filter-and-format loop over decoded pull requests;
  - the base branch the pull requests target;
  - the bounded retry of the commit-SHA lookup over a sequence of replies;
  - the release lookup that composes the two;
- **report rendering** (`Report`): the dry-run report and the dependency report, built
  by appending to a string as the program does, each proved equal to a defining
  function whose contents are then proved section by section;
- **the update command** (`Commands`):
  - the default base;
  - the `--remote` flag;
  - the remote check and its fallback to `origin`;
  - the `HEAD branch:` scan;
  - the update loop over the dependencies;
  - the "nothing to release" exit;
  - the `"next"` placeholder;
  - branch name and commit message;
  - the preflight summary.

Go's `strings` helpers that the code relies on are modelled in `Strings`:
`TrimSpace` with Go's white-space set, `Split`, `SplitN(·, 2)`, `Join`, `Contains`,
`HasPrefix`, `TrimPrefix`, and decimal rendering. `Wrappers` holds `Option` and `Result`.

Everything outside the program is a parameter:

- a module lookup is `string -> Option<string>`;
- the HTTP replies of the commit-SHA lookup are a sequence of `Reply` values;
- the timestamp is a string;
- a file write is an optional error;
- the output of each `git` call is an optional string;
- each preflight probe is a boolean or a result.

A Go map the program ranges over is given as the sequence of its entries in iteration
order.

Three behaviours of the program that the model keeps as they are:

- A module outside the allow-list gets no row in the dependency table.
- Both reports print `GetNextVersion`'s result as it is, which is empty for a tag that does
  not parse; only the pull-request step substitutes `"next"`.
- The release type is decided on the whole formatted pull-request line, labels included.

## Model

| member | source | states |
|---|---|---|
| Version.IncrementMinorVersion | internal/version/version.go:9-18 | the result is empty exactly when the tag does not parse; otherwise it starts with a digit (a leading `v` is not reproduced) |
| Version.IncrementPatchVersion | internal/version/version.go:20-28 | the result is empty exactly when the tag does not parse; otherwise it starts with a digit |
| Version.IncrementMinorParsesBack | internal/version/version.go:15-17 | the result reads back as the parsed tag with minor + 1 and patch 0; major, pre-release and build are unchanged |
| Version.IncrementPatchParsesBack | internal/version/version.go:26-27 | the result reads back as the parsed tag with patch + 1; everything else is unchanged |
| Version.BumpsAreHigher | internal/version/version.go:15-16 | both bumps keep major and have strictly higher precedence |
| Version.GetNextVersion | internal/version/version.go:31-36 | empty exactly when the tag does not parse; otherwise it starts with a digit |
| Version.GetNextVersionParsesBack | internal/version/version.go:31-36 | a patch bump exactly for the label "next patch", a minor bump for every other label |
| Version.NextVersionIsNewer | internal/version/version.go:31-36 | for a tag that parses, the next version parses and is strictly newer, whatever the label |
| Version.ReleaseTypeOfFeature | internal/version/version.go:39-48 | "next minor" exactly when some line contains "new feature" or "feature request", else "next patch" (also for no lines); always one of the two |
| Version.ReleaseTypeOfPermutation | internal/version/version.go:40-47 | reordering the lines never changes the release type |
| Version.DetermineReleaseType | internal/version/version.go:39-48 | the scan with early exit returns the release type of the lines |
| Version.BumpExamples | internal/version/version_test.go:5-24 | "1.2.3" bumps to "1.2.4" and "1.3.0"; `GetNextVersion` picks them by label |
| Version.FeatureScenario | internal/version/version.go:39-48 | a fix followed by a feature on tag 2.5.0 is "next minor" with next version 2.6.0; no lines is "next patch" |
| Deps.IsAllowedDependency | internal/deps/dependencies.go:19-26 | true exactly for the six listed module paths |
| Deps.AllowedExamples | internal/deps/dependencies_test.go:20-27 | gofrog is allowed; `example.com/not-allowed` is not |
| Deps.IsNewerVersion | internal/deps/dependencies.go:120-127 | true exactly when both versions parse and the latest has strictly higher SemVer precedence |
| Deps.NewerIrreflexive | internal/deps/dependencies.go:126 | no version is newer than itself |
| Deps.NewerAsymmetric | internal/deps/dependencies.go:126 | never newer in both directions |
| Deps.NewerTransitive | internal/deps/dependencies.go:126 | newer is transitive |
| Deps.NewerFailSafe | internal/deps/dependencies.go:121-125 | a version that does not parse is never newer and never older |
| Deps.NewerRendered | internal/deps/dependencies.go:120-127 | on rendered versions, with or without a leading `v`, newer is precedence |
| Deps.NewerIgnoresBuild | internal/deps/dependencies.go:126 | versions differing only in build metadata are not newer than each other |
| Deps.NewerPatchExample | internal/deps/dependencies_test.go:9-11 | 1.2.4 is newer than 1.2.3 |
| Deps.NewerSameExample | internal/deps/dependencies_test.go:12-14 | 1.2.3 is not newer than itself |
| Deps.NewerOlderExample | internal/deps/dependencies_test.go:15-17 | 1.2.9 is not newer than 1.3.0 |
| Deps.DryRunLineModule | internal/deps/dependencies.go:133 | the module can be read back from its accumulator line |
| Deps.DryRunLineOneLine | internal/deps/dependencies.go:133 | an accumulator line holds no line break when its parts hold none |
| Deps.DryRunLog.UpdateDependency | internal/deps/dependencies.go:130-138 | in dry-run mode it appends exactly one line, runs nothing and returns no error; otherwise the log is unchanged, `go get <module>@<latest version>` runs and its error is returned |
| Deps.DryRunLog.GetDryRunReport | internal/deps/dependencies.go:149-151 | returns the accumulated lines |
| Deps.DryRunLog.ClearDryRunReport | internal/deps/dependencies.go:154-156 | empties the accumulator |
| Deps.DryRunLines | internal/deps/dependencies.go:133 | one accumulator line per update, in call order |
| Deps.DryRunSession | internal/deps/dependencies.go:130-156 | a fresh log after a sequence of dry-run updates reads back their lines in order; a clear then empties it |
| Deps.StripGit | internal/deps/dependencies.go:53 | drops one trailing `.git` when something precedes it, and nothing else |
| Deps.ExtractRepoSlug | internal/deps/dependencies.go:47-59 | an error, with the URL in its text, exactly when no separator starts a slug; otherwise the slug at the leftmost separator that does |
| Deps.SlugShape | internal/deps/dependencies.go:53 | a slug is `owner/name` with both sides non-empty and slash-free, and it ends the URL, optionally followed by `.git` |
| Deps.SlugOfTwoSlashes | internal/deps/dependencies.go:53 | text after a separator that has two more slashes is not a slug |
| Deps.SlugAfterSeparator | internal/deps/dependencies.go:47-59 | a URL ending in a separator and `owner/name` yields `owner/name` without `.git` |
| Deps.SlugHttps | internal/deps/dependencies.go:50 | `https://host/owner/repo.git` gives `owner/repo` |
| Deps.SlugSsh | internal/deps/dependencies.go:51 | `ssh://host/owner/repo` gives `owner/repo` |
| Deps.SlugScp | internal/deps/dependencies.go:52 | `host:owner/repo.git` gives `owner/repo` |
| Deps.GetRepoName | internal/deps/dependencies.go:32-44 | the slug of `upstream`'s URL when that run succeeds with visible output; otherwise `origin`'s error, or the slug of its URL |
| Deps.RepoNameFromOrigin | internal/deps/dependencies.go:35-43 | a failed `upstream` lookup names the repository after its HTTPS `origin` |
| Deps.RepoNamePrefersUpstream | internal/deps/dependencies.go:33-43 | an `upstream` that answers with a URL takes precedence over `origin` |
| Deps.RequireMapKeys | internal/deps/dependencies.go:78-81 | the map's keys are exactly the required paths |
| Deps.RequireMapLast | internal/deps/dependencies.go:78-81 | a path keeps the version of its last require |
| Deps.GetDependencies | internal/deps/dependencies.go:78-82 | the loop builds the map with exactly the required paths as keys, each with its last version |
| GitHub.BaseBranch | internal/github/github.go:140-143 | "main" exactly for `jfrog/jfrog-cli-artifactory`, "dev" otherwise |
| GitHub.LabelNames | internal/github/github.go:181-184 | the label names, in order |
| GitHub.GetAllMergedPRs | internal/github/github.go:178-191 | the loop returns the formatted lines of the qualifying pull requests |
| GitHub.MergedPRLinesAppend | internal/github/github.go:178-189 | the selection distributes over concatenation, so it keeps input order |
| GitHub.MergedPRLinesMembers | internal/github/github.go:179-188 | a line is in the result exactly when it formats a pull request closed after the release date and merged |
| GitHub.MergedPRLinesAll | internal/github/github.go:178-189 | when every pull request qualifies, one line each, in order |
| GitHub.MergedPRLinesNone | internal/github/github.go:178-189 | when none qualifies, no lines |
| GitHub.NoLabelsMarker | internal/github/github.go:186 | a pull request without labels formats with the `, ,` marker the reports look for |
| GitHub.MarkerInTitle | internal/github/github.go:186 | a labelled pull request whose title holds `, ,` carries the marker too |
| GitHub.LastAttempt | internal/github/github.go:83-103 | the last request is the first that stops the loop (a transport error or a 200), or the fifth |
| GitHub.FetchCommitSHA | internal/github/github.go:77-136 | the retry loop returns the outcome of its last reply after one to five requests, waiting only between requests |
| GitHub.CommitSHASucceeds | internal/github/github.go:94-135 | success exactly when some request among the first five gets a 200 with a non-empty SHA and every earlier one got neither a 200 nor a transport error; the SHA is that reply's |
| GitHub.TransportAborts | internal/github/github.go:90-93 | a transport error on the first request ends the loop at once with its error |
| GitHub.RetriesExhausted | internal/github/github.go:83-116 | five non-200 replies use all five requests and fail; a final 404 is the not-found error |
| GitHub.FirstReplyScenario | internal/github/github_test.go:11-42 | a first reply of 200 with SHA `abc123` gives that SHA after one request |
| GitHub.GetLatestReleaseVersionAndCommitSHA | internal/github/github.go:20-32 | tag and SHA only when both lookups succeed; otherwise empty strings and the wrapped error of the step that failed; the release time is passed on even on error |
| Report.Annotated | internal/report/report.go:34-38 | a line holding `, ,` gains ` (No labels)`; any other line is unchanged |
| Report.Items | internal/report/report.go:89-95 | each pull-request line, prefixed and annotated, in order |
| Report.PRBlockContains | internal/report/report.go:33-39 | every pull-request line appears, annotated, on its own line |
| Report.UnlabelledAnnotated | internal/report/report.go:34 | a pull request without labels is reported with ` (No labels)` |
| Report.AppendLines | internal/report/report.go:24-26 | the loop appends each accumulated line and a newline |
| Report.AppendPRs | internal/report/report.go:33-39 | the loop appends the block of annotated pull-request lines |
| Report.GenerateDryRunReport | internal/report/report.go:15-53 | the report built is the dry-run report of the accumulator; a failed write returns the wrapped error and keeps the accumulator, a successful one clears it |
| Report.DryRunReportHeader | internal/report/report.go:16-17 | the report starts with its header and contains the repository and the timestamp |
| Report.DryRunNothingToUpdate | internal/report/report.go:20-21 | an empty accumulator gives the "already up to date" line |
| Report.DryRunListsLines | internal/report/report.go:22-26 | otherwise the heading is followed by every accumulated line in order |
| Report.DryRunNoPRs | internal/report/report.go:31-42 | without pull requests there is no release section |
| Report.DryRunWithPRs | internal/report/report.go:31-42 | with pull requests, each appears annotated and the report ends with the decision and the next version |
| Report.Status | internal/report/report.go:74-78 | "update available" exactly when the latest version is newer, else "up to date" |
| Report.AppendEntry | internal/report/report.go:67-80 | the loop body adds the entry's row (an error row when the lookup fails) and says whether it counts |
| Report.AppendRow | internal/report/report.go:66-81 | one turn of the loop extends the table to the rows of one more entry and the count to its update count |
| Report.AppendRows | internal/report/report.go:65-81 | the loop appends one row per allowed entry and counts the outdated ones |
| Report.AppendStatus | internal/report/report.go:60-83 | appends the status section, table and summary; returns the update count |
| Report.AppendActivity | internal/report/report.go:85-105 | appends the activity section for the pull requests and the tag |
| Report.AppendRecommendations | internal/report/report.go:107-119 | appends the recommendations for the count and the pull requests |
| Report.GenerateDependencyReport | internal/report/report.go:56-127 | the report built is the dependency report, the count is the number of outdated allowed entries, and a failed write returns the wrapped error |
| Report.RowsCount | internal/report/report.go:65-83 | one row per allowed entry; the count is at most the number of allowed entries, which is at most the summary's denominator |
| Report.UpdateCountPositive | internal/report/report.go:65-78 | the count is positive exactly when some allowed entry has a newer version found |
| Report.RowsContain | internal/report/report.go:66-80 | every allowed entry has its row in the table |
| Report.RowsSound | internal/report/report.go:65-80 | the table holds no other rows: each row is the row of some allowed entry, so a module outside the allow-list never gets one |
| Report.ReportRow | internal/report/report.go:68-79 | an allowed entry whose lookup fails has an error row; one whose lookup succeeds has its versions and status |
| Report.ReportSummary | internal/report/report.go:83 | the report states the count out of the number of all entries |
| Report.ReportNoPRs | internal/report/report.go:102-105 | without pull requests the report says none were merged |
| Report.ActivityNoneIff | internal/report/report.go:86-105 | the activity section is the "no merged PRs" text exactly when there are no pull requests; otherwise it opens with the merged-PRs heading |
| Report.ReportWithPRs | internal/report/report.go:86-101 | with pull requests, each appears as a `- ` item, annotated, with the recommended type and `GetNextVersion` for it |
| Report.RecommendationsShape | internal/report/report.go:108-119 | with updates available the section holds steps 1-3 in order and not the "all up to date" line; with none it holds that line and not step 1; item 4 closes the text when there are pull requests, the chosen advice otherwise |
| Report.ReportRecommendations | internal/report/report.go:108-119 | in the whole report: steps 1-3 in order when some allowed entry is outdated, the "up to date" line when none is; the report ends with item 4 when there are pull requests, with the chosen advice otherwise |
| Commands.ResolveDefaultBase | internal/cli/commands/update_dependencies.go:209-215 | always `upstream`; the branch is "main" exactly for the Artifactory plugin and "dev" otherwise |
| Commands.DefaultBaseIsPRBase | internal/cli/commands/update_dependencies.go:209-215 | the default branch is the branch the merged pull requests are read from |
| Commands.DefaultBaseExamples | internal/cli/commands/update_dependencies_test.go:5-14 | `some/other` gives upstream/dev; the Artifactory plugin gives upstream/main |
| Commands.BuildBranchName | internal/cli/commands/update_dependencies.go:217-222 | the override when it holds anything but white space, else `update-dependencies-` and the version |
| Commands.GeneratedBranchName | internal/cli/commands/update_dependencies.go:221 | a blank override gives a name with the prefix, from which the version reads back |
| Commands.OverrideKept | internal/cli/commands/update_dependencies.go:218-220 | an override with a visible character is kept unchanged |
| Commands.BranchNameExamples | internal/cli/commands/update_dependencies_test.go:16-23 | no override gives `update-dependencies-1.2.3`; `custom-name` is kept |
| Commands.SplitOnce | internal/cli/commands/update_dependencies.go:58 | one part exactly when the separator is absent; otherwise the text before its first occurrence and everything after |
| Commands.RemoteFlag | internal/cli/commands/update_dependencies.go:56-63 | a blank flag keeps the default; otherwise both sides of the first slash, non-empty, with the slash-free remote first; any error is the invalid-value message |
| Commands.RemoteFlagRoundTrip | internal/cli/commands/update_dependencies.go:56-63 | `remote/branch` selects exactly that remote and branch, slashes in the branch included |
| Commands.RemoteFlagRejects | internal/cli/commands/update_dependencies.go:59-61 | no slash, a leading slash or nothing after the first slash is rejected |
| Commands.CheckRemote | internal/cli/commands/update_dependencies.go:70-90 | a remote the `git remote` output contains (as a substring) is kept; one it lacks is an error when the user named it; otherwise the base falls back to `origin`, which the output must contain |
| Commands.PrefixRemotePasses | internal/cli/commands/update_dependencies.go:76 | the substring test accepts a remote `up` when only `upstream` is configured |
| Commands.FallbackToDetected | internal/cli/commands/update_dependencies.go:81-89 | the fallback takes the branch from a detected `origin/<name>` |
| Commands.FallbackKeepsBranch | internal/cli/commands/update_dependencies.go:81-89 | with nothing detected the fallback keeps the default branch |
| Commands.NameAfterColon | internal/cli/commands/update_dependencies.go:237-244 | a name is found only on a `HEAD branch:` line and is never empty |
| Commands.NameAfterPrefix | internal/cli/commands/update_dependencies.go:237-244 | on such a line the name is the trimmed text after the prefix |
| Commands.FirstNamedAt | internal/cli/commands/update_dependencies.go:235-247 | the scan finds the name of the first line that names one |
| Commands.DetectDefaultRemoteBranch | internal/cli/commands/update_dependencies.go:224-248 | the detection with its loop and early return computes the default branch the two `git` outcomes determine |
| Commands.DetectedNone | internal/cli/commands/update_dependencies.go:235-247 | when no line names a branch, nothing is detected |
| Commands.DetectedIsFirst | internal/cli/commands/update_dependencies.go:235-247 | otherwise the result is `<remote>/<name>` for the first line that names one |
| Commands.SelectBase | internal/cli/commands/update_dependencies.go:50-96 | a selected base needs the repository known, the preflight passed and `git remote` listed; its remote occurs in that output and its fetched ref exists; with a visible flag it is the flag's base, and without one it is `upstream` or the `origin` fallback |
| Commands.InvalidFlagStops | internal/cli/commands/update_dependencies.go:56-68 | a visible `--remote` flag with no slash, a leading slash or nothing after its only slash gives the invalid-value error whatever the preflight, `git remote` and the fetched refs would give |
| Commands.SelectDefaultBase | internal/cli/commands/update_dependencies.go:54-96 | with no flag, `upstream` listed and its branch fetched, the base is the default |
| Commands.SelectUserBase | internal/cli/commands/update_dependencies.go:56-96 | a flag naming a listed remote selects it, and one naming an unlisted remote is the not-found error |
| Commands.AttemptsSound | internal/cli/commands/update_dependencies.go:112-121 | only entries the allow-list admits and whose lookup succeeded reach `UpdateDependency`, with the version found |
| Commands.AttemptsHas | internal/cli/commands/update_dependencies.go:112-128 | every such entry reaches it, newer or not, so a failed lookup skips only its own module |
| Commands.UpdatesSound | internal/cli/commands/update_dependencies.go:122-125 | every module in `updates` comes from an attempt with a newer version and carries it |
| Commands.UpdatesHas | internal/cli/commands/update_dependencies.go:122-125 | every attempt with a newer version puts its module in `updates` |
| Commands.PlannedUpdatesOf | internal/cli/commands/update_dependencies.go:111-129 | a module is planned exactly when an entry for it is allowed, its lookup succeeded and the version found is newer; it is planned at that version |
| Commands.UpdateEntry | internal/cli/commands/update_dependencies.go:113-128 | one turn of the loop keeps the map, the log and the `go get` calls in step with the attempts |
| Commands.UpdateLoop | internal/cli/commands/update_dependencies.go:111-129 | the loop builds the planned map; in dry-run mode it logs one line per attempt and runs nothing, otherwise it runs one `go get` per attempt and logs nothing |
| Commands.PlanUpdates | internal/cli/commands/update_dependencies.go:111-129 | the loop of the command returns the planned updates, with the log and `go get` calls as above |
| Commands.NoReleaseIff | internal/cli/commands/update_dependencies.go:153-156 | nothing is released exactly when no pull request was merged and no allowed dependency has a newer version found |
| Commands.DryRunReportWhen | internal/cli/commands/update_dependencies.go:153-168 | the dry-run report comes exactly in dry-run mode with something to release; otherwise the pull request is opened exactly when asked for |
| Commands.OrPlaceholderOf | internal/cli/commands/update_dependencies.go:174-176 | the placeholder replaces exactly an empty next version |
| Commands.PRVersionOf | internal/cli/commands/update_dependencies.go:172-177 | `next` exactly when the tag does not parse; otherwise the next version, which parses and is newer than the tag |
| Commands.PreparePullRequest | internal/cli/commands/update_dependencies.go:172-186 | branch name and commit message are built from the next version or the placeholder |
| Commands.PreflightPasses | internal/cli/commands/update_dependencies.go:251-299 | the preflight passes exactly when every probe is fine (token and GitHub API only when a pull request is asked for) |
| Commands.PreflightListsIssues | internal/cli/commands/update_dependencies.go:296-298 | a failed preflight starts with its header and names every issue |
| SemVer.ParseTolerantRender | internal/version/version.go:11-17 | a rendered version parses back to itself |
| SemVer.ParseTolerantVRender | internal/version/version.go:11 | a leading `v` is accepted |
| SemVer.CompareTrichotomy | internal/deps/dependencies.go:126 | two versions are ordered one way, the other, or have the same precedence, exclusively |
| SemVer.CompareTransitive | internal/deps/dependencies.go:126 | precedence is transitive |
| SemVer.CompareZero | internal/deps/dependencies.go:126 | equal precedence exactly when everything but the build metadata agrees |

## Left out

- HTTP and JSON: the latest-version lookups, pull-request creation, the status query and
  the rate-limit probe. Their outcomes are parameters: a lookup function, a sequence of
  replies, and a reachability flag.
- Subprocesses and the environment: `git` calls, `go get`, `go mod tidy`, checkout, commit,
  push, `os.Getenv` and `exec.LookPath`. Each outcome is given as a value, and
  `UpdateDependency` returns the `go get` target it would run.
- Files and the clock: the report writes, the `go.mod` read and `time.Now`. The
  timestamp is a string, and a write is an optional error.
- Logging and printing; none of it affects a result.
- The backoff wait of the commit-SHA retry (floating point and random jitter). Only the
  number of waits is modelled.
- `blang/semver` internals: `SemVer` is a grammar and precedence of its own. Its tolerant
  parse trims white space and drops a leading `v`. It does not strip leading zeros or
  complete short versions such as `1.2`, and such tags do not parse here.
- `modfile` parsing: `go.mod` arrives as a sequence of requires.
- Go map iteration order: maps the program ranges over are given as their entries in
  iteration order. The order of report rows and accumulator lines is then that order.
- The missing `closed_at` of a pull request, which would dereference nil: it is always
  present in the model.
- The release tag and its published time: these are given as a `Release` value.
  `published` is an instant plus its text, and `After` compares instants.
- The CLI wiring with no decisions of its own: `cmd/jfrm/main.go`,
  `internal/cli/commands/generate_report.go` and `internal/cli/commands/check_dependencies.go`.
  `Formula/jfrm.rb` is Homebrew packaging.
- The steps after the base is chosen that only run commands: the best-effort fetch,
  checkout, `git add`, commit, push and pull-request creation. `SelectBase` models only
  the ref check that follows the fetch, and `NextStep` only which of these steps run.
- `Commands.DetectedIsFirst` and `Commands.DetectedNone` state the two halves of the scan's
  if-and-only-if separately: a named line gives the first such name, and no named line
  gives nothing.
- The `go get` error of `UpdateDependency` is only logged by the loop, so `PlanUpdates`
  returns the targets run and not the errors.
- `SemVer.Version`: major, minor and patch are unbounded naturals, whereas the Go library
  holds them as `uint64`. A component above 18446744073709551615 parses here but not
  there, and `v.Minor++` / `v.Patch++` never wrap to 0 here. So `Version.BumpsAreHigher`
  and `Version.NextVersionIsNewer` hold for the model but not for a tag whose bumped
  component is already at the `uint64` maximum.
- `GitHub.FetchCommitSHA`: the `http.NewRequest` failure ("failed to create request") is
  not modelled. The request is built from a fixed method and a URL formatted from the
  module and version, and URL parsing is left out with the rest of HTTP.
