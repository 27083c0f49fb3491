/**
  The decisions of the `github` package once the HTTP replies are in hand: the base branch
  pull requests are listed against, which closed pull requests count as merged since the
  last release and how each is written as one line, the bounded retry of the commit-SHA
  lookup, and how the release lookup and the SHA lookup combine.
 */
module GitHub {
  import opened Wrappers
  import opened Strings

  // ------------------------------------------------------------- base branch

  /** `jfrog/jfrog-cli-artifactory` develops on `main`; every other repository on `dev`. */
  function BaseBranch(repo: string): (base: string)
    ensures base == "main" <==> repo == "jfrog/jfrog-cli-artifactory"
    ensures base == "main" || base == "dev"
  {
    if repo == "jfrog/jfrog-cli-artifactory" then "main" else "dev"
  }

  // ------------------------------------------------------------- merged pull requests

  /** A decoded timestamp: the instant it denotes, for comparison, and the text `%s` prints for it. */
  datatype Time = Time(instant: int, text: string)

  /** `time.Time.After`: strictly later. */
  predicate After(t: Time, u: Time) {
    t.instant > u.instant
  }

  datatype Label = Label(name: string)

  /** One decoded pull request. `closed_at` is always present here; `merged_at` is absent for a PR closed without merging. */
  datatype PullRequest = PullRequest(number: int, title: string, login: string, labels: seq<Label>,
                                     closedAt: Time, mergedAt: Option<Time>)

  /** A pull request counts when it was closed after the last release and was actually merged. */
  predicate Qualifies(pr: PullRequest, lastReleaseDate: Time) {
    After(pr.closedAt, lastReleaseDate) && pr.mergedAt.Some?
  }

  /** The label names, in the order the labels come. */
  function LabelNames(labels: seq<Label>): (names: seq<string>)
    ensures |names| == |labels|
    ensures forall k :: 0 <= k < |labels| ==> names[k] == labels[k].name
  {
    seq(|labels|, k requires 0 <= k < |labels| => labels[k].name)
  }

  /** `PR #<number>, <title>, <login>, <labels joined by ", ">, <merged-at>`. */
  function FormatPR(number: int, title: string, login: string, tags: seq<string>, mergedAt: Time): string {
    "PR #" + IntToString(number) + ", " + title + ", " + login + ", " + Join(tags, ", ") + ", " + mergedAt.text
  }

  /** The line for a qualifying pull request. */
  function PRLine(pr: PullRequest): string
    requires pr.mergedAt.Some?
  {
    FormatPR(pr.number, pr.title, pr.login, LabelNames(pr.labels), pr.mergedAt.value)
  }

  /** The lines `GetAllMergedPRs` returns for the decoded pull requests, in their order. */
  function MergedPRLines(prs: seq<PullRequest>, lastReleaseDate: Time): seq<string> {
    if prs == [] then []
    else
      var last := prs[|prs| - 1];
      MergedPRLines(prs[..|prs| - 1], lastReleaseDate)
        + (if Qualifies(last, lastReleaseDate) then [PRLine(last)] else [])
  }

  /** The filter/format loop of `GetAllMergedPRs`, over the already-decoded pull requests. */
  method GetAllMergedPRs(prs: seq<PullRequest>, lastReleaseDate: Time) returns (prList: seq<string>)
    ensures prList == MergedPRLines(prs, lastReleaseDate)
  {
    prList := [];
    var i := 0;
    while i < |prs|
      invariant 0 <= i <= |prs|
      invariant prList == MergedPRLines(prs[..i], lastReleaseDate)
    {
      var pr := prs[i];
      assert prs[..i + 1][..i] == prs[..i];
      if After(pr.closedAt, lastReleaseDate) {
        var tags: seq<string> := [];
        var j := 0;
        while j < |pr.labels|
          invariant 0 <= j <= |pr.labels|
          invariant tags == LabelNames(pr.labels[..j])
        {
          tags := tags + [pr.labels[j].name];
          j := j + 1;
        }
        assert pr.labels[..j] == pr.labels;
        if pr.mergedAt.Some? {
          prList := prList + [FormatPR(pr.number, pr.title, pr.login, tags, pr.mergedAt.value)];
        }
      }
      i := i + 1;
    }
    assert prs[..i] == prs;
  }

  /** The lines of two batches are the lines of the first batch followed by those of the second: input order is kept. */
  lemma {:induction false} MergedPRLinesAppend(a: seq<PullRequest>, b: seq<PullRequest>, since: Time)
    ensures MergedPRLines(a + b, since) == MergedPRLines(a, since) + MergedPRLines(b, since)
    decreases |b|
  {
    if b == [] {
      assert a + b == a;
    } else {
      var ab := a + b;
      assert ab[..|ab| - 1] == a + b[..|b| - 1];
      assert ab[|ab| - 1] == b[|b| - 1];
      MergedPRLinesAppend(a, b[..|b| - 1], since);
    }
  }

  /** A line is in the result exactly when it is the line of some qualifying pull request. */
  lemma MergedPRLinesMembers(prs: seq<PullRequest>, since: Time, line: string)
    ensures line in MergedPRLines(prs, since) <==>
      exists i :: 0 <= i < |prs| && Qualifies(prs[i], since) && line == PRLine(prs[i])
  {
    if line in MergedPRLines(prs, since) {
      MergedPRLinesFrom(prs, since, line);
    }
    if exists i :: 0 <= i < |prs| && Qualifies(prs[i], since) && line == PRLine(prs[i]) {
      var i :| 0 <= i < |prs| && Qualifies(prs[i], since) && line == PRLine(prs[i]);
      MergedPRLinesHas(prs, since, i);
    }
  }

  /** Every qualifying pull request has its line in the result. */
  lemma {:induction false} MergedPRLinesHas(prs: seq<PullRequest>, since: Time, i: nat)
    requires i < |prs| && Qualifies(prs[i], since)
    ensures PRLine(prs[i]) in MergedPRLines(prs, since)
  {
    var init := prs[..|prs| - 1];
    if i < |init| {
      assert init[i] == prs[i];
      MergedPRLinesHas(init, since, i);
    }
  }

  /** Every line of the result comes from a qualifying pull request. */
  lemma {:induction false} MergedPRLinesFrom(prs: seq<PullRequest>, since: Time, line: string)
    requires line in MergedPRLines(prs, since)
    ensures exists i :: 0 <= i < |prs| && Qualifies(prs[i], since) && line == PRLine(prs[i])
  {
    var init := prs[..|prs| - 1];
    if line in MergedPRLines(init, since) {
      MergedPRLinesFrom(init, since, line);
      var i :| 0 <= i < |init| && Qualifies(init[i], since) && line == PRLine(init[i]);
      assert init[i] == prs[i];
    } else {
      assert Qualifies(prs[|prs| - 1], since) && line == PRLine(prs[|prs| - 1]);
    }
  }

  /** Exactly one line per qualifying pull request: when every one qualifies, there is a line for each, in order. */
  lemma {:induction false} MergedPRLinesAll(prs: seq<PullRequest>, since: Time)
    requires forall i :: 0 <= i < |prs| ==> Qualifies(prs[i], since)
    ensures |MergedPRLines(prs, since)| == |prs|
    ensures forall i :: 0 <= i < |prs| && Qualifies(prs[i], since) ==> MergedPRLines(prs, since)[i] == PRLine(prs[i])
  {
    if prs != [] {
      var init := prs[..|prs| - 1];
      assert forall i :: 0 <= i < |init| ==> init[i] == prs[i];
      MergedPRLinesAll(init, since);
      var last := prs[|prs| - 1];
      assert Qualifies(last, since);
      var lines := MergedPRLines(prs, since);
      assert lines == MergedPRLines(init, since) + [PRLine(last)];
      forall i | 0 <= i < |prs| && Qualifies(prs[i], since)
        ensures lines[i] == PRLine(prs[i])
      {
        if i < |init| {
          assert lines[i] == MergedPRLines(init, since)[i];
          assert Qualifies(init[i], since);
        }
      }
    }
  }

  /** Pull requests closed no later than the release, or closed without merging, leave no line at all. */
  lemma {:induction false} MergedPRLinesNone(prs: seq<PullRequest>, since: Time)
    requires forall i :: 0 <= i < |prs| ==> !Qualifies(prs[i], since)
    ensures MergedPRLines(prs, since) == []
  {
    if prs != [] {
      var init := prs[..|prs| - 1];
      assert forall i :: 0 <= i < |init| ==> init[i] == prs[i];
      MergedPRLinesNone(init, since);
    }
  }

  /** The marker the reports test for: a pull request without labels has `", ,"` between login and merge time. */
  lemma NoLabelsMarker(pr: PullRequest)
    requires pr.mergedAt.Some? && pr.labels == []
    ensures Contains(PRLine(pr), ", ,")
  {
    var a := "PR #" + IntToString(pr.number) + ", " + pr.title + ", " + pr.login;
    var b := " " + pr.mergedAt.value.text;
    assert PRLine(pr) == a + ", ," + b;
    ContainsInside(a, ", ,", b);
  }

  /**
    The marker is not exact: a labelled pull request whose title holds `", ,"` carries it
    too, so the reports call it unlabelled.
   */
  lemma MarkerInTitle(pr: PullRequest, before: string, after: string)
    requires pr.mergedAt.Some? && pr.labels != [] && pr.title == before + ", ," + after
    ensures Contains(PRLine(pr), ", ,")
  {
    var a := "PR #" + IntToString(pr.number) + ", " + before;
    var b := after + ", " + pr.login + ", " + Join(LabelNames(pr.labels), ", ") + ", " + pr.mergedAt.value.text;
    assert PRLine(pr) == a + ", ," + b;
    ContainsInside(a, ", ,", b);
  }

  // ------------------------------------------------------------- commit SHA lookup

  /**
    What one request of the tag-ref lookup returns: a transport failure, or a status with
    the decoded `object.sha` (or the decoder's complaint).
   */
  datatype Reply = TransportError(message: string) | Response(status: int, sha: Result<string, string>)

  /** The loop stops at a transport failure or a 200. */
  predicate Stops(reply: Reply) {
    reply.TransportError? || reply.status == 200
  }

  const MaxAttempts: nat := 5

  /** The index of the last request made: the first stopping reply from `i` on, or the fifth request. */
  function LastAttempt(replies: seq<Reply>, i: nat): (k: nat)
    requires i < MaxAttempts <= |replies|
    ensures i <= k < MaxAttempts
    ensures forall j :: i <= j < k ==> !Stops(replies[j])
    ensures k < MaxAttempts - 1 ==> Stops(replies[k])
    decreases MaxAttempts - i
  {
    if Stops(replies[i]) || i == MaxAttempts - 1 then i else LastAttempt(replies, i + 1)
  }

  /** The outcome of `fetchCommitSHA` given the replies its requests would get. */
  function CommitSHAResult(repo: string, version: string, replies: seq<Reply>): Result<string, string>
    requires MaxAttempts <= |replies|
  {
    match replies[LastAttempt(replies, 0)]
    case TransportError(m) => Err("failed to fetch commit SHA: " + m)
    case Response(status, body) =>
      if status == 404 then Err("module or version not found: " + repo + "@" + version)
      else if status != 200 then Err("unexpected response code 1: " + IntToString(status))
      else match body
        case Err(m) => Err("failed to decode response: " + m)
        case Ok(sha) => if sha == "" then Err("unexpected: sha is empty") else Ok(sha)
  }

  /**
    `fetchCommitSHA`: up to five requests, stopping at the first 200; a transport failure
    ends it at once. Between requests it waits (the wait length is left out), never after
    the fifth. Then the final reply decides: 404, any other non-200, an undecodable body or
    an empty SHA is an error; otherwise the SHA.
   */
  method FetchCommitSHA(repo: string, version: string, replies: seq<Reply>)
    returns (r: Result<string, string>, requests: nat, waits: nat)
    requires MaxAttempts <= |replies|
    ensures r == CommitSHAResult(repo, version, replies)
    ensures requests == LastAttempt(replies, 0) + 1 && 1 <= requests <= MaxAttempts
    ensures waits == requests - 1
  {
    requests, waits := 0, 0;
    var resp: Reply := replies[0];
    var i := 0;
    while i < 5
      invariant 0 <= i <= 5
      invariant requests == i && waits == (if i < 5 then i else 4)
      invariant forall j :: 0 <= j < i ==> !Stops(replies[j])
      invariant i > 0 ==> resp == replies[i - 1]
      invariant i < 5 ==> LastAttempt(replies, i) == LastAttempt(replies, 0)
    {
      resp := replies[i];
      requests := requests + 1;
      if resp.TransportError? {
        return Err("failed to fetch commit SHA: " + resp.message), requests, waits;
      }
      if resp.status == 200 {
        break;
      }
      if i < 4 {
        waits := waits + 1;
      }
      i := i + 1;
    }
    if resp.status == 404 {
      return Err("module or version not found: " + repo + "@" + version), requests, waits;
    }
    if resp.status != 200 {
      return Err("unexpected response code 1: " + IntToString(resp.status)), requests, waits;
    }
    if resp.sha.Err? {
      return Err("failed to decode response: " + resp.sha.error), requests, waits;
    }
    if resp.sha.value == "" {
      return Err("unexpected: sha is empty"), requests, waits;
    }
    r := Ok(resp.sha.value);
  }

  /**
    The lookup succeeds exactly when one of the five requests gets a 200 with a non-empty
    SHA after only non-200 responses, and then it returns that SHA.
   */
  lemma CommitSHASucceeds(repo: string, version: string, replies: seq<Reply>)
    requires MaxAttempts <= |replies|
    ensures CommitSHAResult(repo, version, replies).Ok? <==>
      exists k :: 0 <= k < MaxAttempts && replies[k].Response? && replies[k].status == 200
                  && replies[k].sha.Ok? && replies[k].sha.value != ""
                  && forall j :: 0 <= j < k ==> !Stops(replies[j])
    ensures CommitSHAResult(repo, version, replies).Ok? ==>
      var k := LastAttempt(replies, 0);
      replies[k].Response? && CommitSHAResult(repo, version, replies).value == replies[k].sha.value
  {
    var last := LastAttempt(replies, 0);
    if exists k :: 0 <= k < MaxAttempts && replies[k].Response? && replies[k].status == 200
                   && replies[k].sha.Ok? && replies[k].sha.value != ""
                   && forall j :: 0 <= j < k ==> !Stops(replies[j]) {
      var k :| 0 <= k < MaxAttempts && replies[k].Response? && replies[k].status == 200
               && replies[k].sha.Ok? && replies[k].sha.value != ""
               && forall j :: 0 <= j < k ==> !Stops(replies[j]);
      assert Stops(replies[k]);
      assert k == last;
    }
  }

  /** A transport failure on the first request ends the lookup after that one request, with an error. */
  lemma TransportAborts(repo: string, version: string, replies: seq<Reply>)
    requires MaxAttempts <= |replies| && replies[0].TransportError?
    ensures LastAttempt(replies, 0) == 0
    ensures CommitSHAResult(repo, version, replies) == Err("failed to fetch commit SHA: " + replies[0].message)
  {
  }

  /** Five non-200 responses: five requests, and the fifth status decides the error. */
  lemma RetriesExhausted(repo: string, version: string, replies: seq<Reply>)
    requires MaxAttempts <= |replies|
    requires forall j :: 0 <= j < MaxAttempts ==> replies[j].Response? && replies[j].status != 200
    ensures LastAttempt(replies, 0) == MaxAttempts - 1
    ensures CommitSHAResult(repo, version, replies).Err?
    ensures replies[4].status == 404 ==>
      CommitSHAResult(repo, version, replies) == Err("module or version not found: " + repo + "@" + version)
  {
  }

  // ------------------------------------------------------------- latest release and its SHA

  /** What the latest-release lookup reports: the tag and when it was published. */
  datatype Release = Release(tag: string, published: Time)

  /** `time.Time{}`, which the release lookup returns alongside every error. */
  const ZeroTime: Time := Time(0, "0001-01-01 00:00:00 +0000 UTC")

  /**
    `GetLatestReleaseVersionAndCommitSHA`: the latest release, then the SHA of its tag. The
    tag and SHA come back only when both steps succeed; otherwise both are empty and the
    error says which step failed. The release time is whatever the first step reported.
   */
  method GetLatestReleaseVersionAndCommitSHA(repo: string, latest: Result<Release, string>, replies: seq<Reply>)
    returns (tag: string, sha: string, released: Time, err: Option<string>)
    requires MaxAttempts <= |replies|
    ensures err.None? <==> latest.Ok? && CommitSHAResult(repo, latest.value.tag, replies).Ok?
    ensures err.None? ==> tag == latest.value.tag && sha == CommitSHAResult(repo, tag, replies).value
    ensures err.Some? ==> tag == "" && sha == ""
    ensures released == (if latest.Ok? then latest.value.published else ZeroTime)
    ensures latest.Err? ==> err == Some("failed to fetch latest version: " + latest.error)
    ensures latest.Ok? && CommitSHAResult(repo, latest.value.tag, replies).Err? ==>
      err == Some("failed to fetch commit SHA for version " + latest.value.tag + ": "
                  + CommitSHAResult(repo, latest.value.tag, replies).error)
  {
    if latest.Err? {
      return "", "", ZeroTime, Some("failed to fetch latest version: " + latest.error);
    }
    var latestVersion := latest.value.tag;
    released := latest.value.published;
    var commit, _, _ := FetchCommitSHA(repo, latestVersion, replies);
    if commit.Err? {
      return "", "", released, Some("failed to fetch commit SHA for version " + latestVersion + ": " + commit.error);
    }
    tag, sha, err := latestVersion, commit.value, None;
  }

  /** The package's own scenario: the latest release `v1.2.3` and a first reply carrying SHA `abc123`. */
  lemma FirstReplyScenario(repo: string, replies: seq<Reply>)
    requires MaxAttempts <= |replies| && replies[0] == Response(200, Ok("abc123"))
    ensures LastAttempt(replies, 0) == 0
    ensures CommitSHAResult(repo, "v1.2.3", replies) == Ok("abc123")
  {
  }
}
