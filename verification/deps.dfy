/**
  The `deps` package: which modules may be bumped, whether a fetched version is newer,
  the dry-run accumulator of would-be updates, the `owner/repo` slug of a remote URL,
  and the path-to-version map of a `go.mod` require list.
 */
module Deps {
  import opened Wrappers
  import opened Strings
  import opened SemVer

  // ------------------------------------------------------------- allow-list

  /** `allowedDeps`: the only modules the tool ever updates. */
  const AllowedDeps: set<string> := {
    "github.com/jfrog/jfrog-cli-core/v2",
    "github.com/jfrog/jfrog-client-go",
    "github.com/jfrog/jfrog-cli-artifactory",
    "github.com/jfrog/jfrog-cli-security",
    "github.com/jfrog/build-info-go",
    "github.com/jfrog/gofrog"
  }

  /** `IsAllowedDependency`: a lookup in the allow-list, false for any path not in it. */
  function IsAllowedDependency(path: string): (allowed: bool)
    ensures allowed <==>
      || path == "github.com/jfrog/jfrog-cli-core/v2"
      || path == "github.com/jfrog/jfrog-client-go"
      || path == "github.com/jfrog/jfrog-cli-artifactory"
      || path == "github.com/jfrog/jfrog-cli-security"
      || path == "github.com/jfrog/build-info-go"
      || path == "github.com/jfrog/gofrog"
  {
    path in AllowedDeps
  }

  /** gofrog is allowed; an unrelated module is not. */
  lemma AllowedExamples(allowed: string, other: string)
    requires allowed == "github.com/jfrog/gofrog" && other == "example.com/not-allowed"
    ensures IsAllowedDependency(allowed)
    ensures !IsAllowedDependency(other)
  {
    assert other[0] == 'e';
  }

  // ------------------------------------------------------------- newer version

  /**
    `IsNewerVersion`: both versions are read with the tolerant parse; if either fails the
    answer is false, otherwise it is `latest.GT(current)`.
   */
  function IsNewerVersion(current: string, latest: string): (newer: bool)
    ensures newer <==>
      && ParseTolerant(current).Some?
      && ParseTolerant(latest).Some?
      && Less(ParseTolerant(current).value, ParseTolerant(latest).value)
  {
    match (ParseTolerant(current), ParseTolerant(latest))
    case (Some(c), Some(l)) =>
      CompareAntisymmetric(c, l);
      Compare(l, c) == 1
    case _ => false
  }

  /** A version is never newer than itself. */
  lemma NewerIrreflexive(x: string)
    ensures !IsNewerVersion(x, x)
  {
    if ParseTolerant(x).Some? {
      CompareZero(ParseTolerant(x).value, ParseTolerant(x).value);
    }
  }

  /** Never newer in both directions. */
  lemma NewerAsymmetric(x: string, y: string)
    ensures !(IsNewerVersion(x, y) && IsNewerVersion(y, x))
  {
    if ParseTolerant(x).Some? && ParseTolerant(y).Some? {
      CompareTrichotomy(ParseTolerant(x).value, ParseTolerant(y).value);
    }
  }

  /** Newer is transitive. */
  lemma NewerTransitive(x: string, y: string, z: string)
    requires IsNewerVersion(x, y) && IsNewerVersion(y, z)
    ensures IsNewerVersion(x, z)
  {
    CompareTransitive(ParseTolerant(x).value, ParseTolerant(y).value, ParseTolerant(z).value);
  }

  /** Text that does not parse is never newer and never has anything newer than it. */
  lemma NewerFailSafe(bad: string, other: string)
    requires ParseTolerant(bad).None?
    ensures !IsNewerVersion(bad, other) && !IsNewerVersion(other, bad)
  {
  }

  /** Between rendered versions the answer is precedence; a `v` in front of either side makes no difference. */
  lemma NewerRendered(a: SemVer.Version, b: SemVer.Version)
    requires WellFormed(a) && WellFormed(b)
    ensures IsNewerVersion(Render(a), Render(b)) == Less(a, b)
    ensures IsNewerVersion("v" + Render(a), Render(b)) == Less(a, b)
    ensures IsNewerVersion(Render(a), "v" + Render(b)) == Less(a, b)
  {
    ParseTolerantRender(a);
    ParseTolerantRender(b);
    ParseTolerantVRender(a);
    ParseTolerantVRender(b);
  }

  /** Versions differing only in build metadata are not newer than each other. */
  lemma NewerIgnoresBuild(a: SemVer.Version, b: SemVer.Version)
    requires WellFormed(a) && WellFormed(b) && SamePrecedence(a, b)
    ensures !IsNewerVersion(Render(a), Render(b)) && !IsNewerVersion(Render(b), Render(a))
  {
    NewerRendered(a, b);
    NewerRendered(b, a);
    CompareTrichotomy(a, b);
  }

  /** Each side of the three comparisons the package's tests make, one version at a time. */
  lemma ThreeDigitVersion(major: nat, minor: nat, patch: nat, text: string)
    requires major < 10 && minor < 10 && patch < 10
    requires text == [DigitChar(major), '.', DigitChar(minor), '.', DigitChar(patch)]
    ensures ParseTolerant(text) == Some(SemVer.Version(major, minor, patch, [], []))
  {
    var v := SemVer.Version(major, minor, patch, [], []);
    assert Render(v) == text;
    ParseTolerantRender(v);
  }

  /** Once both sides are parsed, the answer is their precedence. */
  lemma NewerOfParsed(current: string, latest: string, c: SemVer.Version, l: SemVer.Version)
    requires ParseTolerant(current) == Some(c) && ParseTolerant(latest) == Some(l)
    ensures IsNewerVersion(current, latest) == Less(c, l)
  {
  }

  /** 1.2.4 is newer than 1.2.3. */
  lemma NewerPatchExample(v123: string, v124: string)
    requires v123 == "1.2.3" && v124 == "1.2.4"
    ensures IsNewerVersion(v123, v124)
  {
    ThreeDigitVersion(1, 2, 3, v123);
    ThreeDigitVersion(1, 2, 4, v124);
    NewerOfParsed(v123, v124, SemVer.Version(1, 2, 3, [], []), SemVer.Version(1, 2, 4, [], []));
  }

  /** 1.2.3 is not newer than itself. */
  lemma NewerSameExample(v123: string)
    requires v123 == "1.2.3"
    ensures !IsNewerVersion(v123, v123)
  {
    NewerIrreflexive(v123);
  }

  /** 1.2.9 is not newer than 1.3.0. */
  lemma NewerOlderExample(v130: string, v129: string)
    requires v130 == "1.3.0" && v129 == "1.2.9"
    ensures !IsNewerVersion(v130, v129)
  {
    ThreeDigitVersion(1, 3, 0, v130);
    ThreeDigitVersion(1, 2, 9, v129);
    NewerOfParsed(v130, v129, SemVer.Version(1, 3, 0, [], []), SemVer.Version(1, 2, 9, [], []));
  }

  // ------------------------------------------------------------- dry-run accumulator

  /** The arrow exactly as the source text holds it: the three runes U+00E2, U+2020, U+2019. */
  const Arrow: string := "\U{00E2}\U{2020}\U{2019}"

  /** The accumulator line for one would-be update: ``- `module`: **current <arrow> latest**``. */
  function DryRunLine(path: string, current: string, latest: string): string {
    "- `" + path + "`: **" + current + " " + Arrow + " " + latest + "**"
  }

  /** The module named by an accumulator line: the text between the first two back-quotes. */
  function ModuleOfLine(line: string): Option<string> {
    if !HasPrefix(line, "- `") then None
    else match IndexOf(line[3..], '`')
      case None => None
      case Some(k) => Some(line[3..][..k])
  }

  /** A line names its module back, as long as the module path has no back-quote. */
  lemma DryRunLineModule(path: string, current: string, latest: string)
    requires '`' !in path
    ensures ModuleOfLine(DryRunLine(path, current, latest)) == Some(path)
  {
    var line := DryRunLine(path, current, latest);
    var rest := ": **" + current + " " + Arrow + " " + latest + "**";
    assert line == "- `" + path + ['`'] + rest;
    assert line[..3] == "- `";
    assert line[3..] == path + ['`'] + rest;
    IndexOfAfter(path, '`', rest);
    assert (path + ['`'] + rest)[..|path|] == path;
  }

  /** A line stays one line: no newline enters it unless an argument holds one. */
  lemma DryRunLineOneLine(path: string, current: string, latest: string)
    requires '\n' !in path && '\n' !in current && '\n' !in latest
    ensures '\n' !in DryRunLine(path, current, latest)
  {
    assert '\n' !in Arrow;
  }

  /** The go.mod require target `go get` is handed outside dry-run: `module@latest`. */
  function GoGetTarget(path: string, latest: string): string {
    path + "@" + latest
  }

  /** The package-level `dryRunReport` slice and the three functions that use it. */
  class DryRunLog {
    var lines: seq<string>

    constructor()
      ensures lines == []
    {
      lines := [];
    }

    /**
      `UpdateDependency`. In dry-run it appends one line and returns no error without running
      anything; otherwise it hands `module@latest` to `go get` (whose outcome is `goGetError`)
      and returns that outcome, leaving the accumulator alone.
     */
    method UpdateDependency(path: string, current: string, latest: string, dryRun: bool,
                            goGetError: Option<string>)
      returns (err: Option<string>, ran: Option<string>)
      modifies this
      ensures dryRun ==> lines == old(lines) + [DryRunLine(path, current, latest)] && err.None? && ran.None?
      ensures !dryRun ==> lines == old(lines) && err == goGetError && ran == Some(GoGetTarget(path, latest))
    {
      if dryRun {
        lines := lines + [DryRunLine(path, current, latest)];
        return None, None;
      }
      ran := Some(GoGetTarget(path, latest));
      err := goGetError;
    }

    /** `GetDryRunReport`: the accumulated lines, oldest first. */
    method GetDryRunReport() returns (r: seq<string>)
      ensures r == lines
    {
      r := lines;
    }

    /** `ClearDryRunReport`. */
    method ClearDryRunReport()
      modifies this
      ensures lines == []
    {
      lines := [];
    }
  }

  /** The lines a run of dry-run updates leaves behind, one per update in call order. */
  function DryRunLines(updates: seq<(string, string, string)>): (r: seq<string>)
    ensures |r| == |updates|
    ensures forall k :: 0 <= k < |updates| ==> r[k] == DryRunLine(updates[k].0, updates[k].1, updates[k].2)
  {
    if updates == [] then []
    else DryRunLines(updates[..|updates| - 1])
         + [DryRunLine(updates[|updates| - 1].0, updates[|updates| - 1].1, updates[|updates| - 1].2)]
  }

  /** Fresh log, a sequence of dry-run updates, then a read: the lines in call order; a clear then empties it. */
  method DryRunSession(updates: seq<(string, string, string)>) returns (report: seq<string>, afterClear: seq<string>)
    ensures report == DryRunLines(updates)
    ensures afterClear == []
  {
    var log := new DryRunLog();
    var i := 0;
    while i < |updates|
      invariant 0 <= i <= |updates|
      invariant log.lines == DryRunLines(updates[..i])
    {
      var u := updates[i];
      assert updates[..i + 1][..i] == updates[..i];
      var _, _ := log.UpdateDependency(u.0, u.1, u.2, true, None);
      i := i + 1;
    }
    assert updates[..i] == updates;
    report := log.GetDryRunReport();
    log.ClearDryRunReport();
    afterClear := log.GetDryRunReport();
  }

  // ------------------------------------------------------------- repository slug

  /** `[^/]+?(?:\.git)?$` on what follows the slash: the shortest non-empty name, so `.git` goes only when something is left. */
  function StripGit(name: string): (r: string)
    ensures |name| > 4 && name[|name| - 4..] == ".git" ==> r == name[..|name| - 4]
    ensures !(|name| > 4 && name[|name| - 4..] == ".git") ==> r == name
  {
    if |name| > 4 && name[|name| - 4..] == ".git" then name[..|name| - 4] else name
  }

  /** The capture group of `owner/name` once the pattern's `[:/]` is behind: both parts non-empty and slash-free. */
  function SlugOf(rest: string): (r: Option<string>) {
    match IndexOf(rest, '/')
    case None => None
    case Some(k) =>
      var owner, name := rest[..k], rest[k + 1..];
      if owner != [] && name != [] && '/' !in name then Some(owner + "/" + StripGit(name)) else None
  }

  /** The capture group when the pattern's `[:/]` sits at index `i`. */
  function SlugAt(url: string, i: nat): (r: Option<string>)
    requires i < |url|
  {
    if url[i] != ':' && url[i] != '/' then None else SlugOf(url[i + 1..])
  }

  /** The capture at every start, in order. */
  function Matches(url: string): (m: seq<Option<string>>)
    ensures |m| == |url|
    ensures forall j :: 0 <= j < |url| ==> m[j] == SlugAt(url, j)
  {
    seq(|url|, j requires 0 <= j < |url| => SlugAt(url, j))
  }

  /** The pattern is tried at every start from `i` on; the first start that matches wins. */
  function First<T>(m: seq<Option<T>>, i: nat): Option<T>
    requires i <= |m|
    decreases |m| - i
  {
    if i == |m| then None
    else if m[i].Some? then m[i]
    else First(m, i + 1)
  }

  /** The search from `i` finds something exactly when some start from `i` on matches. */
  lemma {:induction false} FirstFound<T>(m: seq<Option<T>>, i: nat)
    requires i <= |m|
    ensures First(m, i).Some? <==> exists j :: i <= j < |m| && m[j].Some?
    decreases |m| - i
  {
    if i < |m| && m[i].None? {
      FirstFound(m, i + 1);
      if exists j :: i <= j < |m| && m[j].Some? {
        var j :| i <= j < |m| && m[j].Some?;
        assert j != i;
      }
    }
  }

  /** What the search finds is the capture at the leftmost start that matches. */
  lemma {:induction false} FirstLeftmost<T>(m: seq<Option<T>>, i: nat)
    requires i <= |m| && First(m, i).Some?
    ensures exists j :: i <= j < |m| && m[j] == First(m, i) && forall k :: i <= k < j ==> m[k].None?
    decreases |m| - i
  {
    if m[i].Some? {
      assert m[i] == First(m, i);
    } else {
      FirstLeftmost(m, i + 1);
      var j :| i + 1 <= j < |m| && m[j] == First(m, i + 1) && forall k :: i + 1 <= k < j ==> m[k].None?;
      assert forall k :: i <= k < j ==> m[k].None?;
    }
  }

  /** If every start before `p` fails and `p` matches, the search from `i` finds `p`'s capture. */
  lemma {:induction false} FirstFrom<T>(m: seq<Option<T>>, i: nat, p: nat)
    requires i <= p < |m|
    requires forall j :: i <= j < p ==> m[j].None?
    requires m[p].Some?
    ensures First(m, i) == m[p]
    decreases p - i
  {
    if i < p {
      FirstFrom(m, i + 1, p);
    }
  }

  /** `extractRepoSlug`: the capture of the leftmost match, or the error naming the URL. */
  function ExtractRepoSlug(url: string): (r: Result<string, string>)
    ensures r.Err? <==> forall j :: 0 <= j < |url| ==> SlugAt(url, j).None?
    ensures r.Err? ==> r.error == "could not parse repository from remote: " + url
    ensures r.Ok? ==> exists j :: 0 <= j < |url| && SlugAt(url, j) == Some(r.value)
                                  && forall k :: 0 <= k < j ==> SlugAt(url, k).None?
  {
    var m := Matches(url);
    FirstFound(m, 0);
    if First(m, 0).Some? then
      FirstLeftmost(m, 0);
      Ok(First(m, 0).value)
    else
      Err("could not parse repository from remote: " + url)
  }

  predicate EndsWith(s: string, suffix: string) {
    |suffix| <= |s| && s[|s| - |suffix|..] == suffix
  }

  /** A capture is `owner/name`, neither part empty nor holding a slash, and the text ends with it, or with it and `.git`. */
  lemma SlugOfShape(rest: string)
    requires SlugOf(rest).Some?
    ensures exists owner, name ::
      && SlugOf(rest) == Some(owner + "/" + name)
      && owner != [] && name != [] && '/' !in owner && '/' !in name
      && (rest == owner + "/" + name || rest == owner + "/" + name + ".git")
  {
    var k := IndexOf(rest, '/').value;
    var owner, full := rest[..k], rest[k + 1..];
    CutAtSlash(rest);
    NameParts(full);
    var name := StripGit(full);
    assert && SlugOf(rest) == Some(owner + "/" + name)
           && owner != [] && name != [] && '/' !in owner && '/' !in name
           && (rest == owner + "/" + name || rest == owner + "/" + name + ".git");
  }

  /** A capture comes from cutting at the first slash: owner before it, a slash-free name after it. */
  lemma CutAtSlash(rest: string)
    requires SlugOf(rest).Some?
    ensures IndexOf(rest, '/').Some?
    ensures var k := IndexOf(rest, '/').value;
      && rest == rest[..k] + "/" + rest[k + 1..]
      && SlugOf(rest) == Some(rest[..k] + "/" + StripGit(rest[k + 1..]))
      && rest[..k] != [] && rest[k + 1..] != [] && '/' !in rest[..k] && '/' !in rest[k + 1..]
  {
    var k := IndexOf(rest, '/').value;
    assert rest == rest[..k] + "/" + rest[k + 1..];
  }

  /** Dropping `.git` from a non-empty slash-free name leaves a non-empty slash-free name, and the suffix if there was one. */
  lemma NameParts(full: string)
    requires full != [] && '/' !in full
    ensures StripGit(full) != [] && '/' !in StripGit(full)
    ensures full == StripGit(full) || full == StripGit(full) + ".git"
  {
    var name := StripGit(full);
    if name != full {
      assert full == name + ".git";
      assert forall j :: 0 <= j < |name| ==> name[j] == full[j];
    }
  }

  /** Whatever matches at `i` is `owner/name` at the very end of the URL, with or without `.git` after it. */
  lemma SlugShape(url: string, i: nat)
    requires i < |url| && SlugAt(url, i).Some?
    ensures exists owner, name ::
      && SlugAt(url, i) == Some(owner + "/" + name)
      && owner != [] && name != [] && '/' !in owner && '/' !in name
      && (EndsWith(url, owner + "/" + name) || EndsWith(url, owner + "/" + name + ".git"))
  {
    var rest := url[i + 1..];
    SlugOfShape(rest);
    var owner, name :| && SlugOf(rest) == Some(owner + "/" + name)
      && owner != [] && name != [] && '/' !in owner && '/' !in name
      && (rest == owner + "/" + name || rest == owner + "/" + name + ".git");
    assert EndsWith(url, rest);
  }

  /** `owner/name` right after the separator matches, with the name's `.git` dropped. */
  lemma SlugOfPair(owner: string, name: string)
    requires owner != [] && name != [] && '/' !in owner && '/' !in name
    ensures SlugOf(owner + "/" + name) == Some(owner + "/" + StripGit(name))
  {
    var rest := owner + "/" + name;
    assert rest == owner + ['/'] + name;
    IndexOfAfter(owner, '/', name);
    assert rest[..|owner|] == owner && rest[|owner| + 1..] == name;
  }

  /** Text holding two slashes, the second after the first, never matches. */
  lemma SlugOfTwoSlashes(rest: string, first: nat, second: nat)
    requires first < second < |rest| && rest[first] == '/' && rest[second] == '/'
    ensures SlugOf(rest).None?
  {
    var k := IndexOf(rest, '/').value;
    assert k <= first;
    assert rest[k + 1..][second - k - 1] == '/';
  }

  /**
    A URL that is a prefix, one separator, `owner/name` and nothing else yields
    `owner/StripGit(name)`, provided no earlier position can start a match: either the
    separator is a slash (then every earlier start sees two slashes), or the prefix holds
    neither `:` nor `/`.
   */
  lemma SlugAfterSeparator(url: string, prefix: string, sep: char, owner: string, name: string)
    requires sep == ':' || sep == '/'
    requires owner != [] && name != [] && '/' !in owner && '/' !in name
    requires sep == '/' || forall j :: 0 <= j < |prefix| ==> prefix[j] != ':' && prefix[j] != '/'
    requires url == prefix + [sep] + owner + "/" + name
    ensures ExtractRepoSlug(url) == Ok(owner + "/" + StripGit(name))
  {
    var p := |prefix|;
    assert url[p] == sep && url[p + 1..] == owner + "/" + name;
    SlugOfPair(owner, name);
    var m := Matches(url);
    forall j | 0 <= j < p
      ensures m[j].None?
    {
      NoEarlierMatch(url, prefix, sep, owner, name, j);
    }
    FirstFrom(m, 0, p);
  }

  /** No start inside the prefix matches. */
  lemma NoEarlierMatch(url: string, prefix: string, sep: char, owner: string, name: string, j: nat)
    requires sep == ':' || sep == '/'
    requires '/' !in name
    requires sep == '/' || forall j :: 0 <= j < |prefix| ==> prefix[j] != ':' && prefix[j] != '/'
    requires url == prefix + [sep] + owner + "/" + name
    requires j < |prefix|
    ensures SlugAt(url, j).None?
  {
    var p := |prefix|;
    if sep == '/' && (url[j] == ':' || url[j] == '/') {
      var r := url[j + 1..];
      assert r[p - j - 1] == '/' && r[p + |owner| - j] == '/';
      SlugOfTwoSlashes(r, p - j - 1, p + |owner| - j);
    } else {
      assert url[j] == prefix[j];
    }
  }

  lemma StripGitSuffix(repo: string)
    requires repo != []
    ensures StripGit(repo + ".git") == repo
  {
    var name := repo + ".git";
    assert name[|name| - 4..] == ".git";
    assert name[..|name| - 4] == repo;
  }

  /** An HTTPS remote `https://<host>/<owner>/<repo>.git` gives `<owner>/<repo>`. */
  lemma SlugHttps(url: string, host: string, owner: string, repo: string)
    requires owner != [] && repo != [] && '/' !in owner && '/' !in repo
    requires url == "https://" + host + "/" + owner + "/" + repo + ".git"
    ensures ExtractRepoSlug(url) == Ok(owner + "/" + repo)
  {
    StripGitSuffix(repo);
    assert '/' !in repo + ".git";
    assert url == "https://" + host + ['/'] + owner + "/" + (repo + ".git");
    SlugAfterSeparator(url, "https://" + host, '/', owner, repo + ".git");
  }

  /** An `ssh://` remote `ssh://<user@host>/<owner>/<repo>` gives `<owner>/<repo>`. */
  lemma SlugSsh(url: string, host: string, owner: string, repo: string)
    requires owner != [] && repo != [] && '/' !in owner && '/' !in repo && !EndsWith(repo, ".git")
    requires url == "ssh://" + host + "/" + owner + "/" + repo
    ensures ExtractRepoSlug(url) == Ok(owner + "/" + repo)
  {
    assert url == "ssh://" + host + ['/'] + owner + "/" + repo;
    SlugAfterSeparator(url, "ssh://" + host, '/', owner, repo);
  }

  /** An scp-style remote `<user@host>:<owner>/<repo>.git` gives `<owner>/<repo>`, when the host part holds no `:` or `/`. */
  lemma SlugScp(url: string, host: string, owner: string, repo: string)
    requires owner != [] && repo != [] && '/' !in owner && '/' !in repo
    requires ':' !in host && '/' !in host
    requires url == host + ":" + owner + "/" + repo + ".git"
    ensures ExtractRepoSlug(url) == Ok(owner + "/" + repo)
  {
    StripGitSuffix(repo);
    assert '/' !in repo + ".git";
    assert url == host + [':'] + owner + "/" + (repo + ".git");
    SlugAfterSeparator(url, host, ':', owner, repo + ".git");
  }

  // ------------------------------------------------------------- the repository name

  /** What one `git remote get-url` run gives back: its combined output and, when it failed, the error. */
  datatype CommandOutcome = CommandOutcome(output: string, failure: Option<string>)

  /** `execCmd`'s result text: the output with surrounding white space trimmed. */
  function CommandText(c: CommandOutcome): string {
    TrimSpace(c.output)
  }

  /**
    `GetRepoName`: the slug of the `upstream` remote's URL; when that run failed or printed
    only white space, the slug of `origin`'s URL, or `origin`'s own error when that run failed too.
   */
  function GetRepoName(upstream: CommandOutcome, origin: CommandOutcome): (r: Result<string, string>)
    ensures upstream.failure.None? && !AllSpace(upstream.output) ==> r == ExtractRepoSlug(CommandText(upstream))
    ensures (upstream.failure.Some? || AllSpace(upstream.output)) && origin.failure.Some?
            ==> r == Err(origin.failure.value)
    ensures (upstream.failure.Some? || AllSpace(upstream.output)) && origin.failure.None?
            ==> r == ExtractRepoSlug(CommandText(origin))
  {
    CommandTextTrimmed(upstream);
    CommandTextTrimmed(origin);
    var remoteUrl := TrimSpace(CommandText(upstream));
    if upstream.failure.Some? || remoteUrl == "" then
      if origin.failure.Some? then Err(origin.failure.value)
      else ExtractRepoSlug(TrimSpace(CommandText(origin)))
    else ExtractRepoSlug(remoteUrl)
  }

  /** Trimming the text again changes nothing, and the text is empty exactly when the output is all white space. */
  lemma CommandTextTrimmed(c: CommandOutcome)
    ensures TrimSpace(CommandText(c)) == CommandText(c)
    ensures CommandText(c) == [] <==> AllSpace(c.output)
  {
    var out := c.output;
    TrimSpaceEmpty(out);
    TrimSpaceIdempotent(out);
  }

  /** A repository whose `upstream` lookup fails is named after its HTTPS `origin`, whatever `upstream` printed. */
  lemma RepoNameFromOrigin(upstream: CommandOutcome, origin: CommandOutcome, host: string, owner: string, repo: string)
    requires upstream.failure.Some? && origin.failure.None?
    requires owner != [] && repo != [] && '/' !in owner && '/' !in repo
    requires origin.output == "https://" + host + "/" + owner + "/" + repo + ".git"
    ensures GetRepoName(upstream, origin) == Ok(owner + "/" + repo)
  {
    var url := origin.output;
    assert url[0] == 'h' && url[|url| - 1] == 't';
    TrimSpaceUnchanged(url);
    SlugHttps(url, host, owner, repo);
  }

  /** An `upstream` remote that answers with a URL takes precedence over `origin`. */
  lemma RepoNamePrefersUpstream(upstream: CommandOutcome, origin: CommandOutcome, host: string, owner: string, repo: string)
    requires upstream.failure.None?
    requires owner != [] && repo != [] && '/' !in owner && '/' !in repo
    requires upstream.output == "https://" + host + "/" + owner + "/" + repo + ".git"
    ensures GetRepoName(upstream, origin) == Ok(owner + "/" + repo)
  {
    var url := upstream.output;
    assert url[0] == 'h' && url[|url| - 1] == 't';
    assert !IsSpace(url[0]);
    TrimSpaceUnchanged(url);
    SlugHttps(url, host, owner, repo);
  }

  // ------------------------------------------------------------- go.mod requires

  /** One `require` line of go.mod: a module path and its version. */
  datatype Require = Require(path: string, version: string)

  /** The map the require list folds into: each require overwrites its path's entry. */
  function RequireMap(reqs: seq<Require>): map<string, string> {
    if reqs == [] then map[]
    else RequireMap(reqs[..|reqs| - 1])[reqs[|reqs| - 1].path := reqs[|reqs| - 1].version]
  }

  /** The keys are exactly the required paths. */
  lemma {:induction false} RequireMapKeys(reqs: seq<Require>)
    ensures RequireMap(reqs).Keys == set k | 0 <= k < |reqs| :: reqs[k].path
  {
    if reqs != [] {
      var init := reqs[..|reqs| - 1];
      RequireMapKeys(init);
      assert forall k :: 0 <= k < |init| ==> init[k] == reqs[k];
      var s := set k | 0 <= k < |reqs| :: reqs[k].path;
      var t := set k | 0 <= k < |init| :: init[k].path;
      assert s == t + {reqs[|reqs| - 1].path} by {
        forall x | x in s ensures x in t + {reqs[|reqs| - 1].path} {
          var k :| 0 <= k < |reqs| && reqs[k].path == x;
          if k < |init| {
            assert init[k].path == x;
          }
        }
      }
    }
  }

  /** A path's entry is the version of its last require. */
  lemma {:induction false} RequireMapLast(reqs: seq<Require>, i: nat)
    requires i < |reqs|
    requires forall j :: i < j < |reqs| ==> reqs[j].path != reqs[i].path
    ensures reqs[i].path in RequireMap(reqs) && RequireMap(reqs)[reqs[i].path] == reqs[i].version
  {
    var init := reqs[..|reqs| - 1];
    if i < |reqs| - 1 {
      assert forall j :: i < j < |init| ==> init[j] == reqs[j];
      RequireMapLast(init, i);
    }
  }

  /** The loop of `GetDependencies` over the already-parsed require list. */
  method GetDependencies(reqs: seq<Require>) returns (deps: map<string, string>)
    ensures deps.Keys == set k | 0 <= k < |reqs| :: reqs[k].path
    ensures forall i :: 0 <= i < |reqs| && (forall j :: i < j < |reqs| ==> reqs[j].path != reqs[i].path)
                        ==> deps[reqs[i].path] == reqs[i].version
  {
    deps := map[];
    var i := 0;
    while i < |reqs|
      invariant 0 <= i <= |reqs|
      invariant deps == RequireMap(reqs[..i])
    {
      assert reqs[..i + 1][..i] == reqs[..i];
      deps := deps[reqs[i].path := reqs[i].version];
      i := i + 1;
    }
    assert reqs[..i] == reqs;
    RequireMapKeys(reqs);
    forall i | 0 <= i < |reqs| && (forall j :: i < j < |reqs| ==> reqs[j].path != reqs[i].path)
      ensures deps[reqs[i].path] == reqs[i].version
    {
      RequireMapLast(reqs, i);
    }
  }
}
