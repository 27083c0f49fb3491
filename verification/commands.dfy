/**
  The decisions of the `update-dependencies` command: the default base remote and branch,
  the `--remote` flag, the fallback to `origin`, the `HEAD branch:` scan, the update plan
  over the dependency entries, the early exit, the branch name and commit message of the
  pull request, and the preflight summary. Every subprocess, environment probe and lookup
  is a parameter.
 */
module Commands {
  import opened Wrappers
  import opened Strings
  import SemVer
  import Version
  import Deps
  import GitHub

  const Upstream: string := "upstream"
  const Origin: string := "origin"
  const Artifactory: string := "jfrog/jfrog-cli-artifactory"

  // ------------------------------------------------------------- default base

  /** `resolveDefaultBase`: always the `upstream` remote; branch `main` for the Artifactory plugin, `dev` otherwise. */
  function ResolveDefaultBase(repo: string): (base: (string, string))
    ensures base.0 == Upstream
    ensures base.1 == "main" <==> repo == Artifactory
    ensures base.1 == "main" || base.1 == "dev"
  {
    (Upstream, if repo == Artifactory then "main" else "dev")
  }

  /** The command's default branch is the branch its pull requests target. */
  lemma DefaultBaseIsPRBase(repo: string)
    ensures ResolveDefaultBase(repo).1 == GitHub.BaseBranch(repo)
  {
  }

  /** The package's own examples: `upstream/dev` for any repository but the plugin, `upstream/main` for it. */
  lemma DefaultBaseExamples(other: string)
    requires other == "some/other"
    ensures ResolveDefaultBase(other) == ("upstream", "dev")
    ensures ResolveDefaultBase("jfrog/jfrog-cli-artifactory") == ("upstream", "main")
  {
    assert other[0] != Artifactory[0];
  }

  // ------------------------------------------------------------- branch name

  const BranchPrefix: string := "update-dependencies-"

  /** `buildBranchName`: the override when it holds anything but white space, else the generated name. */
  function BuildBranchName(override: string, next: string): (name: string)
    ensures TrimSpace(override) != [] ==> name == override
    ensures TrimSpace(override) == [] ==> name == BranchPrefix + next
  {
    if TrimSpace(override) != "" then override else BranchPrefix + next
  }

  /** A blank override gives the generated name, from which the version reads back. */
  lemma GeneratedBranchName(override: string, next: string)
    requires AllSpace(override)
    ensures HasPrefix(BuildBranchName(override, next), BranchPrefix)
    ensures TrimPrefix(BuildBranchName(override, next), BranchPrefix) == next
  {
    TrimSpaceEmpty(override);
    var name := BranchPrefix + next;
    assert name[..|BranchPrefix|] == BranchPrefix;
    assert name[|BranchPrefix|..] == next;
  }

  /** An override with one visible character is kept exactly. */
  lemma OverrideKept(override: string, next: string, i: nat)
    requires i < |override| && !IsSpace(override[i])
    ensures BuildBranchName(override, next) == override
  {
    TrimSpaceEmpty(override);
  }

  /** The package's own examples: no override gives `update-dependencies-1.2.3`; `custom-name` is kept. */
  lemma BranchNameExamples(custom: string)
    requires custom == "custom-name"
    ensures BuildBranchName("", "1.2.3") == "update-dependencies-1.2.3"
    ensures BuildBranchName(custom, "1.2.3") == "custom-name"
  {
    assert AllSpace("");
    TrimSpaceEmpty("");
    OverrideKept(custom, "1.2.3", 0);
  }

  // ------------------------------------------------------------- the --remote flag

  /** `strings.SplitN(s, sep, 2)`: the text before the first separator and the text after it, or the whole text. */
  function SplitOnce(s: string, sep: char): (parts: seq<string>)
    ensures 1 <= |parts| <= 2
    ensures |parts| == 1 <==> sep !in s
    ensures |parts| == 1 ==> parts[0] == s
    ensures |parts| == 2 ==> s == parts[0] + [sep] + parts[1] && sep !in parts[0]
  {
    match IndexOf(s, sep)
    case None => [s]
    case Some(k) =>
      assert s == s[..k] + [sep] + s[k + 1..];
      [s[..k], s[k + 1..]]
  }

  /** Splitting at the first separator undoes joining with it, when the first part holds none. */
  lemma SplitOnceJoin(a: string, sep: char, b: string)
    requires sep !in a
    ensures SplitOnce(a + [sep] + b, sep) == [a, b]
  {
    var s := a + [sep] + b;
    IndexOfAfter(a, sep, b);
    assert s[..|a|] == a && s[|a| + 1..] == b;
  }

  const InvalidRemote: string := "invalid --remote value; expected <remote>/<branch>"

  /**
    The base the `--remote` flag selects: the default when the trimmed flag is empty;
    otherwise the two sides of its first slash, both required non-empty (the branch may hold
    further slashes).
   */
  function RemoteFlag(flag: string, default: (string, string)): (r: Result<(string, string), string>)
    ensures TrimSpace(flag) == [] ==> r == Ok(default)
    ensures TrimSpace(flag) != [] && r.Ok? ==>
              && TrimSpace(flag) == r.value.0 + "/" + r.value.1
              && r.value.0 != [] && r.value.1 != [] && '/' !in r.value.0
    ensures r.Err? ==> r.error == InvalidRemote
  {
    var userBase := TrimSpace(flag);
    if userBase == "" then Ok(default)
    else
      var parts := SplitOnce(userBase, '/');
      if |parts| != 2 || parts[0] == "" || parts[1] == "" then Err(InvalidRemote)
      else Ok((parts[0], parts[1]))
  }

  /** `<remote>/<branch>`, with nothing around it to trim, selects exactly that remote and branch. */
  lemma RemoteFlagRoundTrip(remote: string, branch: string, default: (string, string))
    requires remote != [] && branch != [] && '/' !in remote
    requires !IsSpace(remote[0]) && !IsSpace(branch[|branch| - 1])
    ensures RemoteFlag(remote + "/" + branch, default) == Ok((remote, branch))
  {
    var s := remote + "/" + branch;
    assert s[0] == remote[0] && s[|s| - 1] == branch[|branch| - 1];
    TrimSpaceUnchanged(s);
    SplitOnceJoin(remote, '/', branch);
  }

  /** A visible flag is rejected when it has no slash, starts with one, or has nothing after its first one. */
  lemma RemoteFlagRejects(flag: string, default: (string, string))
    requires TrimSpace(flag) != []
    requires var u := TrimSpace(flag);
      '/' !in u || u[0] == '/' || (u[|u| - 1] == '/' && '/' !in u[..|u| - 1])
    ensures RemoteFlag(flag, default) == Err(InvalidRemote)
  {
  }

  // ------------------------------------------------------------- the remote check

  function RemoteNotFound(remote: string): string {
    "remote '" + remote + "' not found; configure it first"
  }

  /**
    The remote check on the output of `git remote` (a substring test): the chosen base when
    its remote is listed; an error when it is not and the user named it; otherwise `origin`,
    which must be listed, with the branch after the first slash of its detected default
    branch when one was detected.
   */
  function CheckRemote(remotes: string, base: (string, string), userGiven: bool, detected: string)
    : (r: Result<(string, string), string>)
    ensures Contains(remotes, base.0) ==> r == Ok(base)
    ensures !Contains(remotes, base.0) && userGiven ==> r == Err(RemoteNotFound(base.0))
    ensures r.Ok? ==> Contains(remotes, r.value.0)
    ensures r.Ok? && r != Ok(base) ==> r.value.0 == Origin && !userGiven && !Contains(remotes, base.0)
  {
    if Contains(remotes, base.0) then Ok(base)
    else if userGiven then Err(RemoteNotFound(base.0))
    else if !Contains(remotes, Origin) then Err(RemoteNotFound(Origin))
    else
      var parts := SplitOnce(detected, '/');
      if detected != "" && |parts| == 2 then Ok((Origin, parts[1])) else Ok((Origin, base.1))
  }

  /** Falling back to `origin` with a detected `origin/<name>` selects that name, slashes and all. */
  lemma FallbackToDetected(remotes: string, base: (string, string), name: string)
    requires !Contains(remotes, base.0) && Contains(remotes, Origin)
    ensures CheckRemote(remotes, base, false, Origin + "/" + name) == Ok((Origin, name))
  {
    SplitOnceJoin(Origin, '/', name);
  }

  /** Falling back to `origin` with nothing detected keeps the default branch. */
  lemma FallbackKeepsBranch(remotes: string, base: (string, string))
    requires !Contains(remotes, base.0) && Contains(remotes, Origin)
    ensures CheckRemote(remotes, base, false, "") == Ok((Origin, base.1))
  {
  }

  /**
    Because the check is a substring test, a remote that is a prefix of a configured one
    passes it: `--remote up/dev` is accepted when only `upstream` is configured.
   */
  lemma PrefixRemotePasses(remotes: string)
    requires remotes == "upstream\n"
    ensures CheckRemote(remotes, ("up", "dev"), true, "") == Ok(("up", "dev"))
  {
    assert remotes == "" + "up" + "stream\n";
    ContainsInside("", "up", "stream\n");
  }

  // ------------------------------------------------------------- HEAD branch scan

  const HeadBranch: string := "HEAD branch:"

  /**
    The branch one line of `git remote show` names: the trimmed line must start with
    `HEAD branch:`, and the name is the trimmed text after its first colon, if not empty.
   */
  function HeadName(line: string): (name: Option<string>)
    ensures name.Some? ==> name.value != [] && HasPrefix(TrimSpace(line), HeadBranch)
  {
    NameAfterColon(TrimSpace(line))
  }

  /** The name a trimmed line gives. */
  function NameAfterColon(t: string): (name: Option<string>)
    ensures name.Some? ==> name.value != [] && HasPrefix(t, HeadBranch)
  {
    if !HasPrefix(t, HeadBranch) then None
    else
      var parts := SplitOnce(t, ':');
      if |parts| != 2 then None
      else
        var name := TrimSpace(parts[1]);
        if name != "" then Some(name) else None
  }

  /** The first colon of such a line is the one that closes `HEAD branch:`, so the name is what follows the prefix. */
  lemma NameAfterPrefix(t: string)
    requires HasPrefix(t, HeadBranch)
    ensures var name := TrimSpace(t[|HeadBranch|..]);
      NameAfterColon(t) == if name != [] then Some(name) else None
  {
    var after := t[|HeadBranch|..];
    assert t == HeadBranch + after;
    assert HeadBranch == "HEAD branch" + [':'];
    assert ':' !in "HEAD branch";
    SplitOnceJoin("HEAD branch", ':', after);
  }

  /** What each line names, in order. */
  function Names(lines: seq<string>, name: string -> Option<string>): (names: seq<Option<string>>)
    ensures |names| == |lines|
  {
    seq(|lines|, i requires 0 <= i < |lines| => name(lines[i]))
  }

  /** Some line names something exactly when the scan finds a name. */
  lemma FirstNamed(lines: seq<string>, name: string -> Option<string>)
    ensures Deps.First(Names(lines, name), 0).Some? <==> exists i :: 0 <= i < |lines| && name(lines[i]).Some?
  {
    var names := Names(lines, name);
    Deps.FirstFound(names, 0);
    if exists i :: 0 <= i < |lines| && name(lines[i]).Some? {
      var i :| 0 <= i < |lines| && name(lines[i]).Some?;
      assert names[i].Some?;
    }
  }

  /** The scan finds the name of the first line that names something. */
  lemma FirstNamedAt(lines: seq<string>, name: string -> Option<string>, i: nat)
    requires i < |lines| && name(lines[i]).Some?
    requires forall j :: 0 <= j < i ==> name(lines[j]).None?
    ensures Deps.First(Names(lines, name), 0) == name(lines[i])
  {
    Deps.FirstFrom(Names(lines, name), 0, i);
  }

  /**
    What `detectDefaultRemoteBranch` returns: the trimmed output of `git symbolic-ref` when
    that succeeded; otherwise, when `git remote show` succeeded, `<remote>/<name>` for the
    first of its lines that names a branch; otherwise the empty string.
   */
  function DefaultRemoteBranch(remote: string, symbolicRef: Option<string>, showOut: Option<string>): string {
    if symbolicRef.Some? then TrimSpace(symbolicRef.value)
    else if showOut.None? then ""
    else BranchOf(remote, Split(showOut.value, '\n'), HeadName)
  }

  /** `<remote>/<name>` for the first line that names something, the empty string when none does. */
  function BranchOf(remote: string, lines: seq<string>, name: string -> Option<string>): string {
    match Deps.First(Names(lines, name), 0)
    case None => ""
    case Some(n) => remote + "/" + n
  }

  /** `detectDefaultRemoteBranch`, the two `git` calls given as their outcomes (`None` for a failure). */
  method DetectDefaultRemoteBranch(remote: string, symbolicRef: Option<string>, showOut: Option<string>)
    returns (detected: string)
    ensures detected == DefaultRemoteBranch(remote, symbolicRef, showOut)
  {
    if symbolicRef.Some? {
      return TrimSpace(symbolicRef.value);
    }
    if showOut.None? {
      return "";
    }
    var lines := Split(showOut.value, '\n');
    ghost var names := Names(lines, HeadName);
    var i := 0;
    while i < |lines|
      invariant 0 <= i <= |lines|
      invariant Deps.First(names, i) == Deps.First(names, 0)
    {
      var name := HeadName(lines[i]);
      assert names[i] == name;
      if name.Some? {
        return remote + "/" + name.value;
      }
      i := i + 1;
    }
    return "";
  }

  /** Without `git symbolic-ref`, nothing is detected when no line of `git remote show` names a branch. */
  lemma DetectedNone(remote: string, showOut: string)
    requires forall i :: 0 <= i < |Split(showOut, '\n')| ==> HeadName(Split(showOut, '\n')[i]).None?
    ensures DefaultRemoteBranch(remote, None, Some(showOut)) == ""
  {
    var names := Names(Split(showOut, '\n'), HeadName);
    Deps.FirstFound(names, 0);
    assert forall j :: 0 <= j < |names| ==> names[j].None?;
  }

  /** The detected branch is `<remote>/<name>` for the first line that names a branch. */
  lemma DetectedIsFirst(remote: string, showOut: string, i: nat)
    requires var lines := Split(showOut, '\n');
      && i < |lines| && HeadName(lines[i]).Some?
      && forall j :: 0 <= j < i ==> HeadName(lines[j]).None?
    ensures DefaultRemoteBranch(remote, None, Some(showOut)) == remote + "/" + HeadName(Split(showOut, '\n')[i]).value
  {
    FirstNamedAt(Split(showOut, '\n'), HeadName, i);
  }

  // ------------------------------------------------------------- base selection

  /** The ref `git rev-parse --verify` must find once the base is fetched. */
  function RemoteRef(base: (string, string)): string {
    "refs/remotes/" + base.0 + "/" + base.1
  }

  /**
    The base of the command, step by step as the command goes: the repository must be known,
    the `--remote` flag must be valid, the preflight must pass, `git remote` must succeed, the
    remote check must pass, and the fetched base must exist among `refs`. The fallback's
    branch detection runs on `origin`.
   */
  function SelectBase(repo: Result<string, string>, flag: string, preflight: Option<string>,
                      remotes: Result<string, string>, symbolicRef: Option<string>, showOut: Option<string>,
                      refs: set<string>): (r: Result<(string, string), string>)
    ensures r.Ok? ==> RemoteRef(r.value) in refs
    ensures r.Ok? ==> repo.Ok? && preflight.None? && remotes.Ok? && Contains(remotes.value, r.value.0)
    ensures r.Ok? && TrimSpace(flag) != "" ==> RemoteFlag(flag, ResolveDefaultBase(repo.value)) == r
    ensures r.Ok? && TrimSpace(flag) == "" && r.value.0 != Upstream ==> r.value.0 == Origin
  {
    if repo.Err? then Err("failed to detect repository: " + repo.error)
    else match RemoteFlag(flag, ResolveDefaultBase(repo.value))
      case Err(e) => Err(e)
      case Ok(base) =>
        if preflight.Some? then Err(preflight.value)
        else if remotes.Err? then Err("failed to list remotes: " + remotes.error)
        else
          var detected := DefaultRemoteBranch(Origin, symbolicRef, showOut);
          match CheckRemote(remotes.value, base, TrimSpace(flag) != "", detected)
          case Err(e) => Err(e)
          case Ok(chosen) =>
            if RemoteRef(chosen) in refs then Ok(chosen)
            else Err("base '" + chosen.0 + "/" + chosen.1 + "' not found after fetch")
  }

  /**
    The steps fail in the command's order, each with its own message: repository detection,
    the `--remote` flag, the preflight, `git remote`, the remote check, and the fetched ref;
    the base is selected exactly when none of them fails.
   */
  lemma SelectBaseSteps(repo: Result<string, string>, flag: string, preflight: Option<string>,
                        remotes: Result<string, string>, symbolicRef: Option<string>, showOut: Option<string>,
                        refs: set<string>)
    ensures var r := SelectBase(repo, flag, preflight, remotes, symbolicRef, showOut, refs);
      && (repo.Err? ==> r == Err("failed to detect repository: " + repo.error))
      && (repo.Ok? ==>
            var flagged := RemoteFlag(flag, ResolveDefaultBase(repo.value));
            && (flagged.Err? ==> r == Err(flagged.error))
            && (flagged.Ok? && preflight.Some? ==> r == Err(preflight.value))
            && (flagged.Ok? && preflight.None? && remotes.Err? ==> r == Err("failed to list remotes: " + remotes.error))
            && (flagged.Ok? && preflight.None? && remotes.Ok? ==>
                  var checked := CheckRemote(remotes.value, flagged.value, TrimSpace(flag) != "",
                                             DefaultRemoteBranch(Origin, symbolicRef, showOut));
                  && (checked.Err? ==> r == Err(checked.error))
                  && (checked.Ok? && RemoteRef(checked.value) in refs ==> r == Ok(checked.value))
                  && (checked.Ok? && RemoteRef(checked.value) !in refs ==>
                        r == Err("base '" + checked.value.0 + "/" + checked.value.1 + "' not found after fetch"))))
  {
  }

  /**
    A visible flag with no slash, a leading one, or nothing after its only one stops the command
    with the invalid-value error, before the preflight, `git remote` or the fetch can say anything.
   */
  lemma InvalidFlagStops(repo: string, flag: string, preflight: Option<string>, remotes: Result<string, string>,
                         symbolicRef: Option<string>, showOut: Option<string>, refs: set<string>)
    requires TrimSpace(flag) != []
    requires var u := TrimSpace(flag);
      '/' !in u || u[0] == '/' || (u[|u| - 1] == '/' && '/' !in u[..|u| - 1])
    ensures SelectBase(Ok(repo), flag, preflight, remotes, symbolicRef, showOut, refs) == Err(InvalidRemote)
  {
    RemoteFlagRejects(flag, ResolveDefaultBase(repo));
  }

  /** Without a flag, with `upstream` listed and its branch fetched, the base is the default one. */
  lemma SelectDefaultBase(repo: string, flag: string, remotes: string, symbolicRef: Option<string>,
                          showOut: Option<string>, refs: set<string>)
    requires AllSpace(flag) && Contains(remotes, Upstream) && RemoteRef(ResolveDefaultBase(repo)) in refs
    ensures SelectBase(Ok(repo), flag, None, Ok(remotes), symbolicRef, showOut, refs) == Ok(ResolveDefaultBase(repo))
  {
    TrimSpaceEmpty(flag);
  }

  /** A valid flag naming a listed remote selects that remote and branch; naming an unlisted one is an error. */
  lemma SelectUserBase(repo: string, remote: string, branch: string, remotes: string, symbolicRef: Option<string>,
                       showOut: Option<string>, refs: set<string>)
    requires remote != [] && branch != [] && '/' !in remote
    requires !IsSpace(remote[0]) && !IsSpace(branch[|branch| - 1])
    ensures Contains(remotes, remote) && RemoteRef((remote, branch)) in refs ==>
              SelectBase(Ok(repo), remote + "/" + branch, None, Ok(remotes), symbolicRef, showOut, refs)
                == Ok((remote, branch))
    ensures !Contains(remotes, remote) ==>
              SelectBase(Ok(repo), remote + "/" + branch, None, Ok(remotes), symbolicRef, showOut, refs)
                == Err(RemoteNotFound(remote))
  {
    RemoteFlagRoundTrip(remote, branch, ResolveDefaultBase(repo));
  }

  // ------------------------------------------------------------- the update loop

  /**
    The modules the update loop hands to `UpdateDependency`, as (module, current, latest) in
    entry order: those `allowed` admits and whose lookup succeeded.
   */
  function Attempts(dependencies: seq<(string, string)>, allowed: string -> bool, lookup: string -> Option<string>)
    : (r: seq<(string, string, string)>)
    ensures |r| <= |dependencies|
  {
    if dependencies == [] then []
    else
      Attempts(dependencies[..|dependencies| - 1], allowed, lookup)
        + AttemptOf(dependencies[|dependencies| - 1], allowed, lookup)
  }

  /** The attempt one entry makes: none unless admitted and found. */
  function AttemptOf(entry: (string, string), allowed: string -> bool, lookup: string -> Option<string>)
    : seq<(string, string, string)>
  {
    if allowed(entry.0) && lookup(entry.0).Some? then [(entry.0, entry.1, lookup(entry.0).value)] else []
  }

  /** Only admitted entries whose lookup succeeded are attempted, each with the version found. */
  lemma {:induction false} AttemptsSound(dependencies: seq<(string, string)>, allowed: string -> bool,
                                         lookup: string -> Option<string>, i: nat)
    requires i < |Attempts(dependencies, allowed, lookup)|
    ensures var t := Attempts(dependencies, allowed, lookup)[i];
      allowed(t.0) && lookup(t.0) == Some(t.2) && (t.0, t.1) in dependencies
    decreases |dependencies|
  {
    var init := dependencies[..|dependencies| - 1];
    var before := Attempts(init, allowed, lookup);
    if i < |before| {
      AttemptsSound(init, allowed, lookup, i);
      assert Attempts(dependencies, allowed, lookup)[i] == before[i];
      assert forall d :: d in init ==> d in dependencies;
    }
  }

  /** Every admitted entry whose lookup succeeded is attempted, with the version found. */
  lemma {:induction false} AttemptsHas(dependencies: seq<(string, string)>, allowed: string -> bool,
                                       lookup: string -> Option<string>, k: nat)
    requires k < |dependencies| && allowed(dependencies[k].0) && lookup(dependencies[k].0).Some?
    ensures (dependencies[k].0, dependencies[k].1, lookup(dependencies[k].0).value) in Attempts(dependencies, allowed, lookup)
    decreases |dependencies|
  {
    var init := dependencies[..|dependencies| - 1];
    if k < |init| {
      AttemptsHas(init, allowed, lookup, k);
      assert init[k] == dependencies[k];
    }
  }

  /** One more entry adds at most its own attempt. */
  lemma AttemptsStep(dependencies: seq<(string, string)>, allowed: string -> bool, lookup: string -> Option<string>, i: nat)
    requires i < |dependencies|
    ensures Attempts(dependencies[..i + 1], allowed, lookup)
         == Attempts(dependencies[..i], allowed, lookup) + AttemptOf(dependencies[i], allowed, lookup)
  {
    assert dependencies[..i + 1][..i] == dependencies[..i];
  }

  /** The `updates` map the loop builds: each attempt whose latest version is newer records it under its module. */
  function Updates(attempts: seq<(string, string, string)>, newer: (string, string) -> bool): map<string, string> {
    if attempts == [] then map[]
    else
      var last := attempts[|attempts| - 1];
      var m := Updates(attempts[..|attempts| - 1], newer);
      if newer(last.1, last.2) then m[last.0 := last.2] else m
  }

  /** Every module in the map comes from an attempt with a newer version, and carries that version. */
  lemma {:induction false} UpdatesSound(attempts: seq<(string, string, string)>, newer: (string, string) -> bool,
                                        mod: string)
    requires mod in Updates(attempts, newer)
    ensures exists i :: 0 <= i < |attempts| && attempts[i].0 == mod && newer(attempts[i].1, attempts[i].2)
                        && Updates(attempts, newer)[mod] == attempts[i].2
    decreases |attempts|
  {
    var init, last := attempts[..|attempts| - 1], attempts[|attempts| - 1];
    var m := Updates(init, newer);
    if newer(last.1, last.2) && mod == last.0 {
      assert attempts[|attempts| - 1].0 == mod;
    } else {
      UpdatesSound(init, newer, mod);
      var i :| 0 <= i < |init| && init[i].0 == mod && newer(init[i].1, init[i].2) && m[mod] == init[i].2;
      assert attempts[i] == init[i];
    }
  }

  /** An attempt with a newer version puts its module in the map. */
  lemma {:induction false} UpdatesHas(attempts: seq<(string, string, string)>, newer: (string, string) -> bool, i: nat)
    requires i < |attempts| && newer(attempts[i].1, attempts[i].2)
    ensures attempts[i].0 in Updates(attempts, newer)
    decreases |attempts|
  {
    var init := attempts[..|attempts| - 1];
    if i < |init| {
      UpdatesHas(init, newer, i);
      assert init[i] == attempts[i];
    }
  }

  lemma UpdatesAppend(attempts: seq<(string, string, string)>, t: (string, string, string), newer: (string, string) -> bool)
    ensures Updates(attempts + [t], newer)
         == if newer(t.1, t.2) then Updates(attempts, newer)[t.0 := t.2] else Updates(attempts, newer)
  {
    assert (attempts + [t])[..|attempts|] == attempts;
  }

  /**
    The plan, for any allow-list and comparison: a module is in it exactly when some entry for
    it is admitted, its lookup succeeded and the version found is newer than the entry's; it
    is then recorded with the version found.
   */
  lemma PlanOf(dependencies: seq<(string, string)>, allowed: string -> bool, lookup: string -> Option<string>,
               newer: (string, string) -> bool, mod: string)
    ensures mod in Updates(Attempts(dependencies, allowed, lookup), newer) <==>
              exists k :: 0 <= k < |dependencies| && dependencies[k].0 == mod && allowed(mod)
                && lookup(mod).Some? && newer(dependencies[k].1, lookup(mod).value)
    ensures mod in Updates(Attempts(dependencies, allowed, lookup), newer) ==>
              lookup(mod).Some? && Updates(Attempts(dependencies, allowed, lookup), newer)[mod] == lookup(mod).value
  {
    var attempts := Attempts(dependencies, allowed, lookup);
    var m := Updates(attempts, newer);
    if mod in m {
      UpdatesSound(attempts, newer, mod);
      var i :| 0 <= i < |attempts| && attempts[i].0 == mod && newer(attempts[i].1, attempts[i].2) && m[mod] == attempts[i].2;
      AttemptsSound(dependencies, allowed, lookup, i);
      var k :| 0 <= k < |dependencies| && dependencies[k] == (attempts[i].0, attempts[i].1);
      assert dependencies[k].0 == mod && newer(dependencies[k].1, lookup(mod).value);
    }
    if exists k :: 0 <= k < |dependencies| && dependencies[k].0 == mod && allowed(mod)
                 && lookup(mod).Some? && newer(dependencies[k].1, lookup(mod).value) {
      var k :| 0 <= k < |dependencies| && dependencies[k].0 == mod && allowed(mod)
               && lookup(mod).Some? && newer(dependencies[k].1, lookup(mod).value);
      AttemptsHas(dependencies, allowed, lookup, k);
      var i :| 0 <= i < |attempts| && attempts[i] == (mod, dependencies[k].1, lookup(mod).value);
      UpdatesHas(attempts, newer, i);
    }
  }

  /** The `updates` map of the command: the six allowed modules and SemVer precedence. */
  function PlannedUpdates(dependencies: seq<(string, string)>, lookup: string -> Option<string>): map<string, string> {
    Updates(Attempts(dependencies, Deps.IsAllowedDependency, lookup), Deps.IsNewerVersion)
  }

  /**
    A module is planned exactly when some entry for it is allowed, its lookup succeeded and
    the latest version is newer than the entry's; it is planned at the latest version.
   */
  lemma PlannedUpdatesOf(dependencies: seq<(string, string)>, lookup: string -> Option<string>, mod: string)
    ensures mod in PlannedUpdates(dependencies, lookup) <==>
              exists k :: 0 <= k < |dependencies| && dependencies[k].0 == mod && Deps.IsAllowedDependency(mod)
                && lookup(mod).Some? && Deps.IsNewerVersion(dependencies[k].1, lookup(mod).value)
    ensures mod in PlannedUpdates(dependencies, lookup) ==>
              lookup(mod).Some? && PlannedUpdates(dependencies, lookup)[mod] == lookup(mod).value
  {
    PlanOf(dependencies, Deps.IsAllowedDependency, lookup, Deps.IsNewerVersion, mod);
  }

  /** The `go get` targets of the attempts, in order. */
  function GoGets(attempts: seq<(string, string, string)>): (r: seq<string>)
    ensures |r| == |attempts|
  {
    if attempts == [] then []
    else GoGets(attempts[..|attempts| - 1]) + [Deps.GoGetTarget(attempts[|attempts| - 1].0, attempts[|attempts| - 1].2)]
  }

  lemma GoGetsAppend(attempts: seq<(string, string, string)>, t: (string, string, string))
    ensures GoGets(attempts + [t]) == GoGets(attempts) + [Deps.GoGetTarget(t.0, t.2)]
  {
    assert (attempts + [t])[..|attempts|] == attempts;
  }

  lemma DryRunLinesAppend(attempts: seq<(string, string, string)>, t: (string, string, string))
    ensures Deps.DryRunLines(attempts + [t]) == Deps.DryRunLines(attempts) + [Deps.DryRunLine(t.0, t.1, t.2)]
  {
    assert (attempts + [t])[..|attempts|] == attempts;
  }

  /**
    One turn of the update loop: an admitted module whose lookup succeeds goes to
    `UpdateDependency` (newer or not), and enters `updates` only when newer. The state the
    loop keeps about the attempts so far, `attempts`, holds before and after with the new
    attempt added; `base` is the log before the loop.
   */
  method UpdateEntry(log: Deps.DryRunLog, ghost base: seq<string>, ghost attempts: seq<(string, string, string)>,
                     updates: map<string, string>, goGets: seq<string>, entry: (string, string),
                     allowed: string -> bool, newer: (string, string) -> bool, lookup: string -> Option<string>,
                     dryRun: bool, goGet: string -> Option<string>)
    returns (ghost attempts': seq<(string, string, string)>, updates': map<string, string>, goGets': seq<string>)
    requires updates == Updates(attempts, newer)
    requires dryRun ==> log.lines == base + Deps.DryRunLines(attempts) && goGets == []
    requires !dryRun ==> log.lines == base && goGets == GoGets(attempts)
    modifies log
    ensures attempts' == attempts + AttemptOf(entry, allowed, lookup)
    ensures updates' == Updates(attempts', newer)
    ensures dryRun ==> log.lines == base + Deps.DryRunLines(attempts') && goGets' == []
    ensures !dryRun ==> log.lines == base && goGets' == GoGets(attempts')
  {
    attempts', updates', goGets' := attempts, updates, goGets;
    var mod, currentVer := entry.0, entry.1;
    if allowed(mod) {
      var latest := lookup(mod);
      if latest.Some? {
        ghost var t := (mod, currentVer, latest.value);
        UpdatesAppend(attempts, t, newer);
        DryRunLinesAppend(attempts, t);
        GoGetsAppend(attempts, t);
        if newer(currentVer, latest.value) {
          updates' := updates[mod := latest.value];
        }
        var err, ran := log.UpdateDependency(mod, currentVer, latest.value, dryRun, goGet(mod));
        if ran.Some? {
          goGets' := goGets + [ran.value];
        }
        attempts' := attempts + [t];
        return;
      }
    }
    assert attempts + [] == attempts;
  }

  /**
    The update loop for a given allow-list and comparison, the map given as its entries in
    iteration order. `goGet` gives the outcome of `go get` per module, which the command only
    logs. Returns the map and the `go get` targets run.
   */
  method UpdateLoop(log: Deps.DryRunLog, dependencies: seq<(string, string)>, allowed: string -> bool,
                    newer: (string, string) -> bool, lookup: string -> Option<string>,
                    dryRun: bool, goGet: string -> Option<string>)
    returns (updates: map<string, string>, goGets: seq<string>)
    modifies log
    ensures updates == Updates(Attempts(dependencies, allowed, lookup), newer)
    ensures dryRun ==> log.lines == old(log.lines) + Deps.DryRunLines(Attempts(dependencies, allowed, lookup))
    ensures dryRun ==> goGets == []
    ensures !dryRun ==> log.lines == old(log.lines)
    ensures !dryRun ==> goGets == GoGets(Attempts(dependencies, allowed, lookup))
  {
    updates, goGets := map[], [];
    ghost var base := log.lines;
    ghost var attempts: seq<(string, string, string)> := [];
    var i := 0;
    while i < |dependencies|
      invariant 0 <= i <= |dependencies|
      invariant attempts == Attempts(dependencies[..i], allowed, lookup)
      invariant updates == Updates(attempts, newer)
      invariant dryRun ==> log.lines == base + Deps.DryRunLines(attempts) && goGets == []
      invariant !dryRun ==> log.lines == base && goGets == GoGets(attempts)
    {
      AttemptsStep(dependencies, allowed, lookup, i);
      attempts, updates, goGets :=
        UpdateEntry(log, base, attempts, updates, goGets, dependencies[i], allowed, newer, lookup, dryRun, goGet);
      i := i + 1;
    }
    assert dependencies[..i] == dependencies;
  }

  /** The update loop of the command: the six allowed modules, SemVer precedence. */
  method PlanUpdates(log: Deps.DryRunLog, dependencies: seq<(string, string)>, lookup: string -> Option<string>,
                     dryRun: bool, goGet: string -> Option<string>)
    returns (updates: map<string, string>, goGets: seq<string>)
    modifies log
    ensures updates == PlannedUpdates(dependencies, lookup)
    ensures dryRun ==> log.lines == old(log.lines) + Deps.DryRunLines(Attempts(dependencies, Deps.IsAllowedDependency, lookup))
    ensures dryRun ==> goGets == []
    ensures !dryRun ==> log.lines == old(log.lines)
    ensures !dryRun ==> goGets == GoGets(Attempts(dependencies, Deps.IsAllowedDependency, lookup))
  {
    updates, goGets := UpdateLoop(log, dependencies, Deps.IsAllowedDependency, Deps.IsNewerVersion, lookup, dryRun, goGet);
  }

  // ------------------------------------------------------------- after the plan

  datatype Step = NoRelease | DryRunReport | Apply(tidy: bool, openPR: bool)

  /**
    What the command does once the plan and the merged pull requests are known: nothing when
    both are empty; otherwise the dry-run report in dry-run mode; otherwise `go mod tidy` when
    something is updated, and the pull request when asked for.
   */
  function NextStep(updates: map<string, string>, prs: seq<string>, dryRun: bool, createPR: bool): Step {
    if |updates| == 0 && |prs| == 0 then NoRelease
    else if dryRun then DryRunReport
    else Apply(|updates| > 0, createPR)
  }

  /** For any allow-list and comparison, the plan is empty exactly when no entry qualifies. */
  lemma PlanEmpty(dependencies: seq<(string, string)>, allowed: string -> bool, lookup: string -> Option<string>,
                  newer: (string, string) -> bool)
    ensures |Updates(Attempts(dependencies, allowed, lookup), newer)| == 0 <==>
              forall k :: 0 <= k < |dependencies| ==>
                !(allowed(dependencies[k].0) && lookup(dependencies[k].0).Some?
                  && newer(dependencies[k].1, lookup(dependencies[k].0).value))
  {
    var m := Updates(Attempts(dependencies, allowed, lookup), newer);
    if |m| != 0 {
      assert m.Keys != {};
      var mod :| mod in m.Keys;
      PlanOf(dependencies, allowed, lookup, newer, mod);
    }
    forall k | 0 <= k < |dependencies| && allowed(dependencies[k].0) && lookup(dependencies[k].0).Some?
                 && newer(dependencies[k].1, lookup(dependencies[k].0).value)
      ensures |m| != 0
    {
      PlanOf(dependencies, allowed, lookup, newer, dependencies[k].0);
      assert dependencies[k].0 in m;
    }
  }

  /**
    The command releases nothing exactly when no pull request was merged and no allowed
    dependency has a newer version available.
   */
  lemma NoReleaseIff(dependencies: seq<(string, string)>, lookup: string -> Option<string>, prs: seq<string>,
                     dryRun: bool, createPR: bool)
    ensures NextStep(PlannedUpdates(dependencies, lookup), prs, dryRun, createPR) == NoRelease <==>
              prs == [] &&
              forall k :: 0 <= k < |dependencies| ==>
                !(Deps.IsAllowedDependency(dependencies[k].0) && lookup(dependencies[k].0).Some?
                  && Deps.IsNewerVersion(dependencies[k].1, lookup(dependencies[k].0).value))
  {
    PlanEmpty(dependencies, Deps.IsAllowedDependency, lookup, Deps.IsNewerVersion);
  }

  /** The dry-run report is written only when there is something to release, and only in dry-run mode. */
  lemma DryRunReportWhen(updates: map<string, string>, prs: seq<string>, dryRun: bool, createPR: bool)
    ensures NextStep(updates, prs, dryRun, createPR) == DryRunReport <==> dryRun && (|updates| > 0 || prs != [])
    ensures NextStep(updates, prs, dryRun, createPR).Apply? ==>
              !dryRun && NextStep(updates, prs, dryRun, createPR).openPR == createPR
  {
  }

  // ------------------------------------------------------------- the pull request

  const Placeholder: string := "next"

  /** A blank next version becomes `"next"`. */
  function OrPlaceholder(next: string): string {
    if TrimSpace(next) == "" then Placeholder else next
  }

  /** The version the pull request is named after: the next version for the merged pull requests, or the placeholder. */
  function PRVersion(tag: string, prs: seq<string>): string {
    OrPlaceholder(Version.GetNextVersion(tag, Version.ReleaseTypeOf(prs)))
  }

  /** The placeholder replaces exactly the empty next version, since a non-empty one starts with a digit. */
  lemma OrPlaceholderOf(next: string)
    requires next == "" || IsDigit(next[0])
    ensures next == "" ==> OrPlaceholder(next) == Placeholder
    ensures next != "" ==> OrPlaceholder(next) == next
  {
    TrimSpaceEmpty(next);
    if next != "" {
      assert !IsSpace(next[0]);
    }
  }

  /**
    The placeholder is used exactly when the tag does not parse; otherwise the pull request
    carries the next version, which reads back as a version above the tag.
   */
  lemma PRVersionOf(tag: string, prs: seq<string>)
    ensures SemVer.ParseTolerant(tag).None? ==> PRVersion(tag, prs) == Placeholder
    ensures SemVer.ParseTolerant(tag).Some? ==>
              && PRVersion(tag, prs) == Version.GetNextVersion(tag, Version.ReleaseTypeOf(prs))
              && SemVer.ParseTolerant(PRVersion(tag, prs)).Some?
              && SemVer.Less(SemVer.ParseTolerant(tag).value, SemVer.ParseTolerant(PRVersion(tag, prs)).value)
  {
    var rt := Version.ReleaseTypeOf(prs);
    OrPlaceholderOf(Version.GetNextVersion(tag, rt));
    if SemVer.ParseTolerant(tag).Some? {
      Version.NextVersionIsNewer(tag, rt);
    }
  }

  function CommitMessage(next: string): string {
    "chore(" + next + "): update dependencies to latest versions"
  }

  /** The branch and commit message of the pull request, as the command computes them. */
  method PreparePullRequest(override: string, tag: string, prs: seq<string>) returns (branchName: string, message: string)
    ensures branchName == BuildBranchName(override, PRVersion(tag, prs))
    ensures message == CommitMessage(PRVersion(tag, prs))
  {
    var releaseType := Version.DetermineReleaseType(prs);
    var nextVersion := Version.GetNextVersion(tag, releaseType);
    if TrimSpace(nextVersion) == "" {
      nextVersion := Placeholder;
    }
    branchName := BuildBranchName(override, nextVersion);
    message := CommitMessage(nextVersion);
  }

  // ------------------------------------------------------------- preflight

  const MissingGoMod: string := "missing go.mod in project root"
  const NoGit: string := "git not found in PATH"
  const NoGo: string := "go not found in PATH"
  const StatusFailed: string := "failed to check git status: "
  const NotClean: string := "working tree not clean; commit or stash changes first"
  const NoOrigin: string := "git remote 'origin' not configured"
  const NoToken: string := "GITHUB_TOKEN is not set (required for PR creation)"
  const NoAPI: string := "cannot reach GitHub API (network/auth issue)"
  const PreflightFailed: string := "preflight checks failed:\n- "

  /**
    The problems `runPreflightChecks` collects, in check order, each probe given as its
    outcome: `go.mod`, `git`, `go`, the output of `git status --porcelain`, the URL of
    `origin`, and for a pull request the token and the GitHub API.
   */
  function PreflightIssues(goModPresent: bool, gitFound: bool, goFound: bool, status: Result<string, string>,
                           originUrl: Option<string>, requirePR: bool, token: string, apiReachable: bool)
    : seq<string>
  {
    (if goModPresent then [] else [MissingGoMod])
    + (if gitFound then [] else [NoGit])
    + (if goFound then [] else [NoGo])
    + (match status
       case Err(e) => [StatusFailed + e]
       case Ok(out) => if TrimSpace(out) != "" then [NotClean] else [])
    + (if originUrl.Some? && TrimSpace(originUrl.value) != "" then [] else [NoOrigin])
    + (if requirePR && token == "" then [NoToken] else [])
    + (if requirePR && !apiReachable then [NoAPI] else [])
  }

  /** The preflight error: none without issues, else every issue on its own `- ` line. */
  function PreflightError(issues: seq<string>): Option<string> {
    if |issues| > 0 then Some(PreflightFailed + Join(issues, "\n- ")) else None
  }

  /** The preflight passes exactly when every probe is fine. */
  lemma PreflightPasses(goModPresent: bool, gitFound: bool, goFound: bool, status: Result<string, string>,
                        originUrl: Option<string>, requirePR: bool, token: string, apiReachable: bool)
    ensures PreflightError(PreflightIssues(goModPresent, gitFound, goFound, status, originUrl, requirePR, token, apiReachable)).None?
        <==> && goModPresent && gitFound && goFound
             && status.Ok? && AllSpace(status.value)
             && originUrl.Some? && !AllSpace(originUrl.value)
             && (requirePR ==> token != "" && apiReachable)
  {
    if status.Ok? {
      TrimSpaceEmpty(status.value);
    }
    if originUrl.Some? {
      TrimSpaceEmpty(originUrl.value);
    }
  }

  /** Each part of a join occurs in it. */
  lemma {:induction false} JoinContains(parts: seq<string>, sep: string, i: nat)
    requires i < |parts|
    ensures Contains(Join(parts, sep), parts[i])
  {
    if |parts| == 1 {
      assert Join(parts, sep) == "" + parts[0] + "";
      ContainsInside("", parts[0], "");
    } else if i == 0 {
      assert Join(parts, sep) == "" + parts[0] + (sep + Join(parts[1..], sep));
      ContainsInside("", parts[0], sep + Join(parts[1..], sep));
    } else {
      JoinContains(parts[1..], sep, i - 1);
      assert Join(parts, sep) == parts[0] + sep + Join(parts[1..], sep) + "";
      ContainsWithin(parts[0] + sep, Join(parts[1..], sep), "", parts[i]);
    }
  }

  /** A failed preflight names every issue after its header. */
  lemma PreflightListsIssues(issues: seq<string>, i: nat)
    requires i < |issues|
    ensures PreflightError(issues).Some?
    ensures HasPrefix(PreflightError(issues).value, PreflightFailed)
    ensures Contains(PreflightError(issues).value, issues[i])
  {
    var joined := Join(issues, "\n- ");
    JoinContains(issues, "\n- ", i);
    assert PreflightFailed + joined == PreflightFailed + joined + "";
    ContainsWithin(PreflightFailed, joined, "", issues[i]);
    assert (PreflightFailed + joined)[..|PreflightFailed|] == PreflightFailed;
  }
}
