/**
  The `version` package: patch and minor bumps of a release tag, the choice between them
  from a release-type label, and the classification of merged pull requests into
  "next minor" or "next patch".
 */
module Version {
  import opened Wrappers
  import opened Strings
  import opened SemVer

  const NextPatch: string := "next patch"
  const NextMinor: string := "next minor"

  /** `v.Minor++; v.Patch = 0` on a parsed tag: major, pre-release and build are untouched. */
  function MinorBump(v: SemVer.Version): SemVer.Version {
    SemVer.Version(v.major, v.minor + 1, 0, v.pre, v.build)
  }

  /** `v.Patch++` on a parsed tag: every other part is untouched. */
  function PatchBump(v: SemVer.Version): SemVer.Version {
    SemVer.Version(v.major, v.minor, v.patch + 1, v.pre, v.build)
  }

  /** Both bumps keep major and raise the precedence. */
  lemma BumpsAreHigher(v: SemVer.Version)
    ensures Less(v, PatchBump(v)) && Less(v, MinorBump(v))
    ensures PatchBump(v).major == MinorBump(v).major == v.major
  {
  }

  /**
    `IncrementMinorVersion`: the minor bump of the parsed tag, rendered; the empty string
    when the tag does not parse. Since the result is rendered, it starts with a digit even
    when the tag started with `v`.
   */
  function IncrementMinorVersion(tag: string): (r: string)
    ensures r == "" <==> ParseTolerant(tag).None?
    ensures r == "" || IsDigit(r[0])
  {
    match ParseTolerant(tag)
    case None => ""
    case Some(v) =>
      RenderStartsWithDigit(MinorBump(v));
      Render(MinorBump(v))
  }

  /** `IncrementPatchVersion`: the patch bump of the parsed tag, rendered; the empty string when the tag does not parse. */
  function IncrementPatchVersion(tag: string): (r: string)
    ensures r == "" <==> ParseTolerant(tag).None?
    ensures r == "" || IsDigit(r[0])
  {
    match ParseTolerant(tag)
    case None => ""
    case Some(v) =>
      RenderStartsWithDigit(PatchBump(v));
      Render(PatchBump(v))
  }

  /** The minor bump reads back as the bumped version: minor plus one, patch 0, pre-release and build kept. */
  lemma IncrementMinorParsesBack(tag: string)
    requires ParseTolerant(tag).Some?
    ensures ParseTolerant(IncrementMinorVersion(tag)) == Some(MinorBump(ParseTolerant(tag).value))
  {
    ParseTolerantRender(MinorBump(ParseTolerant(tag).value));
  }

  /** The patch bump reads back as the bumped version: patch plus one, everything else kept. */
  lemma IncrementPatchParsesBack(tag: string)
    requires ParseTolerant(tag).Some?
    ensures ParseTolerant(IncrementPatchVersion(tag)) == Some(PatchBump(ParseTolerant(tag).value))
  {
    ParseTolerantRender(PatchBump(ParseTolerant(tag).value));
  }

  /** `GetNextVersion`: a patch bump exactly for the label "next patch", a minor bump for any other label. */
  function GetNextVersion(tag: string, releaseType: string): (r: string)
    ensures r == "" <==> ParseTolerant(tag).None?
    ensures r == "" || IsDigit(r[0])
  {
    if releaseType == NextPatch then IncrementPatchVersion(tag) else IncrementMinorVersion(tag)
  }

  /** Which bump `GetNextVersion` makes, read back from its result. */
  lemma GetNextVersionParsesBack(tag: string, releaseType: string)
    requires ParseTolerant(tag).Some?
    ensures ParseTolerant(GetNextVersion(tag, releaseType))
         == Some(if releaseType == NextPatch then PatchBump(ParseTolerant(tag).value)
                 else MinorBump(ParseTolerant(tag).value))
  {
    if releaseType == NextPatch {
      IncrementPatchParsesBack(tag);
    } else {
      IncrementMinorParsesBack(tag);
    }
  }

  /** For a tag that parses, the next version has strictly higher precedence, whatever the label. */
  lemma NextVersionIsNewer(tag: string, releaseType: string)
    requires ParseTolerant(tag).Some?
    ensures ParseTolerant(GetNextVersion(tag, releaseType)).Some?
    ensures Less(ParseTolerant(tag).value, ParseTolerant(GetNextVersion(tag, releaseType)).value)
  {
    GetNextVersionParsesBack(tag, releaseType);
    BumpsAreHigher(ParseTolerant(tag).value);
  }

  /** The wording that marks a pull request as a feature (case-sensitive). */
  predicate IsFeatureWording(pr: string) {
    Contains(pr, "new feature") || Contains(pr, "feature request")
  }

  /** The release type a list of pull-request lines calls for: minor as soon as one of them is a feature. */
  function ReleaseTypeOf(prs: seq<string>): string {
    if prs == [] then NextPatch
    else if IsFeatureWording(prs[0]) then NextMinor
    else ReleaseTypeOf(prs[1..])
  }

  /** The release type is "next minor" exactly when some line has feature wording, and "next patch" otherwise. */
  lemma {:induction false} ReleaseTypeOfFeature(prs: seq<string>)
    ensures ReleaseTypeOf(prs) == NextMinor <==> exists i :: 0 <= i < |prs| && IsFeatureWording(prs[i])
    ensures ReleaseTypeOf(prs) == NextMinor || ReleaseTypeOf(prs) == NextPatch
  {
    if prs != [] {
      ReleaseTypeOfFeature(prs[1..]);
      if exists i :: 0 <= i < |prs| && IsFeatureWording(prs[i]) {
        var i :| 0 <= i < |prs| && IsFeatureWording(prs[i]);
        if i > 0 {
          assert prs[1..][i - 1] == prs[i];
        }
      }
    }
  }

  /** Reordering the pull requests never changes the release type. */
  lemma ReleaseTypeOfPermutation(prs: seq<string>, others: seq<string>)
    requires multiset(prs) == multiset(others)
    ensures ReleaseTypeOf(prs) == ReleaseTypeOf(others)
  {
    ReleaseTypeOfFeature(prs);
    ReleaseTypeOfFeature(others);
    if exists i :: 0 <= i < |prs| && IsFeatureWording(prs[i]) {
      var i :| 0 <= i < |prs| && IsFeatureWording(prs[i]);
      assert prs[i] in multiset(others);
    }
    if exists i :: 0 <= i < |others| && IsFeatureWording(others[i]) {
      var i :| 0 <= i < |others| && IsFeatureWording(others[i]);
      assert others[i] in multiset(prs);
    }
  }

  /**
    `DetermineReleaseType`: starts from "next patch" and scans the lines in order, switching
    to "next minor" and stopping at the first line with feature wording.
   */
  method DetermineReleaseType(prs: seq<string>) returns (releaseType: string)
    ensures releaseType == ReleaseTypeOf(prs)
  {
    releaseType := NextPatch;
    var i := 0;
    while i < |prs|
      invariant 0 <= i <= |prs|
      invariant releaseType == NextPatch
      invariant ReleaseTypeOf(prs[i..]) == ReleaseTypeOf(prs)
      invariant forall j :: 0 <= j < i ==> !IsFeatureWording(prs[j])
    {
      if Contains(prs[i], "new feature") || Contains(prs[i], "feature request") {
        releaseType := NextMinor;
        break;
      }
      assert prs[i..][1..] == prs[i + 1..];
      i := i + 1;
    }
  }

  /** A tag written as three plain numbers parses to exactly those numbers. */
  lemma PlainTag(major: nat, minor: nat, patch: nat, tag: string)
    requires tag == NatToString(major) + "." + NatToString(minor) + "." + NatToString(patch)
    ensures ParseTolerant(tag) == Some(SemVer.Version(major, minor, patch, [], []))
  {
    var v := SemVer.Version(major, minor, patch, [], []);
    assert Render(v) == tag;
    ParseTolerantRender(v);
  }

  lemma PlainRender(major: nat, minor: nat, patch: nat)
    ensures Render(SemVer.Version(major, minor, patch, [], []))
         == NatToString(major) + "." + NatToString(minor) + "." + NatToString(patch)
  {
  }

  /** The patch bump of a tag is the rendering of its parsed version, bumped. */
  lemma PatchOf(tag: string, v: SemVer.Version)
    requires ParseTolerant(tag) == Some(v)
    ensures IncrementPatchVersion(tag) == Render(PatchBump(v))
  {
  }

  /** The minor bump of a tag is the rendering of its parsed version, bumped. */
  lemma MinorOf(tag: string, v: SemVer.Version)
    requires ParseTolerant(tag) == Some(v)
    ensures IncrementMinorVersion(tag) == Render(MinorBump(v))
  {
  }

  lemma OneTwoThreeParses(tag: string)
    requires tag == "1.2.3"
    ensures ParseTolerant(tag) == Some(SemVer.Version(1, 2, 3, [], []))
  {
    assert NatToString(1) == "1" && NatToString(2) == "2" && NatToString(3) == "3";
    PlainTag(1, 2, 3, tag);
  }

  /** A version of three one-digit numbers renders as the digits joined by dots. */
  lemma RenderLiteral(major: nat, minor: nat, patch: nat, text: string)
    requires major < 10 && minor < 10 && patch < 10
    requires text == [DigitChar(major), '.', DigitChar(minor), '.', DigitChar(patch)]
    ensures Render(SemVer.Version(major, minor, patch, [], [])) == text
  {
    PlainRender(major, minor, patch);
  }

  /** The package's own examples: "1.2.3" bumps to "1.2.4" and to "1.3.0". */
  lemma BumpExamples(tag: string)
    requires tag == "1.2.3"
    ensures IncrementPatchVersion(tag) == "1.2.4"
    ensures IncrementMinorVersion(tag) == "1.3.0"
    ensures GetNextVersion(tag, NextPatch) == "1.2.4"
    ensures GetNextVersion(tag, NextMinor) == "1.3.0"
  {
    OneTwoThreeParses(tag);
    PatchOf(tag, SemVer.Version(1, 2, 3, [], []));
    MinorOf(tag, SemVer.Version(1, 2, 3, [], []));
    RenderLiteral(1, 2, 4, "1.2.4");
    RenderLiteral(1, 3, 0, "1.3.0");
  }

  lemma TwoFiveZeroParses(tag: string)
    requires tag == "2.5.0"
    ensures ParseTolerant(tag) == Some(SemVer.Version(2, 5, 0, [], []))
  {
    assert NatToString(0) == "0" && NatToString(2) == "2" && NatToString(5) == "5";
    PlainTag(2, 5, 0, tag);
  }

  lemma FixThenFeatureIsMinor(prs: seq<string>)
    requires prs == ["fix typo", "add new feature X"]
    ensures ReleaseTypeOf(prs) == NextMinor
  {
    assert prs[1] == "add " + "new feature" + " X";
    ContainsInside("add ", "new feature", " X");
    ReleaseTypeOfFeature(prs);
    assert IsFeatureWording(prs[1]);
  }

  lemma TwoFiveZeroMinorBump(tag: string)
    requires tag == "2.5.0"
    ensures GetNextVersion(tag, NextMinor) == "2.6.0"
  {
    TwoFiveZeroParses(tag);
    MinorOf(tag, SemVer.Version(2, 5, 0, [], []));
    RenderLiteral(2, 6, 0, "2.6.0");
  }

  /** A fix followed by a feature on tag 2.5.0 is a minor release, 2.6.0; no pull requests at all is a patch release. */
  lemma FeatureScenario(prs: seq<string>, tag: string)
    requires prs == ["fix typo", "add new feature X"] && tag == "2.5.0"
    ensures ReleaseTypeOf(prs) == NextMinor
    ensures GetNextVersion(tag, ReleaseTypeOf(prs)) == "2.6.0"
    ensures ReleaseTypeOf([]) == NextPatch
  {
    FixThenFeatureIsMinor(prs);
    TwoFiveZeroMinorBump(tag);
  }
}
