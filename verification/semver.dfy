/**
  Semantic Versioning 2.0.0 as the release logic uses it through `blang/semver`:
  the `X.Y.Z[-pre][+build]` grammar (sections 2, 9 and 10), a tolerant entry point that
  also accepts surrounding white space and a leading `v`, rendering back to text, and
  precedence (section 11), where build metadata plays no part.
 */
module SemVer {
  import opened Wrappers
  import opened Strings

  /** A pre-release identifier: numeric identifiers compare as numbers, the others as text. */
  datatype Ident = Num(n: nat) | Alpha(s: string)

  datatype Version = Version(major: nat, minor: nat, patch: nat, pre: seq<Ident>, build: seq<string>)

  /** The identifier alphabet `[0-9A-Za-z-]`. */
  predicate IsIdentChar(c: char) {
    IsDigit(c) || ('a' <= c <= 'z') || ('A' <= c <= 'Z') || c == '-'
  }

  predicate AllIdentChars(s: string) {
    forall i :: 0 <= i < |s| ==> IsIdentChar(s[i])
  }

  /** A numeric field: digits only, no leading zero. */
  predicate IsNumeric(s: string) {
    |s| >= 1 && AllDigits(s) && (|s| > 1 ==> s[0] != '0')
  }

  predicate WellFormedIdent(id: Ident) {
    id.Alpha? ==> |id.s| >= 1 && AllIdentChars(id.s) && !AllDigits(id.s)
  }

  predicate WellFormedBuild(b: string) {
    |b| >= 1 && AllIdentChars(b)
  }

  /** What the grammar can produce: alphanumeric identifiers are non-empty, not all digits, and build identifiers are non-empty. */
  predicate WellFormed(v: Version) {
    && (forall k :: 0 <= k < |v.pre| ==> WellFormedIdent(v.pre[k]))
    && (forall k :: 0 <= k < |v.build| ==> WellFormedBuild(v.build[k]))
  }

  // ---------------------------------------------------------------- parsing

  function ParseNumber(s: string): (r: Option<nat>)
    ensures r.Some? <==> IsNumeric(s)
  {
    if IsNumeric(s) then Some(DigitsToNat(s)) else None
  }

  /** One pre-release identifier: empty is refused, all digits must be numeric, otherwise identifier characters only. */
  function ParseIdent(s: string): (r: Option<Ident>)
    ensures r.Some? ==> WellFormedIdent(r.value)
  {
    if s == [] then None
    else if AllDigits(s) then (if IsNumeric(s) then Some(Num(DigitsToNat(s))) else None)
    else if AllIdentChars(s) then Some(Alpha(s))
    else None
  }

  function ParseIdents(parts: seq<string>): (r: Option<seq<Ident>>)
    ensures r.Some? ==> |r.value| == |parts| && forall k :: 0 <= k < |r.value| ==> WellFormedIdent(r.value[k])
  {
    if parts == [] then Some([])
    else match (ParseIdent(parts[0]), ParseIdents(parts[1..]))
      case (Some(id), Some(ids)) => Some([id] + ids)
      case _ => None
  }

  function ParseBuild(parts: seq<string>): (r: Option<seq<string>>)
    ensures r.Some? ==> r.value == parts && forall k :: 0 <= k < |parts| ==> WellFormedBuild(parts[k])
  {
    if parts == [] then Some([])
    else if WellFormedBuild(parts[0]) then
      match ParseBuild(parts[1..])
      case Some(rest) => Some([parts[0]] + rest)
      case None => None
    else None
  }

  /** The text before the first `c` and, when there is one, the text after it. */
  function CutAt(s: string, c: char): (string, Option<string>) {
    match IndexOf(s, c)
    case None => (s, None)
    case Some(k) => (s[..k], Some(s[k + 1..]))
  }

  /**
    The fields once the text is split at its first two dots: the third part carries the
    patch number, then an optional `-pre` and an optional `+build`.
   */
  function ParseFields(majorText: string, minorText: string, tail: string): (r: Option<Version>)
    ensures r.Some? ==> WellFormed(r.value)
  {
    var (patchPre, buildText) := CutAt(tail, '+');
    var (patchText, preText) := CutAt(patchPre, '-');
    var major, minor, patch := ParseNumber(majorText), ParseNumber(minorText), ParseNumber(patchText);
    var pre := if preText.None? then Some([]) else ParseIdents(Split(preText.value, '.'));
    var build := if buildText.None? then Some([]) else ParseBuild(Split(buildText.value, '.'));
    if major.None? || minor.None? || patch.None? || pre.None? || build.None? then None
    else Some(Version(major.value, minor.value, patch.value, pre.value, build.value))
  }

  /** Strict parse of `X.Y.Z[-pre][+build]`; `None` for anything else. */
  function Parse(s: string): (r: Option<Version>)
    ensures r.Some? ==> WellFormed(r.value)
  {
    match IndexOf(s, '.')
    case None => None
    case Some(i) =>
      var rest := s[i + 1..];
      match IndexOf(rest, '.')
      case None => None
      case Some(j) => ParseFields(s[..i], rest[..j], rest[j + 1..])
  }

  /** The tolerant parse: surrounding white space and one leading `v` are dropped first. */
  function ParseTolerant(s: string): (r: Option<Version>)
    ensures r.Some? ==> WellFormed(r.value)
  {
    Parse(TrimPrefix(TrimSpace(s), "v"))
  }

  // -------------------------------------------------------------- rendering

  function IdentText(id: Ident): string {
    match id
    case Num(n) => NatToString(n)
    case Alpha(s) => s
  }

  function IdentTexts(ids: seq<Ident>): (r: seq<string>)
    ensures |r| == |ids| && forall k :: 0 <= k < |ids| ==> r[k] == IdentText(ids[k])
  {
    seq(|ids|, k requires 0 <= k < |ids| => IdentText(ids[k]))
  }

  function PreText(pre: seq<Ident>): string {
    if pre == [] then "" else "-" + Join(IdentTexts(pre), ".")
  }

  function BuildText(build: seq<string>): string {
    if build == [] then "" else "+" + Join(build, ".")
  }

  /** `Version.String()`: `X.Y.Z`, then `-` and the dotted pre-release, then `+` and the dotted build. */
  function Render(v: Version): string {
    NatToString(v.major) + "." + NatToString(v.minor) + "." + NatToString(v.patch)
      + PreText(v.pre) + BuildText(v.build)
  }

  /** Rendered text starts with a digit, so it is never empty and never carries a `v`. */
  lemma RenderStartsWithDigit(v: Version)
    ensures |Render(v)| >= 1 && IsDigit(Render(v)[0])
  {
    assert Render(v)[0] == NatToString(v.major)[0];
  }

  lemma IdentTextClean(id: Ident)
    requires WellFormedIdent(id)
    ensures |IdentText(id)| >= 1 && AllIdentChars(IdentText(id))
  {
  }

  lemma {:induction false} ParseIdentsTexts(ids: seq<Ident>)
    requires forall k :: 0 <= k < |ids| ==> WellFormedIdent(ids[k])
    ensures ParseIdents(IdentTexts(ids)) == Some(ids)
  {
    if ids != [] {
      var texts := IdentTexts(ids);
      assert texts[1..] == IdentTexts(ids[1..]);
      ParseIdentsTexts(ids[1..]);
      assert ids == [ids[0]] + ids[1..];
      if ids[0].Num? {
        NatToStringValue(ids[0].n);
      }
      assert ParseIdent(texts[0]) == Some(ids[0]);
    }
  }

  lemma {:induction false} ParseBuildWellFormed(build: seq<string>)
    requires forall k :: 0 <= k < |build| ==> WellFormedBuild(build[k])
    ensures ParseBuild(build) == Some(build)
  {
    if build != [] {
      ParseBuildWellFormed(build[1..]);
      assert build == [build[0]] + build[1..];
    }
  }

  lemma PreTextShape(pre: seq<Ident>)
    requires forall k :: 0 <= k < |pre| ==> WellFormedIdent(pre[k])
    ensures '+' !in PreText(pre)
    ensures pre != [] ==> Split(PreText(pre)[1..], '.') == IdentTexts(pre)
  {
    if pre != [] {
      var texts := IdentTexts(pre);
      forall k | 0 <= k < |texts|
        ensures '+' !in texts[k] && '.' !in texts[k]
      {
        IdentTextClean(pre[k]);
        assert !IsIdentChar('+') && !IsIdentChar('.');
      }
      NotInJoin(texts, ".", '+');
      SplitJoin(texts, '.');
      assert PreText(pre)[1..] == Join(texts, ".");
    }
  }

  lemma BuildTextShape(build: seq<string>)
    requires forall k :: 0 <= k < |build| ==> WellFormedBuild(build[k])
    ensures build != [] ==> Split(BuildText(build)[1..], '.') == build
  {
    if build != [] {
      forall k | 0 <= k < |build|
        ensures '.' !in build[k]
      {
        assert !IsIdentChar('.');
      }
      SplitJoin(build, '.');
      assert BuildText(build)[1..] == Join(build, ".");
    }
  }

  lemma CutAtFound(a: string, c: char, b: string)
    requires c !in a
    ensures CutAt(a + [c] + b, c) == (a, Some(b))
  {
    var s := a + [c] + b;
    IndexOfAfter(a, c, b);
    assert s[..|a|] == a;
    assert s[|a| + 1..] == b;
  }

  lemma CutAtBuild(v: Version)
    requires WellFormed(v)
    ensures CutAt(NatToString(v.patch) + PreText(v.pre) + BuildText(v.build), '+')
         == (NatToString(v.patch) + PreText(v.pre),
             if v.build == [] then None else Some(Join(v.build, ".")))
  {
    var p, pt, bt := NatToString(v.patch), PreText(v.pre), BuildText(v.build);
    PreTextShape(v.pre);
    assert '+' !in p by {
      assert !IsDigit('+');
    }
    if v.build == [] {
      assert p + pt + bt == p + pt;
    } else {
      assert p + pt + bt == (p + pt) + ['+'] + Join(v.build, ".");
      CutAtFound(p + pt, '+', Join(v.build, "."));
    }
  }

  lemma CutAtPre(v: Version)
    ensures CutAt(NatToString(v.patch) + PreText(v.pre), '-')
         == (NatToString(v.patch), if v.pre == [] then None else Some(Join(IdentTexts(v.pre), ".")))
  {
    var p, pt := NatToString(v.patch), PreText(v.pre);
    assert '-' !in p by {
      assert !IsDigit('-');
    }
    if v.pre == [] {
      assert p + pt == p;
    } else {
      assert p + pt == p + ['-'] + Join(IdentTexts(v.pre), ".");
      CutAtFound(p, '-', Join(IdentTexts(v.pre), "."));
    }
  }

  /** The fields after the second dot parse back to the patch number, pre-release and build. */
  lemma ParseFieldsRender(v: Version)
    requires WellFormed(v)
    ensures ParseFields(NatToString(v.major), NatToString(v.minor),
                        NatToString(v.patch) + PreText(v.pre) + BuildText(v.build)) == Some(v)
  {
    CutAtBuild(v);
    CutAtPre(v);
    PreParsed(v.pre);
    BuildParsed(v.build);
    NumberParsed(v.major);
    NumberParsed(v.minor);
    NumberParsed(v.patch);
  }

  lemma NumberParsed(n: nat)
    ensures ParseNumber(NatToString(n)) == Some(n)
  {
    NatToStringValue(n);
  }

  /** The text after `-` splits and parses back to the pre-release identifiers. */
  lemma PreParsed(pre: seq<Ident>)
    requires forall k :: 0 <= k < |pre| ==> WellFormedIdent(pre[k])
    ensures (if pre == [] then Some([]) else ParseIdents(Split(Join(IdentTexts(pre), "."), '.'))) == Some(pre)
  {
    PreTextShape(pre);
    if pre != [] {
      assert PreText(pre)[1..] == Join(IdentTexts(pre), ".");
      ParseIdentsTexts(pre);
    }
  }

  /** The text after `+` splits and parses back to the build identifiers. */
  lemma BuildParsed(build: seq<string>)
    requires forall k :: 0 <= k < |build| ==> WellFormedBuild(build[k])
    ensures (if build == [] then Some([]) else ParseBuild(Split(Join(build, "."), '.'))) == Some(build)
  {
    BuildTextShape(build);
    if build != [] {
      assert BuildText(build)[1..] == Join(build, ".");
      ParseBuildWellFormed(build);
    }
  }

  /** Text with two leading dot-free fields is split at its first two dots. */
  lemma ParseAtDots(a: string, b: string, tail: string)
    requires '.' !in a && '.' !in b
    ensures Parse(a + "." + b + "." + tail) == ParseFields(a, b, tail)
  {
    var rest := b + "." + tail;
    assert a + "." + b + "." + tail == a + ['.'] + rest;
    CutAtFound(a, '.', rest);
    assert rest == b + ['.'] + tail;
    CutAtFound(b, '.', tail);
  }

  /** A rendering is its major and minor numbers, each followed by a dot, then the rest. */
  lemma RenderDots(v: Version)
    ensures Render(v) == NatToString(v.major) + "." + NatToString(v.minor) + "."
                         + (NatToString(v.patch) + PreText(v.pre) + BuildText(v.build))
  {
  }

  /** A rendered number holds no dot. */
  lemma NoDot(n: nat)
    ensures '.' !in NatToString(n)
  {
    assert !IsDigit('.');
  }

  /** Parsing what `Render` produces gives back the version. */
  lemma ParseRender(v: Version)
    requires WellFormed(v)
    ensures Parse(Render(v)) == Some(v)
  {
    var ma, mi := NatToString(v.major), NatToString(v.minor);
    var tail := NatToString(v.patch) + PreText(v.pre) + BuildText(v.build);
    NoDot(v.major);
    NoDot(v.minor);
    RenderDots(v);
    ParseAtDots(ma, mi, tail);
    ParseFieldsRender(v);
  }

  /** A rendered version ends with a digit or an identifier character, never with white space. */
  lemma RenderEndsClean(v: Version)
    requires WellFormed(v)
    ensures |Render(v)| >= 1 && !IsSpace(Render(v)[|Render(v)| - 1])
  {
    var s := Render(v);
    var last := s[|s| - 1];
    if v.build != [] {
      assert last == Join(v.build, ".")[|Join(v.build, ".")| - 1];
      JoinLastChar(v.build, ".");
    } else if v.pre != [] {
      assert last == Join(IdentTexts(v.pre), ".")[|Join(IdentTexts(v.pre), ".")| - 1];
      forall k | 0 <= k < |v.pre|
        ensures |IdentTexts(v.pre)[k]| >= 1 && AllIdentChars(IdentTexts(v.pre)[k])
      {
        IdentTextClean(v.pre[k]);
      }
      JoinLastChar(IdentTexts(v.pre), ".");
    } else {
      assert last == NatToString(v.patch)[|NatToString(v.patch)| - 1];
    }
  }

  /** The tolerant parse also reads back what `Render` produces. */
  lemma ParseTolerantRender(v: Version)
    requires WellFormed(v)
    ensures ParseTolerant(Render(v)) == Some(v)
  {
    var s := Render(v);
    RenderStartsWithDigit(v);
    RenderEndsClean(v);
    TrimSpaceUnchanged(s);
    assert !HasPrefix(s, "v");
    ParseRender(v);
  }

  lemma VTrimmed(r: string, s: string)
    requires |r| >= 1 && !IsSpace(r[|r| - 1]) && s == "v" + r
    ensures TrimSpace(s) == s
  {
    assert s[0] == 'v' && s[|s| - 1] == r[|r| - 1];
    TrimSpaceUnchanged(s);
  }

  lemma VStripped(r: string, s: string)
    requires s == "v" + r
    ensures TrimPrefix(s, "v") == r
  {
    assert s[..1] == "v" && s[1..] == r;
  }

  lemma TolerantOfTrimmed(r: string, s: string)
    requires TrimSpace(s) == s && TrimPrefix(s, "v") == r
    ensures ParseTolerant(s) == Parse(r)
  {
  }

  /** A leading `v` in front of text that does not end in white space is dropped by the tolerant parse. */
  lemma ParseTolerantV(r: string)
    requires |r| >= 1 && !IsSpace(r[|r| - 1])
    ensures ParseTolerant("v" + r) == Parse(r)
  {
    VTrimmed(r, "v" + r);
    VStripped(r, "v" + r);
    TolerantOfTrimmed(r, "v" + r);
  }

  /** The tolerant parse accepts a leading `v` in front of a rendered version, as Go module versions carry. */
  lemma ParseTolerantVRender(v: Version)
    requires WellFormed(v)
    ensures ParseTolerant("v" + Render(v)) == Some(v)
  {
    RenderEndsClean(v);
    ParseTolerantV(Render(v));
    ParseRender(v);
  }

  /** A join of non-empty identifier texts ends with an identifier character. */
  lemma {:induction false} JoinLastChar(parts: seq<string>, sep: string)
    requires |parts| >= 1
    requires forall k :: 0 <= k < |parts| ==> |parts[k]| >= 1 && AllIdentChars(parts[k])
    ensures |Join(parts, sep)| >= 1 && IsIdentChar(Join(parts, sep)[|Join(parts, sep)| - 1])
  {
    if |parts| > 1 {
      JoinLastChar(parts[1..], sep);
      var j := Join(parts[1..], sep);
      assert Join(parts, sep)[|Join(parts, sep)| - 1] == j[|j| - 1];
    }
  }

  // ------------------------------------------------------------- precedence

  function CompareNat(a: nat, b: nat): (c: int)
    ensures c == -1 || c == 0 || c == 1
  {
    if a < b then -1 else if a > b then 1 else 0
  }

  /** Lexicographic order of text by code point (the order of the UTF-8 bytes Go compares). */
  function CompareText(a: string, b: string): (c: int)
    ensures c == -1 || c == 0 || c == 1
  {
    if a == [] && b == [] then 0
    else if a == [] then -1
    else if b == [] then 1
    else if a[0] < b[0] then -1
    else if a[0] > b[0] then 1
    else CompareText(a[1..], b[1..])
  }

  /** Section 11.4.1 to 11.4.3: numbers numerically, text lexically, numbers before text. */
  function CompareIdent(a: Ident, b: Ident): (c: int)
    ensures c == -1 || c == 0 || c == 1
  {
    match (a, b)
    case (Num(x), Num(y)) => CompareNat(x, y)
    case (Num(_), Alpha(_)) => -1
    case (Alpha(_), Num(_)) => 1
    case (Alpha(x), Alpha(y)) => CompareText(x, y)
  }

  /** Section 11.4: field by field from the left; a shorter list that is a prefix comes first (11.4.4). */
  function ComparePre(a: seq<Ident>, b: seq<Ident>): (c: int)
    ensures c == -1 || c == 0 || c == 1
  {
    if a == [] && b == [] then 0
    else if a == [] then -1
    else if b == [] then 1
    else if CompareIdent(a[0], b[0]) != 0 then CompareIdent(a[0], b[0])
    else ComparePre(a[1..], b[1..])
  }

  /**
    Section 11: major, minor and patch numerically; then a version without pre-release
    ranks above one with it (11.3); then the pre-release fields. Build metadata is ignored (10).
   */
  function Compare(v: Version, w: Version): (c: int)
    ensures c == -1 || c == 0 || c == 1
  {
    if v.major != w.major then CompareNat(v.major, w.major)
    else if v.minor != w.minor then CompareNat(v.minor, w.minor)
    else if v.patch != w.patch then CompareNat(v.patch, w.patch)
    else if v.pre == [] && w.pre == [] then 0
    else if v.pre == [] then 1
    else if w.pre == [] then -1
    else ComparePre(v.pre, w.pre)
  }

  /** `w` has strictly higher precedence than `v`. */
  predicate Less(v: Version, w: Version) {
    Compare(v, w) < 0
  }

  /** Same precedence: everything but the build metadata agrees. */
  predicate SamePrecedence(v: Version, w: Version) {
    v.major == w.major && v.minor == w.minor && v.patch == w.patch && v.pre == w.pre
  }

  lemma {:induction false} CompareTextAntisymmetric(a: string, b: string)
    ensures CompareText(a, b) == -CompareText(b, a)
  {
    if a != [] && b != [] && a[0] == b[0] {
      CompareTextAntisymmetric(a[1..], b[1..]);
    }
  }

  lemma {:induction false} CompareTextZero(a: string, b: string)
    ensures CompareText(a, b) == 0 <==> a == b
  {
    if a != [] && b != [] && a[0] == b[0] {
      CompareTextZero(a[1..], b[1..]);
      assert a == [a[0]] + a[1..] && b == [b[0]] + b[1..];
    }
  }

  lemma {:induction false} CompareTextTransitive(a: string, b: string, c: string)
    requires CompareText(a, b) < 0 && CompareText(b, c) < 0
    ensures CompareText(a, c) < 0
  {
    if a != [] && a[0] == b[0] && b[0] == c[0] {
      CompareTextTransitive(a[1..], b[1..], c[1..]);
    }
  }

  lemma CompareIdentAntisymmetric(a: Ident, b: Ident)
    ensures CompareIdent(a, b) == -CompareIdent(b, a)
  {
    if a.Alpha? && b.Alpha? {
      CompareTextAntisymmetric(a.s, b.s);
    }
  }

  lemma CompareIdentZero(a: Ident, b: Ident)
    ensures CompareIdent(a, b) == 0 <==> a == b
  {
    if a.Alpha? && b.Alpha? {
      CompareTextZero(a.s, b.s);
    }
  }

  lemma CompareIdentTransitive(a: Ident, b: Ident, c: Ident)
    requires CompareIdent(a, b) < 0 && CompareIdent(b, c) < 0
    ensures CompareIdent(a, c) < 0
  {
    if a.Alpha? && b.Alpha? && c.Alpha? {
      CompareTextTransitive(a.s, b.s, c.s);
    }
  }

  lemma {:induction false} ComparePreAntisymmetric(a: seq<Ident>, b: seq<Ident>)
    ensures ComparePre(a, b) == -ComparePre(b, a)
  {
    if a != [] && b != [] {
      CompareIdentAntisymmetric(a[0], b[0]);
      ComparePreAntisymmetric(a[1..], b[1..]);
    }
  }

  lemma {:induction false} ComparePreZero(a: seq<Ident>, b: seq<Ident>)
    ensures ComparePre(a, b) == 0 <==> a == b
  {
    if a != [] && b != [] {
      CompareIdentZero(a[0], b[0]);
      ComparePreZero(a[1..], b[1..]);
      assert a == [a[0]] + a[1..] && b == [b[0]] + b[1..];
    }
  }

  lemma {:induction false} ComparePreTransitive(a: seq<Ident>, b: seq<Ident>, c: seq<Ident>)
    requires ComparePre(a, b) < 0 && ComparePre(b, c) < 0
    ensures ComparePre(a, c) < 0
  {
    if a != [] && b != [] && c != [] {
      CompareIdentZero(a[0], b[0]);
      CompareIdentZero(b[0], c[0]);
      if CompareIdent(a[0], b[0]) == 0 && CompareIdent(b[0], c[0]) == 0 {
        ComparePreTransitive(a[1..], b[1..], c[1..]);
      } else if CompareIdent(a[0], b[0]) != 0 && CompareIdent(b[0], c[0]) != 0 {
        CompareIdentTransitive(a[0], b[0], c[0]);
      }
    }
  }

  /** Swapping the arguments negates the comparison. */
  lemma CompareAntisymmetric(v: Version, w: Version)
    ensures Compare(v, w) == -Compare(w, v)
  {
    if v.pre != [] && w.pre != [] {
      ComparePreAntisymmetric(v.pre, w.pre);
    }
  }

  /** Two versions compare equal exactly when they differ at most in build metadata. */
  lemma CompareZero(v: Version, w: Version)
    ensures Compare(v, w) == 0 <==> SamePrecedence(v, w)
  {
    if v.pre != [] && w.pre != [] {
      ComparePreZero(v.pre, w.pre);
    }
  }

  /** Precedence is transitive. */
  lemma CompareTransitive(u: Version, v: Version, w: Version)
    requires Less(u, v) && Less(v, w)
    ensures Less(u, w)
  {
    if u.pre != [] && v.pre != [] && w.pre != []
       && u.major == v.major == w.major && u.minor == v.minor == w.minor && u.patch == v.patch == w.patch {
      ComparePreTransitive(u.pre, v.pre, w.pre);
    }
  }

  /** Exactly one of: `v` below `w`, `w` below `v`, or the same precedence. */
  lemma CompareTrichotomy(v: Version, w: Version)
    ensures Less(v, w) || Less(w, v) || SamePrecedence(v, w)
    ensures !(Less(v, w) && Less(w, v))
    ensures SamePrecedence(v, w) ==> !Less(v, w) && !Less(w, v)
  {
    CompareAntisymmetric(v, w);
    CompareZero(v, w);
  }
}
