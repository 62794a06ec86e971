/**
 * Version parsing and bumping of the release script (bump_and_update_versions.py:14-18,
 * 30-40). Tags are `vX.Y.Z`; a bump follows items 6-8 of Semantic Versioning 2.0.0: a patch
 * bump increments Z, a minor bump increments Y and resets Z, a major bump increments X and
 * resets Y and Z.
 */
module Semver {

  import opened Wrappers
  import opened Strings

  datatype Version = Version(major: nat, minor: nat, patch: nat)

  /** What `parse_semver` answers for a tag it cannot read. */
  const DefaultVersion: Version := Version(1, 0, 0)

  /** Python's `<` on `(X, Y, Z)` tuples. */
  predicate VersionLess(a: Version, b: Version)
  {
    a.major < b.major
    || (a.major == b.major && a.minor < b.minor)
    || (a.major == b.major && a.minor == b.minor && a.patch < b.patch)
  }

  /** `f"v{X}.{Y}.{Z}"`. */
  function FormatTag(v: Version): string
  {
    "v" + NatToString(v.major) + "." + NatToString(v.minor) + "." + NatToString(v.patch)
  }

  /** A non-empty run of ASCII digits: one `\d+` group. */
  predicate IsNumeral(s: string)
  {
    |s| > 0 && AllDigits(s)
  }

  /** `$` matches at the end of the text or just before a final line break. */
  function DropFinalNewline(s: string): (core: string)
    ensures core == s || s == core + "\n"
  {
    if |s| > 0 && s[|s| - 1] == '\n' then s[..|s| - 1] else s
  }

  /** `re.match(r"v(\d+)\.(\d+)\.(\d+)$", s)` with its groups converted by `int`. */
  function MatchSemver(s: string): (r: Option<Version>)
    ensures r.Some? ==> |s| > 0 && s[0] == 'v'
  {
    var core := DropFinalNewline(s);
    if |core| == 0 || core[0] != 'v' then None
    else
      var groups := Split(core[1..], '.');
      if |groups| == 3 && IsNumeral(groups[0]) && IsNumeral(groups[1]) && IsNumeral(groups[2]) then
        Some(Version(DigitsValue(groups[0]), DigitsValue(groups[1]), DigitsValue(groups[2])))
      else None
  }

  /** `parse_semver(tag)`; `None` stands for a tag of `None`, read as `""` by `tag or ""`. */
  function ParseSemver(tag: Option<string>): (v: Version)
    ensures tag.None? ==> v == DefaultVersion
    ensures tag.Some? && MatchSemver(tag.value).None? ==> v == DefaultVersion
  {
    match tag
    case None => DefaultVersion
    case Some(s) =>
      match MatchSemver(s)
      case None => DefaultVersion
      case Some(v) => v
  }

  lemma EmptyTagIsDefault()
    ensures ParseSemver(Some("")) == DefaultVersion
  {
  }

  lemma NumeralHasNoDot(s: string)
    requires IsNumeral(s)
    ensures '.' !in s
  {
  }

  /** Three numerals joined by dots split back into the three numerals. */
  lemma SplitThreeNumerals(a: string, b: string, c: string)
    requires IsNumeral(a) && IsNumeral(b) && IsNumeral(c)
    ensures Split(a + "." + b + "." + c, '.') == [a, b, c]
  {
    NumeralHasNoDot(a);
    NumeralHasNoDot(b);
    NumeralHasNoDot(c);
    var xs := [a, b, c];
    assert xs[1..] == [b, c] && xs[1..][1..] == [c];
    assert Join([c], ".") == c;
    assert Join([b, c], ".") == b + "." + c;
    assert Join(xs, ".") == a + "." + (b + "." + c);
    assert a + "." + (b + "." + c) == a + "." + b + "." + c;
    SplitJoin(xs, '.');
  }

  /** A tag body that does not end in a line break is matched as it stands, after its `v`. */
  lemma TagBodyIsCore(body: string)
    requires |body| > 0 && body[|body| - 1] != '\n'
    ensures DropFinalNewline("v" + body) == "v" + body
    ensures ("v" + body)[1..] == body
  {
    var core := "v" + body;
    assert core[|core| - 1] == body[|body| - 1];
  }

  lemma MatchNumerals(a: string, b: string, c: string)
    requires IsNumeral(a) && IsNumeral(b) && IsNumeral(c)
    ensures MatchSemver("v" + a + "." + b + "." + c) == Some(Version(DigitsValue(a), DigitsValue(b), DigitsValue(c)))
  {
    var body := a + "." + b + "." + c;
    var s := "v" + a + "." + b + "." + c;
    assert body[|body| - 1] == c[|c| - 1];
    TagBodyIsCore(body);
    assert s == "v" + body;
    assert SpellsVersion(DropFinalNewline(s), a, b, c);
    MatchSpelledVersion(s, a, b, c);
  }

  /** `core` spells `v` and three numerals separated by dots. */
  predicate SpellsVersion(core: string, a: string, b: string, c: string)
  {
    IsNumeral(a) && IsNumeral(b) && IsNumeral(c) && core == "v" + a + "." + b + "." + c
  }

  lemma JoinThree(xs: seq<string>, sep: string)
    requires |xs| == 3
    ensures Join(xs, sep) == xs[0] + sep + xs[1] + sep + xs[2]
  {
    assert xs[1..][1..] == [xs[2]];
    assert Join(xs[1..], sep) == xs[1] + sep + xs[2];
  }

  /** Whatever spells a version is matched, with the numerals as its groups. */
  lemma MatchSpelledVersion(s: string, a: string, b: string, c: string)
    requires SpellsVersion(DropFinalNewline(s), a, b, c)
    ensures MatchSemver(s) == Some(Version(DigitsValue(a), DigitsValue(b), DigitsValue(c)))
  {
    var core := DropFinalNewline(s);
    SplitThreeNumerals(a, b, c);
    assert core[1..] == a + "." + b + "." + c;
  }

  /** Whatever is matched spells a version. */
  lemma MatchedSpellsVersion(s: string)
    requires MatchSemver(s).Some?
    ensures exists a, b, c :: SpellsVersion(DropFinalNewline(s), a, b, c)
  {
    var core := DropFinalNewline(s);
    var groups := Split(core[1..], '.');
    JoinSplit(core[1..], '.');
    JoinThree(groups, ".");
    assert core == "v" + core[1..];
    assert SpellsVersion(core, groups[0], groups[1], groups[2]);
  }

  /**
   * `parse_semver`'s pattern matches exactly the texts that, less one final line break, spell
   * `v` and three dot-separated numerals, and its groups are those numerals.
   */
  lemma MatchSemverSpec(s: string)
    ensures MatchSemver(s).Some? <==> exists a, b, c :: SpellsVersion(DropFinalNewline(s), a, b, c)
    ensures forall a, b, c :: SpellsVersion(DropFinalNewline(s), a, b, c) ==>
      MatchSemver(s) == Some(Version(DigitsValue(a), DigitsValue(b), DigitsValue(c)))
  {
    forall a, b, c | SpellsVersion(DropFinalNewline(s), a, b, c)
      ensures MatchSemver(s) == Some(Version(DigitsValue(a), DigitsValue(b), DigitsValue(c)))
    {
      MatchSpelledVersion(s, a, b, c);
    }
    if MatchSemver(s).Some? {
      MatchedSpellsVersion(s);
    }
  }

  /** One final line break is ignored, as `$` allows, provided the text did not already end with one. */
  lemma MatchBeforeFinalNewline(core: string)
    requires |core| == 0 || core[|core| - 1] != '\n'
    ensures MatchSemver(core + "\n") == MatchSemver(core)
  {
    var s := core + "\n";
    assert s[..|s| - 1] == core;
    assert DropFinalNewline(s) == core == DropFinalNewline(core);
  }

  /** Two final line breaks are too many: `$` only skips one. */
  lemma TwoFinalNewlinesRejected(core: string)
    ensures MatchSemver(core + "\n\n").None?
  {
    var s := core + "\n\n";
    var d := DropFinalNewline(s);
    assert d == core + "\n" by { assert s[..|s| - 1] == core + "\n"; }
    if |d| > 0 && d[0] == 'v' {
      var groups := Split(d[1..], '.');
      assert d[1..][|d[1..]| - 1] == '\n';
      SplitLastPiece(d[1..], '.');
      var last := groups[|groups| - 1];
      assert last[|last| - 1] == '\n';
      assert !IsNumeral(last);
    }
  }

  /**
   * `parse_semver("v" + X + "." + Y + "." + Z)` reads the three numerals as decimal numbers,
   * leading zeros included; a final line break is accepted, as `$` allows.
   */
  lemma ParseSemverReadsNumerals(a: string, b: string, c: string, newline: bool)
    requires IsNumeral(a) && IsNumeral(b) && IsNumeral(c)
    ensures var s := "v" + a + "." + b + "." + c + (if newline then "\n" else "");
      ParseSemver(Some(s)) == Version(DigitsValue(a), DigitsValue(b), DigitsValue(c))
  {
    var core := "v" + a + "." + b + "." + c;
    MatchNumerals(a, b, c);
    if newline {
      assert core[|core| - 1] == c[|c| - 1];
      MatchBeforeFinalNewline(core);
    } else {
      assert core + "" == core;
    }
  }

  /** Formatting a version as a tag and matching it back gives the version. */
  lemma FormatTagRoundTrip(v: Version)
    ensures MatchSemver(FormatTag(v)) == Some(v)
    ensures ParseSemver(Some(FormatTag(v))) == v
  {
    NatToStringRoundTrip(v.major);
    NatToStringRoundTrip(v.minor);
    NatToStringRoundTrip(v.patch);
    MatchNumerals(NatToString(v.major), NatToString(v.minor), NatToString(v.patch));
  }

  /** One commit of `git log`: hash, subject line and author name. */
  datatype Commit = Commit(hash: string, subject: string, author: string)

  datatype BumpKind = Major | Minor | Patch

  /** `any(flag in c["subject"].lower() for c in commits)`. */
  predicate AnySubjectHas(commits: seq<Commit>, flag: string)
  {
    exists i :: 0 <= i < |commits| && Contains(Lower(commits[i].subject), flag)
  }

  /** `#major` anywhere wins over `#minor`; with neither, a patch bump. */
  function BumpKindOf(commits: seq<Commit>): (k: BumpKind)
    ensures k == Major <==> AnySubjectHas(commits, "#major")
    ensures k == Minor <==> !AnySubjectHas(commits, "#major") && AnySubjectHas(commits, "#minor")
    ensures k == Patch <==> !AnySubjectHas(commits, "#major") && !AnySubjectHas(commits, "#minor")
  {
    if AnySubjectHas(commits, "#major") then Major
    else if AnySubjectHas(commits, "#minor") then Minor
    else Patch
  }

  /** Items 6-8 of Semantic Versioning 2.0.0. */
  function Bump(v: Version, k: BumpKind): (r: Version)
    ensures VersionLess(v, r)
    ensures k == Major ==> r.major == v.major + 1 && r.minor == 0 && r.patch == 0
    ensures k == Minor ==> r.major == v.major && r.minor == v.minor + 1 && r.patch == 0
    ensures k == Patch ==> r.major == v.major && r.minor == v.minor && r.patch == v.patch + 1
  {
    match k
    case Major => Version(v.major + 1, 0, 0)
    case Minor => Version(v.major, v.minor + 1, 0)
    case Patch => Version(v.major, v.minor, v.patch + 1)
  }

  /**
   * `bump_by_commits(base_tag, commits)`; `base_tag` is `""` when the repository has no tag.
   * The new tag is the canonical spelling of a version that reads back as v1.0.0 for the
   * first release and otherwise as the base version bumped by the commits' flags, strictly
   * above the base.
   */
  function BumpByCommits(baseTag: string, commits: seq<Commit>): (tag: string)
    ensures MatchSemver(tag) == Some(
      if baseTag == "" then DefaultVersion else Bump(ParseSemver(Some(baseTag)), BumpKindOf(commits)))
    ensures tag == FormatTag(MatchSemver(tag).value)
    ensures baseTag != "" ==> VersionLess(ParseSemver(Some(baseTag)), ParseSemver(Some(tag)))
  {
    var next := if baseTag == "" then DefaultVersion else Bump(ParseSemver(Some(baseTag)), BumpKindOf(commits));
    FormatTagRoundTrip(next);
    assert FormatTag(DefaultVersion) == "v1.0.0";
    if baseTag == "" then "v1.0.0"
    else FormatTag(Bump(ParseSemver(Some(baseTag)), BumpKindOf(commits)))
  }

  /** A repository without a tag starts at v1.0.0 whatever the commits say. */
  lemma FirstReleaseIgnoresFlags(commits: seq<Commit>)
    ensures BumpByCommits("", commits) == "v1.0.0"
    ensures ParseSemver(Some(BumpByCommits("", commits))) == Version(1, 0, 0)
  {
    FormatTagRoundTrip(Version(1, 0, 0));
    assert FormatTag(Version(1, 0, 0)) == "v1.0.0";
  }

  /** `#major` takes precedence: a `#minor` elsewhere does not change the result. */
  lemma MajorTakesPrecedence(baseTag: string, commits: seq<Commit>, more: seq<Commit>)
    requires baseTag != "" && AnySubjectHas(commits, "#major")
    ensures BumpByCommits(baseTag, commits + more) == BumpByCommits(baseTag, commits)
  {
    var i :| 0 <= i < |commits| && Contains(Lower(commits[i].subject), "#major");
    assert (commits + more)[i] == commits[i];
  }

  lemma LowerUpperMajor()
    ensures Lower("#MAJOR") == "#major"
  {
  }

  /** The flag is found whatever its case: upper-case ASCII letters fold to lower case. */
  lemma UpperCaseFlagCounts(hash: string, author: string)
    ensures BumpKindOf([Commit(hash, "Release " + "#MAJOR", author)]) == Major
  {
    var c := Commit(hash, "Release " + "#MAJOR", author);
    LowerConcat("Release ", "#MAJOR");
    LowerUpperMajor();
    ContainsInfix(Lower("Release "), "#major", "");
    assert Lower(c.subject) == Lower("Release ") + "#major" + "";
    assert [c][0] == c;
  }
}
