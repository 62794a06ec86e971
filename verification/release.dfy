/**
 * Release notes and the VERSIONS.md update of the release script
 * (bump_and_update_versions.py:42-68): bump flags are removed from each commit subject,
 * the notes become a "### Changes" list, and a dated section for the new tag is spliced in
 * right below the history heading.
 */
module Release {

  import opened Wrappers
  import opened Seqs
  import opened Strings
  import opened Semver

  /** A character of `\w` restricted to ASCII: letters, digits and the underscore. */
  predicate IsWordChar(c: char)
  {
    ('a' <= c <= 'z') || ('A' <= c <= 'Z') || IsAsciiDigit(c) || c == '_'
  }

  lemma WordCharIsNotSpace(c: char)
    requires IsWordChar(c)
    ensures !IsPySpace(c)
  {
  }

  /** `(major|minor|patch)` under `re.I`, ASCII letters only. */
  predicate IsFlagName(w: string)
  {
    var l := Lower(w);
    l == "major" || l == "minor" || l == "patch"
  }

  lemma FlagNameIsWord(w: string)
    requires IsFlagName(w)
    ensures |w| == 5 && forall k :: 0 <= k < 5 ==> IsWordChar(w[k])
  {
    forall k | 0 <= k < 5 ensures IsWordChar(w[k]) {
      assert 'a' <= Lower(w)[k] <= 'z';
    }
  }

  /** `#(major|minor|patch)\b` at the start of `u`: always six characters. */
  predicate FlagWordAt(u: string)
  {
    |u| >= 6 && u[0] == '#' && IsFlagName(u[1..6]) && (|u| == 6 || !IsWordChar(u[6]))
  }

  /**
   * Length of a match of `\s*#(major|minor|patch)\b` at the start of `u`. The `#` can
   * only follow the whole run of white space, so the greedy run never needs to back off.
   */
  function SpacedFlagLength(u: string): (n: Option<nat>)
    ensures n.Some? ==> 6 <= n.value <= |u| && (n.value == |u| || !IsWordChar(u[n.value]))
  {
    if |u| > 0 && IsPySpace(u[0]) then
      match SpacedFlagLength(u[1..])
      case Some(k) => Some(k + 1)
      case None => None
    else if FlagWordAt(u) then Some(6)
    else None
  }

  /** Length of a match of `\s+#(major|minor|patch)\b` at the start of `u`, if there is one. */
  function FlagLength(u: string): (n: Option<nat>)
    ensures n.Some? ==> 7 <= n.value <= |u| && IsPySpace(u[0])
    ensures n.Some? ==> n.value == |u| || !IsWordChar(u[n.value])
  {
    if |u| > 0 && IsPySpace(u[0]) then SpacedFlagLength(u) else None
  }

  /** No position of `s` starts a bump flag. */
  predicate NoFlagIn(s: string)
  {
    forall k :: 0 <= k < |s| ==> FlagLength(s[k..]).None?
  }

  /**
   * `re.sub(r"\s+#(major|minor|patch)\b", "", s, flags=re.I)`: scanning left to right,
   * each flag together with the white space before it is deleted, and scanning resumes
   * after it.
   */
  function StripFlags(s: string): (r: string)
    ensures |r| <= |s|
  {
    if |s| == 0 then ""
    else
      match FlagLength(s)
      case Some(n) => StripFlags(s[n..])
      case None => [s[0]] + StripFlags(s[1..])
  }

  /** Deleting flags only removes characters: the result is a subsequence of the input. */
  lemma {:induction false} StripFlagsIsSubsequence(s: string)
    ensures IsSubsequence(StripFlags(s), s)
  {
    if |s| > 0 {
      match FlagLength(s)
      case Some(n) =>
        StripFlagsIsSubsequence(s[n..]);
        SkipPrefix(StripFlags(s), s, n);
      case None =>
        var rest := StripFlags(s[1..]);
        StripFlagsIsSubsequence(s[1..]);
        assert ([s[0]] + rest)[1..] == rest;
    }
  }

  /** A subject without flags passes unchanged. */
  lemma {:induction false} StripFlagsWithoutFlags(s: string)
    requires NoFlagIn(s)
    ensures StripFlags(s) == s
  {
    if |s| > 0 {
      assert s[0..] == s;
      assert NoFlagIn(s[1..]) by {
        forall k | 0 <= k < |s| - 1 ensures FlagLength(s[1..][k..]).None? {
          assert s[1..][k..] == s[k + 1..];
        }
      }
      StripFlagsWithoutFlags(s[1..]);
      assert [s[0]] + s[1..] == s;
    }
  }

  lemma StripFlagsIdentityIfClean(s: string)
    ensures NoFlagIn(s) ==> StripFlags(s) == s
  {
    if NoFlagIn(s) {
      StripFlagsWithoutFlags(s);
    }
  }

  /** A subsequence of a suffix is a subsequence of the whole. */
  lemma {:induction false} SkipPrefix(r: string, s: string, n: nat)
    requires n <= |s| && IsSubsequence(r, s[n..])
    ensures IsSubsequence(r, s)
  {
    if n > 0 {
      SkipPrefix(r, s[1..], n - 1);
      assert s[1..][n - 1..] == s[n..];
      SubsequenceSkip(s[0], r, s[1..]);
      assert [s[0]] + s[1..] == s;
    }
  }

  /** A word character at the head of the result was copied from the head of the input. */
  lemma {:induction false} StripFlagsWordHead(s: string)
    ensures var r := StripFlags(s);
      |r| > 0 && IsWordChar(r[0]) ==> |s| > 0 && s[0] == r[0] && r[1..] == StripFlags(s[1..])
  {
    if |s| > 0 {
      match FlagLength(s)
      case Some(n) =>
        StripFlagsWordHead(s[n..]);
      case None =>
    }
  }

  /** A run of word characters at the head of the result was copied from the head of the input. */
  lemma {:induction false} StripFlagsWordPrefix(s: string, n: nat)
    ensures var r := StripFlags(s);
      (n <= |r| && forall k :: 0 <= k < n ==> IsWordChar(r[k]))
      ==> n <= |s| && r[..n] == s[..n] && r[n..] == StripFlags(s[n..])
  {
    var r := StripFlags(s);
    if n > 0 && n <= |r| && forall k :: 0 <= k < n ==> IsWordChar(r[k]) {
      StripFlagsWordHead(s);
      WordRunTail(r, n);
      StripFlagsWordPrefix(s[1..], n - 1);
      HeadSlices(s, n);
      HeadSlices(r, n);
    }
  }

  lemma WordRunTail(r: string, n: nat)
    requires 0 < n <= |r| && forall k :: 0 <= k < n ==> IsWordChar(r[k])
    ensures forall k :: 0 <= k < n - 1 ==> IsWordChar(r[1..][k])
  {
    forall k | 0 <= k < n - 1 ensures IsWordChar(r[1..][k]) {
      assert r[1..][k] == r[k + 1];
    }
  }

  lemma HeadSlices(s: string, n: nat)
    requires 0 < n <= |s|
    ensures s[..n] == [s[0]] + s[1..][..n - 1] && s[1..][n - 1..] == s[n..]
  {
  }

  /** A word character at the head of the input is copied to the result. */
  lemma WordCharKept(s: string)
    ensures |s| > 0 && IsWordChar(s[0]) ==> StripFlags(s) == [s[0]] + StripFlags(s[1..])
  {
    if |s| > 0 && IsWordChar(s[0]) {
      WordCharIsNotSpace(s[0]);
    }
  }

  /** Five word characters after a `#` at the head of the result are the five after the `#` in the input. */
  lemma CopiedAfterHash(s: string)
    requires |s| > 0 && s[0] == '#'
    ensures var r := StripFlags(s);
      (6 <= |r| && forall k :: 1 <= k < 6 ==> IsWordChar(r[k]))
      ==> 6 <= |s| && r[1..6] == s[1..6] && r[6..] == StripFlags(s[6..])
  {
    var r := StripFlags(s);
    var r1 := StripFlags(s[1..]);
    assert r == [s[0]] + r1;
    if 6 <= |r| && forall k :: 1 <= k < 6 ==> IsWordChar(r[k]) {
      assert forall k :: 0 <= k < 5 ==> IsWordChar(r1[k]) by {
        forall k | 0 <= k < 5 ensures IsWordChar(r1[k]) {
          assert r1[k] == r[k + 1];
        }
      }
      StripFlagsWordPrefix(s[1..], 5);
      TailSlices(s, 5);
      TailSlices(r, 5);
    }
  }

  lemma TailSlices(s: string, n: nat)
    requires n < |s|
    ensures s[1..][..n] == s[1..n + 1] && s[1..][n..] == s[n + 1..]
  {
  }

  /** The flag name after a `#` in the result is the five characters after the `#` in the input. */
  lemma FlagNameCopied(s: string)
    requires |s| > 0 && s[0] == '#'
    ensures var r := StripFlags(s);
      FlagWordAt(r) ==> 6 <= |s| && r[1..6] == s[1..6] && r[6..] == StripFlags(s[6..])
  {
    var r := StripFlags(s);
    if FlagWordAt(r) {
      FlagNameIsWord(r[1..6]);
      assert forall k :: 1 <= k < 6 ==> IsWordChar(r[k]) by {
        forall k | 1 <= k < 6 ensures IsWordChar(r[k]) {
          assert r[k] == r[1..6][k - 1];
        }
      }
      CopiedAfterHash(s);
    }
  }

  /** A flag word at the head of the result was already a flag word at the head of the input. */
  lemma FlagWordSurvives(s: string)
    requires |s| > 0 && s[0] == '#'
    ensures FlagWordAt(StripFlags(s)) ==> FlagWordAt(s)
  {
    var r := StripFlags(s);
    if FlagWordAt(r) {
      FlagNameCopied(s);
      WordCharKept(s[6..]);
    }
  }

  /** A white-space-led flag at the head of the result was already one at the head of the input. */
  lemma {:induction false} SpacedFlagSurvives(s: string)
    ensures SpacedFlagLength(StripFlags(s)).Some? ==> SpacedFlagLength(s).Some?
  {
    if |s| > 0 && FlagLength(s).None? {
      var r1 := StripFlags(s[1..]);
      var r := StripFlags(s);
      assert r == [s[0]] + r1;
      assert r[1..] == r1;
      if IsPySpace(s[0]) {
        SpacedFlagSurvives(s[1..]);
      } else if s[0] == '#' {
        FlagWordSurvives(s);
      }
    }
  }

  /** No bump flag is left in the result: deleting one never assembles another. */
  lemma {:induction false} NoFlagLeft(s: string)
    ensures NoFlagIn(StripFlags(s))
  {
    if |s| > 0 {
      match FlagLength(s)
      case Some(n) =>
        NoFlagLeft(s[n..]);
      case None =>
        var r1 := StripFlags(s[1..]);
        var r := StripFlags(s);
        assert r == [s[0]] + r1;
        NoFlagLeft(s[1..]);
        forall k | 0 <= k < |r| ensures FlagLength(r[k..]).None? {
          if k == 0 {
            assert r[0..] == r;
            assert r[1..] == r1;
            if IsPySpace(s[0]) {
              SpacedFlagSurvives(s[1..]);
            }
          } else {
            assert r[k..] == r1[k - 1..];
          }
        }
    }
  }

  /** When the input holds a flag, the result is strictly shorter. */
  lemma {:induction false} StripFlagsShortens(s: string, k: nat)
    requires k < |s| && FlagLength(s[k..]).Some?
    ensures |StripFlags(s)| < |s|
  {
    assert s[0..] == s;
    if FlagLength(s).None? {
      assert s[1..][k - 1..] == s[k..];
      StripFlagsShortens(s[1..], k - 1);
    }
  }

  lemma PlainHead(s: string)
    requires |s| > 0 && FlagLength(s).None?
    ensures StripFlags(s) == [s[0]] + StripFlags(s[1..])
  {
  }

  lemma PlainTail(s: string, n: nat)
    requires 0 < n <= |s| && forall k :: 0 <= k < n ==> FlagLength(s[k..]).None?
    ensures forall k :: 0 <= k < n - 1 ==> FlagLength(s[1..][k..]).None?
  {
    forall k | 0 <= k < n - 1 ensures FlagLength(s[1..][k..]).None? {
      assert s[1..][k..] == s[k + 1..];
    }
  }

  lemma ConsSlice(s: string, n: nat, u: string, t: string)
    requires 0 < n <= |s| && u == s[1..n] + t
    ensures [s[0]] + u == s[..n] + t
  {
    assert s[..n] == [s[0]] + s[1..n];
  }

  /** Characters at which no flag starts are copied unchanged. */
  lemma {:induction false} StripFlagsPlainPrefix(s: string, n: nat)
    requires n <= |s| && forall k :: 0 <= k < n ==> FlagLength(s[k..]).None?
    ensures StripFlags(s) == s[..n] + StripFlags(s[n..])
  {
    if n > 0 {
      assert s[0..] == s;
      PlainHead(s);
      PlainTail(s, n);
      StripFlagsPlainPrefix(s[1..], n - 1);
      TailSlices(s, n - 1);
      ConsSlice(s, n, StripFlags(s[1..]), StripFlags(s[n..]));
    } else {
      assert s[..0] == [] && s[0..] == s;
    }
  }

  /** A blank followed by a character that is neither white space nor `#` starts no flag. */
  lemma NoFlagBeforeWord(u: string)
    requires |u| >= 2 && !IsPySpace(u[1]) && u[1] != '#'
    ensures FlagLength(u).None?
  {
    assert u[1..][0] == u[1];
    assert !FlagWordAt(u[1..]);
    assert SpacedFlagLength(u[1..]).None?;
  }

  lemma ExamplePrefixPlain()
    ensures forall k :: 0 <= k < 7 ==> FlagLength(("Fix bug" + " #minor")[k..]).None?
  {
    var s := "Fix bug" + " #minor";
    forall k | 0 <= k < 7 ensures FlagLength(s[k..]).None? {
      assert s[k..][0] == s[k];
      if k == 3 {
        assert s[k..][1] == 'b';
        NoFlagBeforeWord(s[k..]);
      }
    }
  }

  lemma ExampleFlagDropped()
    ensures StripFlags(" #minor") == ""
  {
    var f := " #minor";
    var u := f[1..];
    assert |u| == 6 && u[0] == '#' && u[1..6] == "minor";
    LowerIdentity(u[1..6]);
    assert FlagWordAt(u);
    assert SpacedFlagLength(u) == Some(6);
    assert FlagLength(f) == Some(7);
    assert f[7..] == "";
  }

  /** A trailing flag goes together with the blank before it. */
  lemma StripFlagsExample()
    ensures StripFlags("Fix bug" + " #minor") == "Fix bug"
  {
    var s := "Fix bug" + " #minor";
    ExamplePrefixPlain();
    StripFlagsPlainPrefix(s, 7);
    assert s[7..] == " #minor";
    ExampleFlagDropped();
    assert s[..7] == "Fix bug";
  }

  /** A character absent from the input is absent from the result. */
  lemma StripFlagsKeepsAbsent(s: string, c: char)
    requires c !in s
    ensures c !in StripFlags(s)
  {
    StripFlagsIsSubsequence(s);
    SubsequenceMembers(StripFlags(s), s);
  }

  /** Stripping only removes characters from the ends. */
  lemma StripMembers(s: string)
    ensures forall c :: c in Strip(s) ==> c in s
  {
    var i, j :| 0 <= i <= j <= |s| && Strip(s) == s[i..j];
    assert forall x :: x in s[i..j] ==> x in s;
  }

  lemma StripKeepsAbsent(s: string, c: char)
    requires c !in s
    ensures c !in Strip(s)
  {
    var i, j :| 0 <= i <= j <= |s| && Strip(s) == s[i..j];
    assert forall x :: x in s[i..j] ==> x in s;
  }

  /**
   * `f"- {subj} ({c['author']})"` with the subject stripped and its flags removed: a bullet,
   * a subject without bump flags made only of the original subject's characters, and the
   * author in parentheses.
   */
  function NoteLine(c: Commit): (line: string)
    ensures |line| >= 5 + |c.author|
    ensures line[..2] == "- "
    ensures line[|line| - |c.author| - 3..] == " (" + c.author + ")"
    ensures NoFlagIn(line[2..|line| - |c.author| - 3])
    ensures forall ch :: ch in line[2..|line| - |c.author| - 3] ==> ch in c.subject
    ensures IsSubsequence(line[2..|line| - |c.author| - 3], Strip(c.subject))
    ensures NoFlagIn(Strip(c.subject)) ==> line == "- " + Strip(c.subject) + " (" + c.author + ")"
  {
    var subj := StripFlags(Strip(c.subject));
    NoFlagLeft(Strip(c.subject));
    StripFlagsIsSubsequence(Strip(c.subject));
    StripFlagsIdentityIfClean(Strip(c.subject));
    SubsequenceMembers(subj, Strip(c.subject));
    StripMembers(c.subject);
    NoteLineParts(subj, c.author);
    "- " + subj + " (" + c.author + ")"
  }

  /** The bullet, the subject and the author's suffix can be cut back out of a note line. */
  lemma NoteLineParts(subj: string, author: string)
    ensures var line := "- " + subj + " (" + author + ")";
      && |line| == 5 + |subj| + |author|
      && line[..2] == "- "
      && line[|line| - |author| - 3..] == " (" + author + ")"
      && line[2..|line| - |author| - 3] == subj
  {
  }

  function NoteLines(commits: seq<Commit>): (lines: seq<string>)
    ensures |lines| == |commits|
    ensures forall i :: 0 <= i < |commits| ==> lines[i] == NoteLine(commits[i])
  {
    if |commits| == 0 then [] else [NoteLine(commits[0])] + NoteLines(commits[1..])
  }

  const ChangesHeader: string := "### Changes\n"

  /** `build_release_body(tag, commits)`. */
  function BuildReleaseBody(tag: string, commits: seq<Commit>): (body: string)
    ensures |commits| == 0 ==> body == "Automated release " + tag + "."
  {
    if |commits| == 0 then "Automated release " + tag + "."
    else ChangesHeader + Join(NoteLines(commits), "\n")
  }

  /** A commit that `git log --pretty=%H%x01%s%x01%an` can report on one line. */
  predicate OneLine(c: Commit)
  {
    '\n' !in c.subject && '\n' !in c.author
  }

  lemma NoteLineIsOneLine(c: Commit)
    requires OneLine(c)
    ensures '\n' !in NoteLine(c)
  {
    StripKeepsAbsent(c.subject, '\n');
    StripFlagsKeepsAbsent(Strip(c.subject), '\n');
  }

  /**
   * With commits, the body is the "### Changes" heading followed by exactly one line per
   * commit, in commit order, and no line carries a bump flag in its subject.
   */
  lemma ReleaseBodyLines(tag: string, commits: seq<Commit>)
    requires |commits| > 0
    requires forall i :: 0 <= i < |commits| ==> OneLine(commits[i])
    ensures var body := BuildReleaseBody(tag, commits);
      && |ChangesHeader| <= |body| && body[..|ChangesHeader|] == ChangesHeader
      && Split(body[|ChangesHeader|..], '\n') == NoteLines(commits)
  {
    var lines := NoteLines(commits);
    forall k | 0 <= k < |lines| ensures '\n' !in lines[k] {
      NoteLineIsOneLine(commits[k]);
    }
    SplitJoin(lines, '\n');
    var body := BuildReleaseBody(tag, commits);
    assert body == ChangesHeader + Join(lines, "\n");
    assert body[|ChangesHeader|..] == Join(lines, "\n");
  }

  /** The subject shown in a note line carries no bump flag. */
  lemma NoteSubjectHasNoFlag(c: Commit)
    ensures NoFlagIn(StripFlags(Strip(c.subject)))
  {
    NoFlagLeft(Strip(c.subject));
  }

  /** The title line of a VERSIONS.md created from scratch. */
  const VersionsTitle: string := "# \U{1F4D8} VERSIONS.md \U{2014} Faturas Processor App"

  /** The heading below which new sections go. */
  const HistoryAnchor: string := "## \U{1F4C8} Hist\U{F3}rico de Vers\U{F5}es"

  /** What the script writes when VERSIONS.md does not exist. */
  const DefaultVersionsFile: string := VersionsTitle + "\n\n" + HistoryAnchor + "\n"

  /** The text read back from VERSIONS.md: the default file when it was missing. */
  function VersionsText(existing: Option<string>): (md: string)
    ensures existing.Some? ==> md == existing.value
    ensures existing.None? ==> md == DefaultVersionsFile
  {
    match existing
    case Some(text) => text
    case None => DefaultVersionsFile
  }

  /**
   * `f"\n### {tag} — {date_br}\n{body_text}\n\n---\n"`; the date is a parameter. Read line by
   * line: a blank line, the heading with tag and date, the body's lines, a blank line, the
   * `---` rule, and the empty rest after the final line break.
   */
  function Section(tag: string, date: string, body: string): (section: string)
    ensures '\n' !in tag && '\n' !in date ==>
      Split(section, '\n') == ["", SectionHeading(tag, date)] + Split(body, '\n') + ["", "---", ""]
  {
    SectionTextLines(tag, date, body);
    "\n### " + tag + " \U{2014} " + date + "\n" + body + "\n\n---\n"
  }

  /** The heading line of a section. */
  function SectionHeading(tag: string, date: string): string
  {
    "### " + tag + " \U{2014} " + date
  }

  lemma RuleLines()
    ensures Split("\n---\n", '\n') == ["", "---", ""]
  {
    var t := "\n---\n";
    SplitAround("---", "", '\n');
    SplitNoSeparator("---", '\n');
    assert Split("", '\n') == [""];
    SplitAround("", "---\n", '\n');
    assert t == "" + ['\n'] + ("---" + ['\n'] + "");
  }

  lemma SectionShape(tag: string, date: string, body: string)
    ensures "\n### " + tag + " \U{2014} " + date + "\n" + body + "\n\n---\n"
      == "" + ['\n'] + (SectionHeading(tag, date) + ['\n'] + (body + ['\n'] + "\n---\n"))
  {
  }

  /** The body's lines, then a blank line, the rule, and the empty rest. */
  lemma BodyAndRuleLines(body: string)
    ensures Split(body + ['\n'] + "\n---\n", '\n') == Split(body, '\n') + ["", "---", ""]
  {
    RuleLines();
    SplitAround(body, "\n---\n", '\n');
  }

  /** The lines of the section text, when tag and date are single lines. */
  lemma SectionTextLines(tag: string, date: string, body: string)
    ensures '\n' !in tag && '\n' !in date ==>
      Split("\n### " + tag + " \U{2014} " + date + "\n" + body + "\n\n---\n", '\n')
      == ["", SectionHeading(tag, date)] + Split(body, '\n') + ["", "---", ""]
  {
    if '\n' !in tag && '\n' !in date {
      var h := SectionHeading(tag, date);
      var nl := '\n';
      assert nl !in h;
      var y := body + [nl] + "\n---\n";
      BodyAndRuleLines(body);
      SplitAfterPiece(h, y, nl);
      SplitAround("", h + [nl] + y, nl);
      assert Split("", nl) == [""];
      SectionShape(tag, date, body);
    }
  }

  /** The first occurrence of the history heading is at `idx`. */
  predicate FirstAnchorAt(md: string, idx: nat)
  {
    OccursAt(md, HistoryAnchor, idx) && forall i: nat :: i < idx ==> !OccursAt(md, HistoryAnchor, i)
  }

  /**
   * `cut` is just past the line break that ends the line holding the heading at `idx`,
   * or the end of the text when that line is the last and has no line break.
   */
  predicate CutAfterAnchorLine(md: string, idx: nat, cut: nat)
  {
    && idx + |HistoryAnchor| <= cut <= |md|
    && (forall k :: idx <= k < cut - 1 ==> md[k] != '\n')
    && ((idx < cut && md[cut - 1] == '\n') || (cut == |md| && forall k :: idx <= k < |md| ==> md[k] != '\n'))
  }

  lemma NewlineOccurrences(s: string)
    ensures forall k: nat :: OccursAt(s, "\n", k) <==> k < |s| && s[k] == '\n'
  {
    forall k: nat ensures OccursAt(s, "\n", k) <==> k < |s| && s[k] == '\n' {
      if k < |s| {
        assert s[k..k + 1] == [s[k]];
      }
    }
  }

  lemma AnchorHasNoNewline()
    ensures '\n' !in HistoryAnchor
  {
  }

  /**
   * Where `insert_versions_section` splices the new section: after the line of the first
   * history heading, or nowhere (`None`) when the heading is missing.
   */
  function InsertionPoint(md: string): (cut: Option<nat>)
    ensures cut.Some? ==> cut.value <= |md|
    ensures cut.None? <==> forall i: nat :: !OccursAt(md, HistoryAnchor, i)
    ensures cut.Some? ==> exists idx: nat :: FirstAnchorAt(md, idx) && CutAfterAnchorLine(md, idx, cut.value)
  {
    match FindFrom(md, HistoryAnchor, 0)
    case None => None
    case Some(idx) =>
      NewlineOccurrences(md);
      AnchorHasNoNewline();
      assert forall k :: idx <= k < idx + |HistoryAnchor| ==> md[k] == HistoryAnchor[k - idx];
      assert FirstAnchorAt(md, idx);
      match FindFrom(md, "\n", idx)
      case None => Some(|md|)
      case Some(e) => Some(e + 1)
  }

  lemma FindFirstAnchor(md: string, idx: nat)
    requires FirstAnchorAt(md, idx)
    ensures FindFrom(md, HistoryAnchor, 0) == Some(idx)
  {
  }

  lemma FindLineEnd(md: string, idx: nat, cut: nat)
    requires CutAfterAnchorLine(md, idx, cut)
    ensures FindFrom(md, "\n", idx) == (if idx < cut && md[cut - 1] == '\n' then Some(cut - 1) else None)
  {
    NewlineOccurrences(md);
    if idx < cut && md[cut - 1] == '\n' {
      assert OccursAt(md, "\n", cut - 1);
    }
  }

  /** The heading and its line determine the insertion point. */
  lemma InsertionPointUnique(md: string, idx: nat, cut: nat)
    requires FirstAnchorAt(md, idx) && CutAfterAnchorLine(md, idx, cut)
    ensures InsertionPoint(md) == Some(cut)
  {
    FindFirstAnchor(md, idx);
    FindLineEnd(md, idx, cut);
  }

  /**
   * `insert_versions_section` on the text `md` read from the file: the section goes right
   * after the line of the first history heading and everything else is kept in place; with
   * no heading the section goes first, followed by a line break and the whole text.
   */
  function InsertVersionsSection(md: string, section: string): (r: string)
    ensures InsertionPoint(md).None? ==>
      |r| == |section| + 1 + |md| && r[..|section|] == section && r[|section|] == '\n'
      && r[|section| + 1..] == md
    ensures InsertionPoint(md).Some? ==>
      var cut := InsertionPoint(md).value;
      |r| == |md| + |section| && r[..cut] == md[..cut] && r[cut..cut + |section|] == section
      && r[cut + |section|..] == md[cut..]
  {
    match InsertionPoint(md)
    case None =>
      var r := section + "\n" + md;
      assert r[..|section|] == section && r[|section| + 1..] == md;
      r
    case Some(cut) =>
      var r := md[..cut] + section + md[cut..];
      assert r[..cut] == md[..cut] && r[cut..cut + |section|] == section;
      assert r[cut + |section|..] == md[cut..];
      r
  }

  /** Text before `cut` is kept as it is by the splice. */
  lemma SplicePrefix(md: string, section: string, cut: nat, i: nat, j: nat)
    requires cut <= |md| && i <= j <= cut
    ensures (md[..cut] + section + md[cut..])[i..j] == md[i..j]
  {
  }

  lemma SplicePrefixChars(md: string, section: string, cut: nat)
    requires cut <= |md|
    ensures var r := md[..cut] + section + md[cut..];
      forall k :: 0 <= k < cut ==> r[k] == md[k]
  {
  }

  /** A splice after the heading line keeps the first heading where it was. */
  lemma SpliceKeepsFirstAnchor(md: string, section: string, cut: nat, idx: nat)
    requires cut <= |md| && idx + |HistoryAnchor| <= cut && FirstAnchorAt(md, idx)
    ensures FirstAnchorAt(md[..cut] + section + md[cut..], idx)
  {
    var r := md[..cut] + section + md[cut..];
    forall i: nat | i <= idx ensures OccursAt(r, HistoryAnchor, i) == OccursAt(md, HistoryAnchor, i) {
      SplicePrefix(md, section, cut, i, i + |HistoryAnchor|);
    }
  }

  /** A splice after the heading line keeps the heading line, line break included. */
  lemma SpliceKeepsLine(md: string, section: string, cut: nat, idx: nat)
    requires CutAfterAnchorLine(md, idx, cut) && 0 < cut && md[cut - 1] == '\n'
    ensures var r := md[..cut] + section + md[cut..];
      CutAfterAnchorLine(r, idx, cut) && r[cut - 1] == '\n'
  {
    SplicePrefixChars(md, section, cut);
  }

  /**
   * Once the heading line ends with a line break, inserting a section leaves the
   * insertion point where it was, so the next section goes to the same place.
   */
  lemma InsertionPointStable(md: string, section: string, cut: nat)
    requires InsertionPoint(md) == Some(cut) && 0 < cut && md[cut - 1] == '\n'
    ensures var r := InsertVersionsSection(md, section);
      InsertionPoint(r) == Some(cut) && r[cut - 1] == '\n'
  {
    var idx: nat :| FirstAnchorAt(md, idx) && CutAfterAnchorLine(md, idx, cut);
    var r := md[..cut] + section + md[cut..];
    SpliceKeepsFirstAnchor(md, section, cut, idx);
    SpliceKeepsLine(md, section, cut, idx);
    InsertionPointUnique(r, idx, cut);
  }

  /** Each new section lands above the previous ones: the newest release comes first. */
  lemma NewestFirst(md: string, older: string, newer: string, cut: nat)
    requires InsertionPoint(md) == Some(cut) && 0 < cut && md[cut - 1] == '\n'
    ensures InsertVersionsSection(InsertVersionsSection(md, older), newer) == md[..cut] + newer + older + md[cut..]
  {
    InsertionPointStable(md, older, cut);
    SpliceTwice(md, older, newer, cut);
  }

  lemma SpliceTwice(md: string, older: string, newer: string, cut: nat)
    requires cut <= |md|
    ensures var r := md[..cut] + older + md[cut..];
      r[..cut] + newer + r[cut..] == md[..cut] + newer + older + md[cut..]
  {
    var r := md[..cut] + older + md[cut..];
    assert r[..cut] == md[..cut];
    assert r[cut..] == older + md[cut..];
  }

  lemma DefaultAnchorFirst()
    ensures FirstAnchorAt(DefaultVersionsFile, |VersionsTitle| + 2)
  {
    var d := DefaultVersionsFile;
    var t := VersionsTitle;
    var a := HistoryAnchor;
    var idx := |t| + 2;
    assert d[idx..idx + |a|] == a;
    assert a[3] == '\U{1F4C8}';
    assert '\U{1F4C8}' !in t;
    forall k | 0 <= k < idx + 3 ensures d[k] != '\U{1F4C8}' {
      if k < |t| {
        assert d[k] == t[k];
      }
    }
    forall i: nat | i < idx ensures !OccursAt(d, a, i) {
      if i + |a| <= |d| {
        assert d[i..i + |a|][3] == d[i + 3];
      }
    }
  }

  /** In a freshly created VERSIONS.md the first section goes at the very end. */
  lemma DefaultFileAppends(section: string)
    ensures InsertVersionsSection(DefaultVersionsFile, section) == DefaultVersionsFile + section
    ensures InsertionPoint(DefaultVersionsFile) == Some(|DefaultVersionsFile|)
    ensures DefaultVersionsFile[|DefaultVersionsFile| - 1] == '\n'
  {
    var d := DefaultVersionsFile;
    var idx := |VersionsTitle| + 2;
    DefaultAnchorFirst();
    assert d[|d| - 1] == '\n';
    assert forall k :: idx <= k < |d| - 1 ==> d[k] == HistoryAnchor[k - idx];
    AnchorHasNoNewline();
    assert CutAfterAnchorLine(d, idx, |d|);
    InsertionPointUnique(d, idx, |d|);
    assert d[..|d|] == d && d[|d|..] == "";
  }

  /** `insert_versions_section(tag, body_text)` on the file's current contents, `None` when it is missing. */
  function UpdateVersionsFile(existing: Option<string>, tag: string, date: string, body: string): (md: string)
    ensures existing.None? ==> md == DefaultVersionsFile + Section(tag, date, body)
  {
    DefaultFileAppends(Section(tag, date, body));
    InsertVersionsSection(VersionsText(existing), Section(tag, date, body))
  }
}
