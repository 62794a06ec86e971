/**
 * The nested `last4` of `build_processed_workbook` (processor.py:170-174), which rewrites the
 * "Final do Cartão" column: the last match of a four-character pattern, or else the last four
 * characters of the text. The pattern as written, `(\\d{4})` in a raw string, matches the
 * literal text `\dddd`; the pattern evidently intended, `\d{4}`, matches four digits.
 */
module CardDigits {

  import opened Strings

  /** `s[-4:]`: the last four characters, or all of `s` when it is shorter. */
  function Tail4(s: string): (r: string)
    ensures |r| == if |s| < 4 then |s| else 4
    ensures s == s[..|s| - |r|] + r
  {
    if |s| >= 4 then s[|s| - 4..] else s
  }

  /** The text the written pattern matches: a backslash and four `d`s. */
  const WrittenMatch: string := "\\dddd"

  /** `last4` as written: every match of the written pattern is `\dddd`, so the last one is too. */
  function Last4AsWritten(s: string): (r: string)
    ensures !Contains(s, WrittenMatch) ==> r == Tail4(s)
    ensures Contains(s, WrittenMatch) ==> r == WrittenMatch && Contains(s, r)
  {
    if Contains(s, WrittenMatch) then WrittenMatch else Tail4(s)
  }

  /** Four ASCII digits start at index `i`. */
  predicate DigitRunAt(s: string, i: nat)
  {
    i + 4 <= |s| && IsAsciiDigit(s[i]) && IsAsciiDigit(s[i + 1]) && IsAsciiDigit(s[i + 2]) && IsAsciiDigit(s[i + 3])
  }

  /**
   * Start indices of `re.findall(r"\d{4}", s[i:])`: the scan takes a run of four digits where
   * one starts and resumes after it, else moves one character on.
   */
  function Digit4Matches(s: string, i: nat): seq<nat>
    requires i <= |s|
    decreases |s| - i
  {
    if i + 4 > |s| then []
    else if DigitRunAt(s, i) then [i] + Digit4Matches(s, i + 4)
    else Digit4Matches(s, i + 1)
  }

  /** Every match is a run of four digits at or after `i`, and matches do not overlap. */
  lemma {:induction false} Digit4MatchesValid(s: string, i: nat)
    requires i <= |s|
    ensures forall k :: 0 <= k < |Digit4Matches(s, i)| ==>
      i <= Digit4Matches(s, i)[k] && DigitRunAt(s, Digit4Matches(s, i)[k])
    ensures forall k :: 0 <= k < |Digit4Matches(s, i)| - 1 ==>
      Digit4Matches(s, i)[k] + 4 <= Digit4Matches(s, i)[k + 1]
    decreases |s| - i
  {
    if i + 4 <= |s| {
      if DigitRunAt(s, i) {
        Digit4MatchesValid(s, i + 4);
        var rest := Digit4Matches(s, i + 4);
        var ms := [i] + rest;
        assert Digit4Matches(s, i) == ms;
        assert forall k :: 1 <= k < |ms| ==> ms[k] == rest[k - 1];
      } else {
        Digit4MatchesValid(s, i + 1);
        assert Digit4Matches(s, i) == Digit4Matches(s, i + 1);
      }
    }
  }

  /**
   * The scan misses no run: it finds nothing exactly when no run starts at or after `i`,
   * and no run starts after the last one it finds.
   */
  lemma {:induction false} Digit4MatchesComplete(s: string, i: nat)
    requires i <= |s|
    ensures var ms := Digit4Matches(s, i);
      && (|ms| == 0 <==> forall j: nat :: i <= j ==> !DigitRunAt(s, j))
      && (|ms| > 0 ==> forall j: nat :: ms[|ms| - 1] + 4 <= j ==> !DigitRunAt(s, j))
    decreases |s| - i
  {
    if i + 4 <= |s| {
      if DigitRunAt(s, i) {
        Digit4MatchesComplete(s, i + 4);
        var rest := Digit4Matches(s, i + 4);
        assert Digit4Matches(s, i) == [i] + rest;
      } else {
        Digit4MatchesComplete(s, i + 1);
      }
    }
  }

  /**
   * `last4` with the pattern `\d{4}`: the last run of four digits that the left-to-right,
   * non-overlapping scan finds, or `s[-4:]` when the text has no four digits in a row.
   */
  function Last4(s: string): (r: string)
    ensures |r| <= 4
    ensures (forall j: nat :: !DigitRunAt(s, j)) ==> r == Tail4(s)
    ensures (exists j: nat :: DigitRunAt(s, j)) ==> |r| == 4 && AllDigits(r)
    ensures (exists j: nat :: DigitRunAt(s, j)) ==> exists m: nat :: IsLastRun(s, m) && r == RunText(s, m)
  {
    var ms := Digit4Matches(s, 0);
    Digit4MatchesValid(s, 0);
    Digit4MatchesComplete(s, 0);
    Digit4MatchesAligned(s, 0);
    if |ms| > 0 then
      var m := ms[|ms| - 1];
      assert IsLastRun(s, m);
      RunText(s, m)
    else Tail4(s)
  }

  /** Start of the block of consecutive digits that ends just before index `m`. */
  function BlockStart(s: string, m: nat): (b: nat)
    requires m <= |s|
    ensures b <= m
    ensures forall k :: b <= k < m ==> IsAsciiDigit(s[k])
    ensures b == 0 || !IsAsciiDigit(s[b - 1])
  {
    if m == 0 || !IsAsciiDigit(s[m - 1]) then m else BlockStart(s, m - 1)
  }

  /** Two positions separated only by digits lie in the same block. */
  lemma {:induction false} BlockStartSame(s: string, a: nat, b: nat)
    requires a <= b <= |s|
    requires forall k :: a <= k < b ==> IsAsciiDigit(s[k])
    ensures BlockStart(s, b) == BlockStart(s, a)
    decreases b - a
  {
    if a < b {
      BlockStartSame(s, a, b - 1);
    }
  }

  /** `m` lies a whole number of four-digit groups into its block of digits. */
  ghost predicate Aligned(s: string, m: nat)
  {
    m <= |s| && (m - BlockStart(s, m)) % 4 == 0
  }

  /**
   * The run of four digits starting at `m` is the last one the scan finds: it starts a whole
   * number of four-digit groups into its block of digits, and no run starts after it ends.
   */
  ghost predicate IsLastRun(s: string, m: nat)
  {
    DigitRunAt(s, m) && Aligned(s, m) && forall j: nat :: m + 4 <= j ==> !DigitRunAt(s, j)
  }

  /**
   * A position the scan can stand on: aligned in its block, or just after a digit at which
   * no run of four starts (the block then ends before a further run could fit).
   */
  ghost predicate ScanPosition(s: string, i: nat)
  {
    Aligned(s, i) || (0 < i <= |s| && IsAsciiDigit(s[i - 1]) && !DigitRunAt(s, i - 1))
  }

  /** Every run the scan takes is aligned in its block of digits. */
  lemma {:induction false} Digit4MatchesAligned(s: string, i: nat)
    requires i <= |s| && ScanPosition(s, i)
    ensures forall k :: 0 <= k < |Digit4Matches(s, i)| ==> Aligned(s, Digit4Matches(s, i)[k])
    decreases |s| - i
  {
    if i + 4 <= |s| {
      if DigitRunAt(s, i) {
        assert Aligned(s, i);
        BlockStartSame(s, i, i + 4);
        Digit4MatchesAligned(s, i + 4);
        var rest := Digit4Matches(s, i + 4);
        assert Digit4Matches(s, i) == [i] + rest;
      } else {
        if !IsAsciiDigit(s[i]) {
          assert BlockStart(s, i + 1) == i + 1;
        }
        Digit4MatchesAligned(s, i + 1);
      }
    }
  }

  /** Of two last runs, the earlier is the later. */
  lemma LastRunOrdered(s: string, m1: nat, m2: nat)
    requires IsLastRun(s, m1) && IsLastRun(s, m2) && m1 <= m2
    ensures m1 == m2
  {
    assert m2 < m1 + 4;
    BlockStartSame(s, m1, m2);
  }

  /** At most one run is the last one, so the contract of `Last4` fixes its result. */
  lemma LastRunUnique(s: string, m1: nat, m2: nat)
    requires IsLastRun(s, m1) && IsLastRun(s, m2)
    ensures m1 == m2
  {
    if m1 <= m2 {
      LastRunOrdered(s, m1, m2);
    } else {
      LastRunOrdered(s, m2, m1);
    }
  }

  /** Five digits hold one match, the first four: `findall` does not slide to the last four. */
  lemma Last4FirstGroupOfFive()
    ensures Last4("12345") == "1234"
  {
    var s := "12345";
    assert DigitRunAt(s, 0) && BlockStart(s, 0) == 0;
    assert IsLastRun(s, 0);
    var m: nat :| IsLastRun(s, m) && Last4(s) == RunText(s, m);
    LastRunUnique(s, 0, m);
    assert s[0..4] == "1234";
  }

  /** The four digits of the run at `m`. */
  function RunText(s: string, m: nat): (r: string)
    requires DigitRunAt(s, m)
    ensures |r| == 4 && AllDigits(r) && r == s[m..m + 4]
  {
    s[m..m + 4]
  }

  /**
   * The scan passes every position just after a non-digit: a run of four digits never
   * straddles a non-digit, so the matches from `q` on are the tail of the matches from `i`.
   */
  lemma {:induction false} ScanReaches(s: string, i: nat, q: nat)
    requires i <= q <= |s|
    requires q == i || !IsAsciiDigit(s[q - 1])
    ensures var all, tail := Digit4Matches(s, i), Digit4Matches(s, q);
      |tail| > 0 ==> |all| > 0 && all[|all| - 1] == tail[|tail| - 1]
    decreases q - i
  {
    if i < q && i + 4 <= |s| {
      if DigitRunAt(s, i) {
        ScanReaches(s, i + 4, q);
        var rest := Digit4Matches(s, i + 4);
        assert Digit4Matches(s, i) == [i] + rest;
      } else {
        ScanReaches(s, i + 1, q);
      }
    }
  }

  lemma LastRunMatches(s: string)
    requires |s| >= 4 && DigitRunAt(s, |s| - 4)
    ensures Digit4Matches(s, |s| - 4) == [|s| - 4]
  {
    assert Digit4Matches(s, |s|) == [];
  }

  /**
   * A card number that ends in four digits after a non-digit (a mask such as
   * "**** **** **** 4321") reduces to those four digits.
   */
  lemma Last4OfMaskedNumber(s: string)
    requires |s| >= 4 && DigitRunAt(s, |s| - 4)
    requires |s| == 4 || !IsAsciiDigit(s[|s| - 5])
    ensures Last4(s) == Tail4(s)
  {
    var q := |s| - 4;
    LastRunMatches(s);
    ScanReaches(s, 0, q);
    var ms := Digit4Matches(s, 0);
    assert ms[|ms| - 1] == q;
  }

  /** On such a card number without a backslash the written and the intended pattern agree. */
  lemma Last4AgreesOnMaskedNumber(s: string)
    requires |s| >= 4 && DigitRunAt(s, |s| - 4)
    requires |s| == 4 || !IsAsciiDigit(s[|s| - 5])
    requires '\\' !in s
    ensures Last4AsWritten(s) == Last4(s) == Tail4(s)
  {
    Last4OfMaskedNumber(s);
    NotContainsForeignChar(s, WrittenMatch, 0);
  }

  /** Text with no four digits in a row and no backslash: both patterns fall back to `s[-4:]`. */
  lemma Last4AgreesWithoutDigitRun(s: string)
    requires forall j: nat :: !DigitRunAt(s, j)
    requires '\\' !in s
    ensures Last4AsWritten(s) == Last4(s) == Tail4(s)
  {
    NotContainsForeignChar(s, WrittenMatch, 0);
  }

  /** A short text is kept whole: `"ab"` gives `"ab"`. */
  lemma Last4OfShortText(s: string)
    requires |s| < 4 && '\\' !in s
    ensures Last4AsWritten(s) == Last4(s) == s
  {
    Last4AgreesWithoutDigitRun(s);
  }

  /**
   * The digits come first and the mask last: the written pattern finds nothing and returns
   * the mask, where four digits were evidently wanted.
   */
  lemma Last4Discrepancy()
    ensures Last4AsWritten("1234 ****") == "****"
    ensures Last4("1234 ****") == "1234"
  {
    var s := "1234 ****";
    NotContainsForeignChar(s, WrittenMatch, 0);
    assert s[5..] == "****";
    assert DigitRunAt(s, 0);
    assert !DigitRunAt(s, 5);
    assert Digit4Matches(s, 5) == [];
    assert Digit4Matches(s, 0) == [0] + Digit4Matches(s, 4);
    assert s[0..4] == "1234";
  }
}
