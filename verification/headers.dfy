/**
 * Header normalisation of the statement spreadsheet (`_normalize_header`, processor.py:33-42):
 * ASCII folding, lower-casing, the currency-marker rewrite, collapsing every run of
 * characters outside `a-z0-9` into one space, and stripping.
 */
module Headers {

  import opened Wrappers
  import opened Strings
  import opened Seqs

  predicate IsAscii(c: char) { c as int < 128 }

  /** The characters line 40 keeps: `[a-z0-9]`. */
  predicate IsLowerAlnum(c: char) { 'a' <= c <= 'z' || '0' <= c <= '9' }

  /** The shape of every normalised header: only `a-z`, `0-9` and single inner spaces. */
  predicate IsNormalForm(h: string)
  {
    && (forall i :: 0 <= i < |h| ==> IsLowerAlnum(h[i]) || h[i] == ' ')
    && (forall i :: 0 <= i < |h| - 1 ==> !(h[i] == ' ' && h[i + 1] == ' '))
    && (|h| > 0 ==> h[0] != ' ' && h[|h| - 1] != ' ')
  }

  /**
   * `.encode("ascii", "ignore").decode("ascii")`. The header arrives already in Unicode NFKD
   * form, so an accented letter is its base letter followed by a combining mark, and dropping
   * the non-ASCII characters keeps the base letter.
   */
  function AsciiFold(s: string): (r: string)
    ensures forall i :: 0 <= i < |r| ==> IsAscii(r[i])
    ensures forall c :: c in r <==> c in s && IsAscii(c)
    ensures forall c :: multiset(r)[c] == if IsAscii(c) then multiset(s)[c] else 0
    ensures IsSubsequence(r, s)
  {
    FilterMultiset(IsAscii, s);
    FilterIsSubsequence(IsAscii, s);
    FilterMembers(IsAscii, s);
    Filter(IsAscii, s)
  }

  /**
   * Length of the match, at the start of `t`, of the evidently intended currency pattern
   * `r\$|\(r\$?\)|currency|valor\s*\(.*\)` (alternatives tried in order), or 0 when none matches.
   */
  function CurrencyMatch(t: string): (n: nat)
    ensures n <= |t|
    ensures n > 0 ==> n >= 2
  {
    if StartsWith(t, "r$") then 2
    else if StartsWith(t, "(r$)") then 4
    else if StartsWith(t, "(r)") then 3
    else if StartsWith(t, "currency") then 8
    else if StartsWith(t, "valor") then ValorParenMatch(t)
    else 0
  }

  /**
   * The alternative `valor\s*\(.*\)`: `valor`, whitespace, `(`, then up to the LAST `)` before
   * the first line break (`.` does not match a newline and `.*` is greedy).
   */
  function ValorParenMatch(t: string): (n: nat)
    requires StartsWith(t, "valor")
    ensures n == 0 || 7 <= n <= |t|
  {
    var k := 5 + RunLength(IsPySpace, t[5..]);
    if k < |t| && t[k] == '(' then
      var line := k + 1 + LineLength(t[k + 1..]);
      var close := LastCloseParen(t, k + 1, line);
      if close.Some? then close.value + 1 else 0
    else 0
  }

  /** Number of characters before the first `\n`. */
  function LineLength(s: string): (n: nat)
    ensures n <= |s| && '\n' !in s[..n]
    ensures n < |s| ==> s[n] == '\n'
  {
    if |s| == 0 || s[0] == '\n' then 0 else 1 + LineLength(s[1..])
  }

  /** Index of the last `)` in `t[lo..hi]`. */
  function LastCloseParen(t: string, lo: nat, hi: nat): (r: Option<nat>)
    requires lo <= hi <= |t|
    ensures r.Some? ==> lo <= r.value < hi && t[r.value] == ')'
    ensures r.Some? ==> forall j :: r.value < j < hi ==> t[j] != ')'
    ensures r.None? ==> forall j :: lo <= j < hi ==> t[j] != ')'
    decreases hi - lo
  {
    if lo == hi then None
    else if t[hi - 1] == ')' then Some(hi - 1)
    else LastCloseParen(t, lo, hi - 1)
  }

  /** `re.sub(<intended currency pattern>, "valor", t)`: scan left to right, non-overlapping. */
  function RewriteCurrency(t: string): (r: string)
    ensures (forall i :: 0 <= i < |t| ==> IsAscii(t[i])) ==> forall i :: 0 <= i < |r| ==> IsAscii(r[i])
    decreases |t|
  {
    if |t| == 0 then ""
    else
      var n := CurrencyMatch(t);
      if n > 0 then "valor" + RewriteCurrency(t[n..])
      else [t[0]] + RewriteCurrency(t[1..])
  }

  /** Drop the leading run of characters outside `[a-z0-9]`. */
  function SkipNonAlnum(t: string): (r: string)
    ensures |r| <= |t| && r == t[|t| - |r|..]
    ensures |r| > 0 ==> IsLowerAlnum(r[0])
    ensures |t| > 0 && !IsLowerAlnum(t[0]) ==> |r| < |t|
  {
    if |t| == 0 || IsLowerAlnum(t[0]) then t else SkipNonAlnum(t[1..])
  }

  /** `re.sub(r"[^a-z0-9]+", " ", t)` (line 40). */
  function CollapseNonAlnum(t: string): (r: string)
    ensures forall i :: 0 <= i < |r| ==> IsLowerAlnum(r[i]) || r[i] == ' '
    ensures forall i :: 0 <= i < |r| - 1 ==> !(r[i] == ' ' && r[i + 1] == ' ')
    ensures |r| > 0 <==> |t| > 0
    ensures |r| > 0 ==> (r[0] == ' ' <==> !IsLowerAlnum(t[0]))
    decreases |t|
  {
    if |t| == 0 then ""
    else if IsLowerAlnum(t[0]) then [t[0]] + CollapseNonAlnum(t[1..])
    else " " + CollapseNonAlnum(SkipNonAlnum(t))
  }

  /** Only `a-z`, `0-9` and single spaces, with no space at the end. */
  predicate CollapsedShape(t: string)
  {
    && (forall i :: 0 <= i < |t| ==> IsLowerAlnum(t[i]) || t[i] == ' ')
    && (forall i :: 0 <= i < |t| - 1 ==> !(t[i] == ' ' && t[i + 1] == ' '))
    && (|t| > 0 ==> t[|t| - 1] != ' ')
  }

  lemma CollapsedShapeTail(t: string)
    requires |t| > 0 && CollapsedShape(t)
    ensures CollapsedShape(t[1..])
  {
    var u := t[1..];
    assert forall i :: 0 <= i < |u| ==> u[i] == t[i + 1];
  }

  /** Line 40 changes nothing in text of the collapsed shape. */
  lemma {:induction false} CollapsedShapeIdentity(t: string)
    requires CollapsedShape(t)
    ensures CollapseNonAlnum(t) == t
    decreases |t|
  {
    if |t| > 0 {
      CollapsedShapeTail(t);
      CollapsedShapeIdentity(t[1..]);
      if t[0] == ' ' {
        assert |t| > 1 && IsLowerAlnum(t[1]);
        assert SkipNonAlnum(t[1..]) == t[1..];
        assert SkipNonAlnum(t) == t[1..];
      }
      assert [t[0]] + t[1..] == t;
    }
  }

  /** Line 40 changes nothing in text that already has the normal shape. */
  lemma CollapseNonAlnumIdentity(t: string)
    requires IsNormalForm(t)
    ensures CollapseNonAlnum(t) == t
  {
    CollapsedShapeIdentity(t);
  }

  /**
   * Line 40 read one character at a time: a letter or digit is copied; a character outside
   * `[a-z0-9]` becomes a space when it opens a run of such characters and vanishes when it
   * continues one (`inRun`: the previous character was outside `[a-z0-9]`).
   */
  function MarkRuns(t: string, inRun: bool): (r: string)
    decreases |t|
  {
    if |t| == 0 then ""
    else if IsLowerAlnum(t[0]) then [t[0]] + MarkRuns(t[1..], false)
    else (if inRun then "" else " ") + MarkRuns(t[1..], true)
  }

  /** Inside a run, the rest of the run contributes nothing. */
  lemma {:induction false} MarkRunsInRun(t: string)
    ensures MarkRuns(t, true) == MarkRuns(SkipNonAlnum(t), false)
    decreases |t|
  {
    if |t| > 0 && !IsLowerAlnum(t[0]) {
      MarkRunsInRun(t[1..]);
      assert MarkRuns(t, true) == "" + MarkRuns(t[1..], true);
    }
  }

  /**
   * Line 40 replaces each maximal run of characters outside `[a-z0-9]` by exactly one space
   * and copies every letter and digit.
   */
  lemma {:induction false} CollapseNonAlnumByRuns(t: string)
    ensures CollapseNonAlnum(t) == MarkRuns(t, false)
    decreases |t|
  {
    if |t| > 0 {
      if IsLowerAlnum(t[0]) {
        CollapseNonAlnumByRuns(t[1..]);
      } else {
        var u := SkipNonAlnum(t);
        assert u == SkipNonAlnum(t[1..]);
        CollapseNonAlnumByRuns(u);
        MarkRunsInRun(t[1..]);
      }
    }
  }

  lemma {:induction false} MarkRunsKeepsAlnum(t: string, inRun: bool)
    ensures Filter(IsLowerAlnum, MarkRuns(t, inRun)) == Filter(IsLowerAlnum, t)
    decreases |t|
  {
    if |t| > 0 {
      var head := if IsLowerAlnum(t[0]) then [t[0]] else if inRun then "" else " ";
      var rest := MarkRuns(t[1..], !IsLowerAlnum(t[0]));
      MarkRunsKeepsAlnum(t[1..], !IsLowerAlnum(t[0]));
      assert MarkRuns(t, inRun) == head + rest;
      FilterConcat(IsLowerAlnum, head, rest);
      FilterNothing(IsLowerAlnum, " ");
    }
  }

  /** Line 40 keeps every letter and digit, in order, and adds none. */
  lemma CollapseKeepsAlnum(t: string)
    ensures Filter(IsLowerAlnum, CollapseNonAlnum(t)) == Filter(IsLowerAlnum, t)
  {
    CollapseNonAlnumByRuns(t);
    MarkRunsKeepsAlnum(t, false);
  }

  /** The intended line 41, `re.sub(r"\s+", " ", t)`. */
  function CollapseWhitespace(t: string): (r: string)
    decreases |t|
  {
    if |t| == 0 then ""
    else if IsPySpace(t[0]) then
      var n := RunLength(IsPySpace, t);
      " " + CollapseWhitespace(t[n..])
    else [t[0]] + CollapseWhitespace(t[1..])
  }

  /** Line 41 as written, `re.sub(r"\\s+", " ", t)`: a backslash followed by one or more `s`. */
  function BackslashSRewrite(t: string): (r: string)
    decreases |t|
  {
    if |t| >= 2 && t[0] == '\\' && t[1] == 's' then
      var n := RunLength(c => c == 's', t[1..]);
      " " + BackslashSRewrite(t[1 + n..])
    else if |t| == 0 then ""
    else [t[0]] + BackslashSRewrite(t[1..])
  }

  /** Line 41 as written changes nothing in a string without backslashes. */
  lemma {:induction false} BackslashSRewriteIdentity(t: string)
    requires '\\' !in t
    ensures BackslashSRewrite(t) == t
    decreases |t|
  {
    if |t| > 0 {
      BackslashSRewriteIdentity(t[1..]);
      assert [t[0]] + t[1..] == t;
    }
  }

  /** The intended line 41 changes nothing in the output of line 40. */
  lemma {:induction false} CollapseWhitespaceIdentity(t: string)
    requires forall i :: 0 <= i < |t| ==> IsLowerAlnum(t[i]) || t[i] == ' '
    requires forall i :: 0 <= i < |t| - 1 ==> !(t[i] == ' ' && t[i + 1] == ' ')
    ensures CollapseWhitespace(t) == t
    decreases |t|
  {
    if |t| > 0 {
      CollapseWhitespaceIdentity(t[1..]);
      if IsPySpace(t[0]) {
        assert t[0] == ' ';
        assert |t| > 1 ==> !IsPySpace(t[1]);
        assert RunLength(IsPySpace, t) == 1;
      }
      assert [t[0]] + t[1..] == t;
    }
  }

  /** Every slice of a string of the line-40 shape keeps that shape. */
  lemma SliceKeepsShape(t: string, i: nat, j: nat)
    requires i <= j <= |t|
    requires forall k :: 0 <= k < |t| ==> IsLowerAlnum(t[k]) || t[k] == ' '
    requires forall k :: 0 <= k < |t| - 1 ==> !(t[k] == ' ' && t[k + 1] == ' ')
    ensures forall k :: 0 <= k < j - i ==> IsLowerAlnum(t[i..j][k]) || t[i..j][k] == ' '
    ensures forall k :: 0 <= k < j - i - 1 ==> !(t[i..j][k] == ' ' && t[i..j][k + 1] == ' ')
  {
    forall k | 0 <= k < j - i - 1
      ensures !(t[i..j][k] == ' ' && t[i..j][k + 1] == ' ')
    {
      assert t[i..j][k] == t[i + k] && t[i..j][k + 1] == t[i + k + 1];
    }
  }

  /** Stripping text of the line-40 shape gives a normal form. */
  lemma StripShape(t: string)
    requires forall k :: 0 <= k < |t| ==> IsLowerAlnum(t[k]) || t[k] == ' '
    requires forall k :: 0 <= k < |t| - 1 ==> !(t[k] == ' ' && t[k + 1] == ' ')
    ensures IsNormalForm(Strip(t))
  {
    var i, j :| 0 <= i <= j <= |t| && Strip(t) == t[i..j];
    SliceKeepsShape(t, i, j);
  }

  /** Lines 40-42 always end in a normal form. */
  lemma CollapseStepsNormalForm(t1: string)
    ensures IsNormalForm(Strip(CollapseWhitespace(CollapseNonAlnum(t1))))
  {
    var t2 := CollapseNonAlnum(t1);
    CollapseWhitespaceIdentity(t2);
    StripShape(t2);
  }

  /** `_normalize_header(s)` with the currency pattern of line 39 as evidently intended. */
  function NormalizeHeader(h: Option<string>): (r: string)
    ensures h.None? ==> r == ""
    ensures IsNormalForm(r)
    ensures h.Some? ==> Filter(IsLowerAlnum, r) == Filter(IsLowerAlnum, RewriteCurrency(Lower(AsciiFold(h.value))))
  {
    match h
    case None => ""
    case Some(s) =>
      var t1 := RewriteCurrency(Lower(AsciiFold(s)));
      CollapseStepsNormalForm(t1);
      CollapseThenLine41(t1);
      StripKeepsAlnum(CollapseNonAlnum(t1));
      CollapseKeepsAlnum(t1);
      Strip(CollapseWhitespace(CollapseNonAlnum(t1)))
  }

  /** `_normalize_header` applied to every column label, in column order. */
  function NormalizedHeaders(hs: seq<Option<string>>): (r: seq<string>)
    ensures |r| == |hs|
    ensures forall i :: 0 <= i < |hs| ==> r[i] == NormalizeHeader(hs[i])
  {
    seq(|hs|, i requires 0 <= i < |hs| => NormalizeHeader(hs[i]))
  }

  /** Why the pattern at line 39 is refused by Python's `re` module. */
  datatype PatternError = NothingToRepeat

  /**
   * `_normalize_header` exactly as written. Inside the raw string of line 39, `\\(r\\$?\\)`
   * is a literal backslash, a group `(r\\$?\\)`, and in it `$?`: a `?` applied to the end
   * anchor `$`. Python's `re` rejects a repeat of an anchor with "nothing to repeat" when it
   * compiles the pattern, before looking at the subject, so every non-None header raises.
   */
  function NormalizeHeaderAsWritten(h: Option<string>): (r: Result<string, PatternError>)
    ensures h.None? <==> r.Success?
    ensures r.Success? ==> r.value == ""
  {
    match h
    case None => Success("")
    case Some(_) => Failure(NothingToRepeat)
  }

  /** Proof helper only: unfolds the definition of `NormalizeHeader` for a present header; it states no property. */
  lemma NormalizeHeaderSteps(s: string)
    ensures NormalizeHeader(Some(s))
      == Strip(CollapseWhitespace(CollapseNonAlnum(RewriteCurrency(Lower(AsciiFold(s))))))
  {
  }

  /** As written, line 39 raises for every present header; the intended pattern yields a normal form. */
  lemma NormalizeHeaderDiscrepancy(s: string)
    ensures NormalizeHeaderAsWritten(Some(s)).Failure?
    ensures IsNormalForm(NormalizeHeader(Some(s)))
  {
  }

  /** All tokens of a label occur in a normalised header (`all(tok in h for tok in tokens)`). */
  predicate HasAllTokens(h: string, tokens: set<string>)
  {
    forall tok :: tok in tokens ==> Contains(h, tok)
  }

  lemma HasAllTokensOfPair(h: string, a: string, b: string)
    requires Contains(h, a) && Contains(h, b)
    ensures HasAllTokens(h, {a, b})
  {
  }

  lemma MissingTokenFails(h: string, tokens: set<string>, tok: string)
    requires tok in tokens && !Contains(h, tok)
    ensures !HasAllTokens(h, tokens)
  {
  }

  /** A normalised header never contains `*`, so the token `****` never matches. */
  lemma StarTokenNeverMatches(h: Option<string>)
    ensures !Contains(NormalizeHeader(h), "****")
    ensures !HasAllTokens(NormalizeHeader(h), {"final", "****"})
  {
    var n := NormalizeHeader(h);
    NotContainsForeignChar(n, "****", 0);
    assert "****" in {"final", "****"};
  }

  /** Text without `$` or `(` starts with a currency marker only if it starts with `currency`. */
  lemma NoCurrencyAtHead(t: string)
    requires |t| > 0 && '$' !in t && '(' !in t && !StartsWith(t, "currency")
    ensures CurrencyMatch(t) == 0
  {
    assert t[0] in t;
    if |t| > 1 {
      assert t[1] in t;
    }
    MismatchAt(t, "r$", 1);
    MismatchAt(t, "(r$)", 0);
    MismatchAt(t, "(r)", 0);
    if StartsWith(t, "valor") {
      var k := 5 + RunLength(IsPySpace, t[5..]);
      if k < |t| {
        assert t[k] in t;
      }
    }
  }

  /** Text without `$`, `(` or `currency` holds no currency marker. */
  lemma {:induction false} RewriteCurrencyIdentity(t: string)
    requires '$' !in t && '(' !in t && !Contains(t, "currency")
    ensures RewriteCurrency(t) == t
    decreases |t|
  {
    if |t| > 0 {
      NoCurrencyAtHead(t);
      assert forall c :: c in t[1..] ==> c in t;
      RewriteCurrencyIdentity(t[1..]);
      assert [t[0]] + t[1..] == t;
    }
  }

  /** The first rewritten character is the `v` of `valor` or the first character of the text. */
  lemma RewriteCurrencyHead(t: string)
    requires |t| > 0
    ensures |RewriteCurrency(t)| > 0
    ensures RewriteCurrency(t)[0] == if CurrencyMatch(t) > 0 then 'v' else t[0]
  {
  }

  /** Where no marker starts, the first character is copied and the rest rewritten. */
  lemma RewriteCurrencyUnmatched(t: string)
    requires |t| > 0 && RewriteCurrency(t)[0] != 'v'
    ensures RewriteCurrency(t) == [t[0]] + RewriteCurrency(t[1..])
  {
    RewriteCurrencyHead(t);
  }

  /** Rewritten text that starts with a word free of `v` comes from text starting with that word. */
  lemma {:induction false} RewriteCurrencyPrefix(t: string, w: string)
    requires 'v' !in w && StartsWith(RewriteCurrency(t), w)
    ensures StartsWith(t, w)
    decreases |w|
  {
    if |w| > 0 {
      var r := RewriteCurrency(t);
      assert r[0] == w[0] && w[0] in w by {
        assert r[..|w|][0] == r[0];
      }
      RewriteCurrencyHead(t);
      RewriteCurrencyUnmatched(t);
      var u := RewriteCurrency(t[1..]);
      assert r == [t[0]] + u;
      assert StartsWith(u, w[1..]) by {
        assert u == r[1..];
        assert r[1..][..|w| - 1] == r[..|w|][1..];
      }
      assert forall c :: c in w[1..] ==> c in w;
      RewriteCurrencyPrefix(t[1..], w[1..]);
      assert t[..|w|] == [t[0]] + t[1..][..|w| - 1];
    }
  }

  /**
   * The rewrite leaves no `currency` behind: every occurrence is replaced, and the inserted
   * `valor` cannot start a new one.
   */
  lemma {:induction false} RewriteCurrencyLeavesNoCurrency(t: string)
    ensures !Contains(RewriteCurrency(t), "currency")
    decreases |t|
  {
    if |t| > 0 {
      var n := CurrencyMatch(t);
      if n > 0 {
        RewriteCurrencyLeavesNoCurrency(t[n..]);
        var rest := RewriteCurrency(t[n..]);
        assert RewriteCurrency(t) == "valor" + rest;
        if Contains("valor" + rest, "currency") {
          ContainsPastPrefix("valor", rest, "currency");
        }
      } else {
        RewriteCurrencyLeavesNoCurrency(t[1..]);
        var r := RewriteCurrency(t);
        assert r == [t[0]] + RewriteCurrency(t[1..]);
        assert r[1..] == RewriteCurrency(t[1..]);
        if StartsWith(r, "currency") {
          RewriteCurrencyPrefix(t, "currency");
          CurrencyAtHead(t);
          assert false;
        }
        NotContainsHeadTail(r, "currency");
      }
    }
  }

  /** A text starting with `currency` is a match of the currency pattern. */
  lemma CurrencyAtHead(t: string)
    requires StartsWith(t, "currency")
    ensures CurrencyMatch(t) > 0
  {
    assert t[..8][0] == 'c';
    assert !StartsWith(t, "valor") by {
      assert t[..5][0] == 'c' && "valor"[0] == 'v';
    }
  }

  /** An alphanumeric word at the start of the line-40 output starts the input too. */
  lemma {:induction false} CollapsePrefix(t: string, w: string)
    requires forall k :: 0 <= k < |w| ==> IsLowerAlnum(w[k])
    requires StartsWith(CollapseNonAlnum(t), w)
    ensures StartsWith(t, w)
    decreases |w|
  {
    if |w| > 0 {
      var r := CollapseNonAlnum(t);
      var u := CollapseNonAlnum(t[1..]);
      assert r[0] == w[0] by {
        assert r[..|w|][0] == r[0];
      }
      assert IsLowerAlnum(t[0]);
      assert r == [t[0]] + u;
      assert StartsWith(u, w[1..]) by {
        assert u == r[1..];
        assert r[1..][..|w| - 1] == r[..|w|][1..];
      }
      CollapsePrefix(t[1..], w[1..]);
      assert t[..|w|] == [t[0]] + t[1..][..|w| - 1];
    }
  }

  /** Line 40 creates no alphanumeric word that its input lacked. */
  lemma {:induction false} CollapseAddsNoWord(t: string, w: string)
    requires |w| > 0 && forall k :: 0 <= k < |w| ==> IsLowerAlnum(w[k])
    requires !Contains(t, w)
    ensures !Contains(CollapseNonAlnum(t), w)
    decreases |t|
  {
    if |t| > 0 {
      var r := CollapseNonAlnum(t);
      if StartsWith(r, w) {
        CollapsePrefix(t, w);
      }
      if IsLowerAlnum(t[0]) {
        CollapseAddsNoWord(t[1..], w);
        assert r[1..] == CollapseNonAlnum(t[1..]);
      } else {
        var u := SkipNonAlnum(t);
        if Contains(u, w) {
          assert u == t[|t| - |u|..|t|];
          ContainsInSlice(t, |t| - |u|, |t|, w);
        }
        CollapseAddsNoWord(u, w);
        assert r[1..] == CollapseNonAlnum(u);
      }
    }
  }

  /**
   * Line 41 as written (a backslash followed by `s`) and as intended (`\s+`) both leave the
   * output of line 40 unchanged, so the two readings give the same header.
   */
  lemma CollapseThenLine41(t: string)
    ensures BackslashSRewrite(CollapseNonAlnum(t)) == CollapseNonAlnum(t)
    ensures CollapseWhitespace(CollapseNonAlnum(t)) == CollapseNonAlnum(t)
  {
    var u := CollapseNonAlnum(t);
    assert forall c :: c in u ==> IsLowerAlnum(c) || c == ' ';
    BackslashSRewriteIdentity(u);
    CollapseWhitespaceIdentity(u);
  }

  /** `currency` is a word of `[a-z0-9]` characters. */
  lemma CurrencyIsWord()
    ensures forall k :: 0 <= k < |"currency"| ==> IsLowerAlnum("currency"[k])
  {
  }

  /** Lines 39-42 leave no `currency` in any text. */
  lemma PipelineLeavesNoCurrency(t0: string)
    ensures !Contains(Strip(CollapseWhitespace(CollapseNonAlnum(RewriteCurrency(t0)))), "currency")
  {
    var t1 := RewriteCurrency(t0);
    var t2 := CollapseNonAlnum(t1);
    RewriteCurrencyLeavesNoCurrency(t0);
    CurrencyIsWord();
    CollapseAddsNoWord(t1, "currency");
    CollapseThenLine41(t1);
    StripAddsNothing(t2, "currency");
  }

  /** A normalised header holds no `currency`. */
  lemma NormalizeHeaderLeavesNoCurrency(h: Option<string>)
    ensures !Contains(NormalizeHeader(h), "currency")
  {
    if h.Some? {
      NormalizeHeaderSteps(h.value);
      PipelineLeavesNoCurrency(Lower(AsciiFold(h.value)));
    }
  }

  /** Folding and lower-casing leave a normal form unchanged. */
  lemma FoldLowerFixed(t: string)
    requires IsNormalForm(t)
    ensures Lower(AsciiFold(t)) == t
  {
    FilterKeepsAll(IsAscii, t);
    LowerIdentity(t);
  }

  /** The currency rewrite leaves a normal form without `currency` unchanged. */
  lemma RewriteFixed(t: string)
    requires IsNormalForm(t) && !Contains(t, "currency")
    ensures RewriteCurrency(t) == t
  {
    assert '$' !in t && '(' !in t by {
      assert forall c :: c in t ==> IsLowerAlnum(c) || c == ' ';
    }
    RewriteCurrencyIdentity(t);
  }

  /** Lines 40-42 leave a normal form unchanged. */
  lemma CollapseStepsFixed(t: string)
    requires IsNormalForm(t)
    ensures Strip(CollapseWhitespace(CollapseNonAlnum(t))) == t
  {
    CollapseNonAlnumIdentity(t);
    CollapseWhitespaceIdentity(t);
    StripIdentity(t);
  }

  /** A normal form without `currency` is a fixed point of the normalisation. */
  lemma NormalFormFixed(t: string)
    requires IsNormalForm(t) && !Contains(t, "currency")
    ensures NormalizeHeader(Some(t)) == t
  {
    NormalizeHeaderSteps(t);
    FoldLowerFixed(t);
    RewriteFixed(t);
    CollapseStepsFixed(t);
  }

  /** Cutting whitespace off both ends keeps every letter and digit, in order. */
  lemma TrimKeepsAlnum(s: string, i: nat, j: nat)
    requires i <= j <= |s|
    requires forall k :: 0 <= k < i ==> IsPySpace(s[k])
    requires forall k :: j <= k < |s| ==> IsPySpace(s[k])
    ensures Filter(IsLowerAlnum, s[i..j]) == Filter(IsLowerAlnum, s)
  {
    FilterDropsEnds(IsLowerAlnum, s, i, j);
  }

  /** Stripping removes only whitespace, so every letter and digit stays, in order. */
  lemma StripKeepsAlnum(s: string)
    ensures Filter(IsLowerAlnum, Strip(s)) == Filter(IsLowerAlnum, s)
  {
    var i, j :| 0 <= i <= j <= |s| && Strip(s) == s[i..j]
      && (forall k :: 0 <= k < i ==> IsPySpace(s[k]))
      && (forall k :: j <= k < |s| ==> IsPySpace(s[k]));
    TrimKeepsAlnum(s, i, j);
  }

  /**
   * A label without a currency marker normalises to its own ASCII letters and digits,
   * lower-cased and in order, with single spaces where its other characters were.
   */
  lemma PlainLabelKeepsAlnum(s: string)
    requires '$' !in s && '(' !in s && !Contains(Lower(AsciiFold(s)), "currency")
    ensures Filter(IsLowerAlnum, NormalizeHeader(Some(s))) == Filter(IsLowerAlnum, Lower(AsciiFold(s)))
  {
    var a := AsciiFold(s);
    var l := Lower(a);
    assert '$' !in l && '(' !in l by {
      forall k | 0 <= k < |l| ensures l[k] != '$' && l[k] != '(' {
        assert a[k] in a;
      }
    }
    RewriteCurrencyIdentity(l);
  }

  /** Normalising a normalised header changes nothing. */
  lemma NormalizeHeaderIdempotent(h: Option<string>)
    ensures NormalizeHeader(Some(NormalizeHeader(h))) == NormalizeHeader(h)
  {
    NormalizeHeaderLeavesNoCurrency(h);
    NormalFormFixed(NormalizeHeader(h));
  }
}
