/** Character classes and string operations of Python's `str` that the two scripts rely on. */
module Strings {

  import opened Wrappers

  /** Python's `str.isspace()`, which is also what `\s` matches in a `str` regular expression. */
  predicate IsPySpace(c: char)
  {
    var n := c as int;
    (9 <= n <= 13) || (28 <= n <= 32) || n == 0x85 || n == 0xA0 || n == 0x1680
    || (0x2000 <= n <= 0x200A) || n == 0x2028 || n == 0x2029 || n == 0x202F
    || n == 0x205F || n == 0x3000
  }

  predicate IsAsciiDigit(c: char) { '0' <= c <= '9' }

  predicate IsAsciiUpper(c: char) { 'A' <= c <= 'Z' }

  predicate AllDigits(s: string) { forall i :: 0 <= i < |s| ==> IsAsciiDigit(s[i]) }

  /** `str.lower()` on one character; only ASCII letters are folded (see README). */
  function LowerChar(c: char): (d: char)
    ensures IsAsciiUpper(c) ==> d as int == c as int + 32
    ensures !IsAsciiUpper(c) ==> d == c
  {
    if IsAsciiUpper(c) then (c as int + 32) as char else c
  }

  function Lower(s: string): (r: string)
    ensures |r| == |s|
    ensures forall i :: 0 <= i < |s| ==> r[i] == LowerChar(s[i])
  {
    if |s| == 0 then "" else [LowerChar(s[0])] + Lower(s[1..])
  }

  /** Lower-casing text without ASCII capitals changes nothing. */
  lemma LowerIdentity(s: string)
    requires forall i :: 0 <= i < |s| ==> !IsAsciiUpper(s[i])
    ensures Lower(s) == s
  {
  }

  lemma LowerConcat(a: string, b: string)
    ensures Lower(a + b) == Lower(a) + Lower(b)
  {
  }

  predicate StartsWith(s: string, p: string)
  {
    |p| <= |s| && s[..|p|] == p
  }

  /** A prefix test fails as soon as one character differs. */
  lemma MismatchAt(s: string, p: string, k: nat)
    requires k < |p| && (k < |s| ==> s[k] != p[k])
    ensures !StartsWith(s, p)
  {
    if |p| <= |s| {
      assert s[..|p|][k] == s[k];
    }
  }

  /** Python's `a < b` on strings: code-point lexicographic order, a proper prefix first. */
  predicate StrLess(a: string, b: string)
    decreases |a|
  {
    if |a| == 0 then |b| > 0
    else if |b| == 0 then false
    else if a[0] != b[0] then a[0] < b[0]
    else StrLess(a[1..], b[1..])
  }

  lemma {:induction false} StrLessIrreflexive(a: string)
    ensures !StrLess(a, a)
    decreases |a|
  {
    if |a| > 0 {
      StrLessIrreflexive(a[1..]);
    }
  }

  lemma {:induction false} StrLessTotal(a: string, b: string)
    ensures a == b || StrLess(a, b) || StrLess(b, a)
    decreases |a|
  {
    if |a| > 0 && |b| > 0 && a[0] == b[0] {
      StrLessTotal(a[1..], b[1..]);
      if a[1..] == b[1..] {
        assert a == [a[0]] + a[1..] && b == [b[0]] + b[1..];
      }
    }
  }

  lemma {:induction false} StrLessAsymmetric(a: string, b: string)
    requires StrLess(a, b)
    ensures !StrLess(b, a)
    decreases |a|
  {
    if |a| > 0 && |b| > 0 && a[0] == b[0] {
      StrLessAsymmetric(a[1..], b[1..]);
    }
  }

  lemma {:induction false} StrLessTransitive(a: string, b: string, c: string)
    requires StrLess(a, b) && StrLess(b, c)
    ensures StrLess(a, c)
    decreases |a|
  {
    if |a| > 0 && a[0] == b[0] && b[0] == c[0] {
      StrLessTransitive(a[1..], b[1..], c[1..]);
    }
  }

  /** Python's `pat in s`. */
  predicate Contains(s: string, pat: string)
    decreases |s|
  {
    StartsWith(s, pat) || (|s| > 0 && Contains(s[1..], pat))
  }

  /** An occurrence is either at the start or in the tail. */
  lemma NotContainsHeadTail(s: string, pat: string)
    requires |s| > 0 && !StartsWith(s, pat) && !Contains(s[1..], pat)
    ensures !Contains(s, pat)
  {
  }

  /** `pat` occurs in `s` starting at index `i`. */
  predicate OccursAt(s: string, pat: string, i: nat)
  {
    i + |pat| <= |s| && s[i..i + |pat|] == pat
  }

  lemma {:induction false} ContainsWitness(s: string, pat: string)
    requires Contains(s, pat)
    ensures exists i: nat :: OccursAt(s, pat, i)
    decreases |s|
  {
    if !StartsWith(s, pat) {
      ContainsWitness(s[1..], pat);
      var i: nat :| OccursAt(s[1..], pat, i);
      assert s[i + 1..i + 1 + |pat|] == s[1..][i..i + |pat|];
      assert OccursAt(s, pat, i + 1);
    } else {
      assert OccursAt(s, pat, 0);
    }
  }

  lemma {:induction false} ContainsAt(s: string, pat: string, i: nat)
    requires OccursAt(s, pat, i)
    ensures Contains(s, pat)
    decreases i
  {
    if i > 0 {
      assert s[1..][i - 1..i - 1 + |pat|] == s[i..i + |pat|];
      ContainsAt(s[1..], pat, i - 1);
    } else {
      assert s[..|pat|] == s[0..0 + |pat|];
    }
  }

  lemma ContainsInfix(a: string, p: string, b: string)
    ensures Contains(a + p + b, p)
  {
    assert (a + p + b)[|a|..|a| + |p|] == p;
    ContainsAt(a + p + b, p, |a|);
  }

  /** Whatever a slice contains, the whole string contains. */
  lemma ContainsInSlice(s: string, i: nat, j: nat, pat: string)
    requires i <= j <= |s| && Contains(s[i..j], pat)
    ensures Contains(s, pat)
  {
    ContainsWitness(s[i..j], pat);
    var k: nat :| OccursAt(s[i..j], pat, k);
    forall m | 0 <= m < |pat|
      ensures s[i + k + m] == pat[m]
    {
      assert s[i..j][k..k + |pat|][m] == s[i + k + m];
    }
    assert s[i + k..i + k + |pat|] == pat;
    ContainsAt(s, pat, i + k);
  }

  /** An occurrence of `pat` in `a + x`, where `a` never holds `pat[0]`, lies inside `x`. */
  lemma {:induction false} ContainsPastPrefix(a: string, x: string, pat: string)
    requires |pat| > 0 && pat[0] !in a && Contains(a + x, pat)
    ensures Contains(x, pat)
    decreases |a|
  {
    if |a| > 0 {
      assert (a + x)[0] == a[0] && a[0] in a;
      MismatchAt(a + x, pat, 0);
      assert (a + x)[1..] == a[1..] + x;
      assert forall c :: c in a[1..] ==> c in a;
      ContainsPastPrefix(a[1..], x, pat);
    } else {
      assert a + x == x;
    }
  }

  /** A string none of whose characters is `pat[k]` does not contain `pat`. */
  lemma {:induction false} NotContainsForeignChar(s: string, pat: string, k: nat)
    requires k < |pat| && forall i :: 0 <= i < |s| ==> s[i] != pat[k]
    ensures !Contains(s, pat)
    decreases |s|
  {
    if |s| > 0 {
      NotContainsForeignChar(s[1..], pat, k);
    }
    if |pat| <= |s| {
      assert s[..|pat|][k] != pat[k];
    }
  }

  /** Length of the leading run of characters satisfying `p`. */
  function RunLength(p: char -> bool, s: string): (n: nat)
    ensures n <= |s|
    ensures forall i :: 0 <= i < n ==> p(s[i])
    ensures n < |s| ==> !p(s[n])
  {
    if |s| == 0 || !p(s[0]) then 0 else 1 + RunLength(p, s[1..])
  }

  /** Python's `str.strip()`: the slice between the leading and the trailing whitespace. */
  function Strip(s: string): (r: string)
    ensures exists i, j :: (0 <= i <= j <= |s| && r == s[i..j]
      && (forall k :: 0 <= k < i ==> IsPySpace(s[k]))
      && (forall k :: j <= k < |s| ==> IsPySpace(s[k])))
    ensures |r| > 0 ==> !IsPySpace(r[0]) && !IsPySpace(r[|r| - 1])
  {
    var i := RunLength(IsPySpace, s);
    var j := |s| - TrailingRun(s);
    if i >= j then
      assert forall k :: j <= k < |s| ==> IsPySpace(s[k]) by {
        forall k | j <= k < |s| ensures IsPySpace(s[k]) {
          if k < i { } else { }
        }
      }
      s[j..j]
    else s[i..j]
  }

  /** Stripping a string that neither starts nor ends with whitespace changes nothing. */
  lemma StripIdentity(s: string)
    requires |s| > 0 ==> !IsPySpace(s[0]) && !IsPySpace(s[|s| - 1])
    ensures Strip(s) == s
  {
    var i, j :| 0 <= i <= j <= |s| && Strip(s) == s[i..j]
      && (forall k :: 0 <= k < i ==> IsPySpace(s[k]))
      && (forall k :: j <= k < |s| ==> IsPySpace(s[k]));
    if |s| > 0 {
      var first, last := s[0], s[|s| - 1];
      assert !IsPySpace(first) && !IsPySpace(last);
    }
  }

  /** Stripping never creates an occurrence. */
  lemma StripAddsNothing(s: string, pat: string)
    requires !Contains(s, pat)
    ensures !Contains(Strip(s), pat)
  {
    var i, j :| 0 <= i <= j <= |s| && Strip(s) == s[i..j];
    if Contains(s[i..j], pat) {
      ContainsInSlice(s, i, j, pat);
    }
  }

  /** Length of the trailing run of whitespace. */
  function TrailingRun(s: string): (n: nat)
    ensures n <= |s|
    ensures forall k :: |s| - n <= k < |s| ==> IsPySpace(s[k])
    ensures n < |s| ==> !IsPySpace(s[|s| - n - 1])
  {
    if |s| == 0 || !IsPySpace(s[|s| - 1]) then 0 else 1 + TrailingRun(s[..|s| - 1])
  }

  /** Python's `s.count(c)` for a one-character `c`. */
  function Count(s: string, c: char): (n: nat)
    ensures n <= |s|
    ensures n == 0 <==> c !in s
  {
    if |s| == 0 then 0 else (if s[0] == c then 1 else 0) + Count(s[1..], c)
  }

  lemma {:induction false} CountConcat(a: string, b: string, c: char)
    ensures Count(a + b, c) == Count(a, c) + Count(b, c)
  {
    if |a| == 0 {
      assert a + b == b;
    } else {
      assert (a + b)[1..] == a[1..] + b;
      CountConcat(a[1..], b, c);
    }
  }

  /** Python's `s.replace(c, "")` for a one-character `c`. */
  function RemoveChar(s: string, c: char): (r: string)
    ensures c !in r
    ensures forall x :: x in r <==> x in s && x != c
    ensures |r| == |s| - Count(s, c)
  {
    if |s| == 0 then "" else (if s[0] == c then "" else [s[0]]) + RemoveChar(s[1..], c)
  }

  /** Python's `s.replace(c, d)` for one-character `c` and `d`. */
  function ReplaceChar(s: string, c: char, d: char): (r: string)
    ensures |r| == |s|
    ensures forall i :: 0 <= i < |s| ==> r[i] == (if s[i] == c then d else s[i])
  {
    if |s| == 0 then "" else [if s[0] == c then d else s[0]] + ReplaceChar(s[1..], c, d)
  }

  /** Python's `sep.join(xs)`. */
  function Join(xs: seq<string>, sep: string): string
  {
    if |xs| == 0 then ""
    else if |xs| == 1 then xs[0]
    else xs[0] + sep + Join(xs[1..], sep)
  }

  /** Python's `s.split(c)` for a one-character separator: always at least one piece. */
  function Split(s: string, c: char): (r: seq<string>)
    ensures |r| >= 1
  {
    if |s| == 0 then [""]
    else if s[0] == c then [""] + Split(s[1..], c)
    else
      var t := Split(s[1..], c);
      [[s[0]] + t[0]] + t[1..]
  }

  /** No piece of a split holds the separator. */
  lemma {:induction false} SplitPiecesOmitSeparator(s: string, c: char)
    ensures forall k :: 0 <= k < |Split(s, c)| ==> c !in Split(s, c)[k]
  {
    if |s| > 0 {
      SplitPiecesOmitSeparator(s[1..], c);
      var t := Split(s[1..], c);
      if s[0] != c {
        var r := Split(s, c);
        assert r[0] == [s[0]] + t[0];
        assert forall k :: 1 <= k < |r| ==> r[k] == t[k];
      }
    }
  }

  lemma {:induction false} SplitNoSeparator(x: string, c: char)
    requires c !in x
    ensures Split(x, c) == [x]
  {
    if |x| > 0 {
      SplitNoSeparator(x[1..], c);
      assert [x[0]] + x[1..] == x;
    }
  }

  lemma {:induction false} SplitAfterPiece(x: string, rest: string, c: char)
    requires c !in x
    ensures Split(x + [c] + rest, c) == [x] + Split(rest, c)
  {
    if |x| == 0 {
      assert x + [c] + rest == [c] + rest;
      assert ([c] + rest)[1..] == rest;
    } else {
      assert (x + [c] + rest)[1..] == x[1..] + [c] + rest;
      SplitAfterPiece(x[1..], rest, c);
      assert [x[0]] + x[1..] == x;
    }
  }

  /** The last piece of a split ends with the text's last character, when that is not the separator. */
  lemma {:induction false} SplitLastPiece(s: string, c: char)
    requires |s| > 0 && s[|s| - 1] != c
    ensures var r := Split(s, c); var last := r[|r| - 1]; |last| > 0 && last[|last| - 1] == s[|s| - 1]
  {
    if |s| > 1 {
      assert s[1..][|s[1..]| - 1] == s[|s| - 1];
      SplitLastPiece(s[1..], c);
    }
  }

  /** Splitting around one separator splits each side independently. */
  lemma {:induction false} SplitAround(u: string, v: string, c: char)
    ensures Split(u + [c] + v, c) == Split(u, c) + Split(v, c)
  {
    if |u| == 0 {
      assert u + [c] + v == [c] + v;
      assert ([c] + v)[1..] == v;
    } else {
      assert (u + [c] + v)[1..] == u[1..] + [c] + v;
      SplitAround(u[1..], v, c);
    }
  }

  /** Splitting a join on a separator that occurs in no piece gives the pieces back. */
  lemma {:induction false} SplitJoin(xs: seq<string>, c: char)
    requires |xs| >= 1
    requires forall k :: 0 <= k < |xs| ==> c !in xs[k]
    ensures Split(Join(xs, [c]), c) == xs
  {
    if |xs| == 1 {
      SplitNoSeparator(xs[0], c);
    } else {
      SplitJoin(xs[1..], c);
      SplitAfterPiece(xs[0], Join(xs[1..], [c]), c);
      assert [xs[0]] + xs[1..] == xs;
    }
  }

  /** Joining the pieces of a split with the separator gives the text back. */
  lemma {:induction false} JoinSplit(s: string, c: char)
    ensures Join(Split(s, c), [c]) == s
  {
    if |s| > 0 {
      var t := Split(s[1..], c);
      JoinSplit(s[1..], c);
      if s[0] == c {
        assert ([""] + t)[1..] == t;
      } else {
        var r := [[s[0]] + t[0]] + t[1..];
        assert r[1..] == t[1..];
        if |t| > 1 {
          assert Join(t, [c]) == t[0] + [c] + Join(t[1..], [c]);
        }
      }
      assert [s[0]] + s[1..] == s;
    }
  }

  /** Index of the first occurrence of `pat` in `s` at or after `from` (Python's `s.find(pat, from)`), or None. */
  function FindFrom(s: string, pat: string, from: nat): (r: Option<nat>)
    requires from <= |s|
    ensures r.Some? ==> from <= r.value && OccursAt(s, pat, r.value)
    ensures r.Some? ==> forall i: nat :: from <= i < r.value ==> !OccursAt(s, pat, i)
    ensures r.None? ==> forall i: nat :: from <= i ==> !OccursAt(s, pat, i)
    decreases |s| - from
  {
    if |s| - from < |pat| then None
    else if s[from..from + |pat|] == pat then Some(from)
    else FindFrom(s, pat, from + 1)
  }

  function DigitChar(d: nat): (c: char)
    requires d < 10
    ensures IsAsciiDigit(c)
  {
    ('0' as int + d) as char
  }

  function DigitValue(c: char): (d: nat)
    requires IsAsciiDigit(c)
    ensures d < 10 && DigitChar(d) == c
  {
    c as int - '0' as int
  }

  /** Python's `str(n)` for a natural number: decimal digits without leading zeros. */
  function NatToString(n: nat): (r: string)
    ensures |r| >= 1 && AllDigits(r)
    ensures r[0] == '0' ==> n == 0
  {
    if n < 10 then [DigitChar(n)] else NatToString(n / 10) + [DigitChar(n % 10)]
  }

  /** Python's `int(s)` for a string of ASCII decimal digits (leading zeros allowed). */
  function DigitsValue(s: string): nat
    requires AllDigits(s)
  {
    if |s| == 0 then 0 else DigitsValue(s[..|s| - 1]) * 10 + DigitValue(s[|s| - 1])
  }

  lemma {:induction false} NatToStringRoundTrip(n: nat)
    ensures DigitsValue(NatToString(n)) == n
  {
    if n >= 10 {
      NatToStringRoundTrip(n / 10);
      var s := NatToString(n);
      assert s[..|s| - 1] == NatToString(n / 10);
    }
  }
}
