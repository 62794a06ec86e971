/**
 * The textual stage of `_coerce_brl` (processor.py:69-82): everything up to the string
 * handed to `float()`. A Brazilian amount such as "R$ 1.234,56" is cleaned to the
 * characters `[0-9,.-]` and its separators are resolved to "1234.56".
 */
module Amounts {

  import opened Wrappers
  import opened Strings
  import opened Seqs

  /** Python's `s.replace(pat, "")`: non-overlapping occurrences removed from left to right. */
  function RemoveSubstring(s: string, pat: string): (r: string)
    requires |pat| > 0
    ensures |r| <= |s|
    ensures !Contains(s, pat) ==> r == s
  {
    if |s| == 0 then ""
    else if StartsWith(s, pat) then
      ContainsAt(s, pat, 0);
      RemoveSubstring(s[|pat|..], pat)
    else
      assert !Contains(s, pat) ==> !Contains(s[1..], pat) by {
        if Contains(s[1..], pat) {
          ContainsWitness(s[1..], pat);
          var i: nat :| OccursAt(s[1..], pat, i);
          assert s[i + 1..i + 1 + |pat|] == s[1..][i..i + |pat|];
          ContainsAt(s, pat, i + 1);
        }
      }
      assert [s[0]] + s[1..] == s;
      [s[0]] + RemoveSubstring(s[1..], pat)
  }

  /** The characters `re.sub(r"[^0-9,.-]", "", s)` keeps. */
  predicate IsNumericChar(c: char)
  {
    IsAsciiDigit(c) || c == ',' || c == '.' || c == '-'
  }

  /** `re.sub(r"[^0-9,.-]", "", s)`. */
  function KeepNumeric(s: string): (r: string)
    ensures forall i :: 0 <= i < |r| ==> IsNumericChar(r[i])
    ensures IsSubsequence(r, s)
    ensures forall c :: multiset(r)[c] == if IsNumericChar(c) then multiset(s)[c] else 0
  {
    FilterMultiset(IsNumericChar, s);
    FilterIsSubsequence(IsNumericChar, s);
    FilterMembers(IsNumericChar, s);
    Filter(IsNumericChar, s)
  }

  /**
   * processor.py:73-76: drop "R$", then the spaces, then everything outside `[0-9,.-]`. The
   * first two steps remove only characters the filter drops anyway, so the cleaned text is
   * exactly the numeric characters of the input, in order.
   */
  function CleanAmountText(s: string): (r: string)
    ensures r == KeepNumeric(s)
    ensures forall c :: multiset(r)[c] == if IsNumericChar(c) then multiset(s)[c] else 0
  {
    FilterIgnoresRemoveChar(IsNumericChar, RemoveSubstring(s, "R$"), ' ');
    FilterIgnoresRemoveSubstring(IsNumericChar, s, "R$");
    KeepNumeric(RemoveChar(RemoveSubstring(s, "R$"), ' '))
  }

  /** Removing characters the filter drops anyway does not change the filtered text. */
  lemma {:induction false} FilterIgnoresRemoveChar(p: char -> bool, s: string, c: char)
    requires !p(c)
    ensures Filter(p, RemoveChar(s, c)) == Filter(p, s)
  {
    if |s| > 0 {
      FilterIgnoresRemoveChar(p, s[1..], c);
      var head := if s[0] == c then "" else [s[0]];
      FilterConcat(p, head, RemoveChar(s[1..], c));
      FilterConcat(p, [s[0]], s[1..]);
      assert [s[0]] + s[1..] == s;
      if s[0] == c {
        FilterNothing(p, [s[0]]);
      }
    }
  }

  lemma {:induction false} FilterIgnoresRemoveSubstring(p: char -> bool, s: string, pat: string)
    requires |pat| > 0
    requires forall i :: 0 <= i < |pat| ==> !p(pat[i])
    ensures Filter(p, RemoveSubstring(s, pat)) == Filter(p, s)
    decreases |s|
  {
    if |s| > 0 {
      if StartsWith(s, pat) {
        FilterIgnoresRemoveSubstring(p, s[|pat|..], pat);
        assert s == pat + s[|pat|..];
        FilterConcat(p, pat, s[|pat|..]);
        FilterNothing(p, pat);
      } else {
        FilterIgnoresRemoveSubstring(p, s[1..], pat);
        FilterConcat(p, [s[0]], RemoveSubstring(s[1..], pat));
        FilterConcat(p, [s[0]], s[1..]);
        assert [s[0]] + s[1..] == s;
      }
    }
  }

  /** Deleting "R$" and spaces before the character filter is redundant: the filter drops them anyway. */
  lemma {:induction false} RemoveCharConcat(a: string, b: string, c: char)
    ensures RemoveChar(a + b, c) == RemoveChar(a, c) + RemoveChar(b, c)
  {
    if |a| == 0 {
      assert a + b == b;
    } else {
      assert (a + b)[1..] == a[1..] + b;
      RemoveCharConcat(a[1..], b, c);
    }
  }

  lemma {:induction false} RemoveCharAbsent(s: string, c: char)
    requires c !in s
    ensures RemoveChar(s, c) == s
  {
    if |s| > 0 {
      RemoveCharAbsent(s[1..], c);
      assert [s[0]] + s[1..] == s;
    }
  }

  /** A string with a single comma, split around it. */
  lemma SingleCommaSplit(s: string, k: nat)
    requires Count(s, ',') == 1 && k < |s| && s[k] == ','
    ensures s == s[..k] + "," + s[k + 1..]
    ensures ',' !in s[..k] && ',' !in s[k + 1..]
  {
    assert s == s[..k] + "," + s[k + 1..];
    CountConcat(s[..k] + ",", s[k + 1..], ',');
    CountConcat(s[..k], ",", ',');
  }

  /**
   * processor.py:78-82. With exactly one comma the comma is the decimal separator: every dot
   * (taken as a thousands separator) is deleted on both sides of it and the comma becomes the
   * one dot of the result. Any other comma count leaves the text as it is.
   */
  function ResolveSeparators(s: string): (r: string)
    ensures Count(s, ',') == 1 ==> ',' !in r && Count(r, '.') == 1
    ensures Count(s, ',') != 1 ==> r == s
    ensures Count(s, ',') == 1 ==> forall k :: 0 <= k < |s| && s[k] == ',' ==>
      r == RemoveChar(s[..k], '.') + "." + RemoveChar(s[k + 1..], '.')
  {
    var r :=
      if Count(s, ',') == 1 && Count(s, '.') >= 1 then ReplaceChar(RemoveChar(s, '.'), ',', '.')
      else if Count(s, ',') == 1 && Count(s, '.') == 0 then ReplaceChar(s, ',', '.')
      else s;
    assert Count(s, ',') == 1 ==> ',' !in r && Count(r, '.') == 1 by {
      if Count(s, ',') == 1 {
        assert ',' in s;
        var k :| 0 <= k < |s| && s[k] == ',';
        SeparatorSplit(s, k);
      }
    }
    assert Count(s, ',') == 1 ==> forall k :: 0 <= k < |s| && s[k] == ',' ==>
      r == RemoveChar(s[..k], '.') + "." + RemoveChar(s[k + 1..], '.') by {
      if Count(s, ',') == 1 {
        forall k | 0 <= k < |s| && s[k] == ','
          ensures r == RemoveChar(s[..k], '.') + "." + RemoveChar(s[k + 1..], '.')
        {
          SeparatorSplit(s, k);
        }
      }
    }
    r
  }

  lemma ReplaceCommaBetween(x: string, y: string)
    requires ',' !in x && ',' !in y
    ensures ReplaceChar(x + "," + y, ',', '.') == x + "." + y
  {
    var m := x + [','] + y;
    var t := x + ['.'] + y;
    var r := ReplaceChar(m, ',', '.');
    forall i | 0 <= i < |m| ensures r[i] == t[i] {
      if i < |x| {
        assert m[i] == x[i] && t[i] == x[i];
      } else if i > |x| {
        assert m[i] == y[i - |x| - 1] && t[i] == y[i - |x| - 1];
      }
    }
    assert "," == [','] && "." == ['.'];
  }

  lemma OneDotBetween(x: string, y: string)
    requires '.' !in x && '.' !in y
    ensures Count(x + "." + y, '.') == 1
  {
    CountConcat(x + ".", y, '.');
    CountConcat(x, ".", '.');
  }

  /** Both single-comma branches of the separator rule give the same text. */
  lemma SeparatorSplit(s: string, k: nat)
    requires Count(s, ',') == 1 && k < |s| && s[k] == ','
    ensures var r := ReplaceChar(RemoveChar(s, '.'), ',', '.');
      && r == RemoveChar(s[..k], '.') + "." + RemoveChar(s[k + 1..], '.')
      && (Count(s, '.') == 0 ==> ReplaceChar(s, ',', '.') == r)
      && ',' !in r && Count(r, '.') == 1
  {
    SingleCommaSplit(s, k);
    var a, b := s[..k], s[k + 1..];
    var a', b' := RemoveChar(a, '.'), RemoveChar(b, '.');
    RemoveCharConcat(a + ",", b, '.');
    RemoveCharConcat(a, ",", '.');
    assert RemoveChar(",", '.') == ",";
    assert RemoveChar(s, '.') == a' + "," + b';
    ReplaceCommaBetween(a', b');
    if Count(s, '.') == 0 {
      RemoveCharAbsent(s, '.');
    }
    OneDotBetween(a', b');
  }

  /**
   * The string `_coerce_brl` hands to `float()`, or None for a null cell. `x` stands for
   * `str(x)` of a non-null cell; None stands for a null (`pd.isna`) one.
   */
  function CoerceBrlText(x: Option<string>): (r: Option<string>)
    ensures r.None? <==> x.None?
    ensures r.Some? ==> forall i :: 0 <= i < |r.value| ==> IsNumericChar(r.value[i])
    ensures r.Some? ==> var c := KeepNumeric(x.value);
      && (Count(c, ',') == 1 ==> ',' !in r.value && Count(r.value, '.') == 1)
      && (Count(c, ',') != 1 ==> r.value == c)
  {
    match x
    case None => None
    case Some(s) =>
      var c := CleanAmountText(s);
      var r := ResolveSeparators(c);
      ResolveSeparatorsKeepsNumeric(c);
      Some(r)
  }

  /** Separator resolution only deletes dots and turns a comma into a dot. */
  lemma ResolveSeparatorsKeepsNumeric(c: string)
    requires forall i :: 0 <= i < |c| ==> IsNumericChar(c[i])
    ensures var r := ResolveSeparators(c); forall i :: 0 <= i < |r| ==> IsNumericChar(r[i])
  {
    var r := ResolveSeparators(c);
    if Count(c, ',') == 1 {
      assert ',' in c;
      var k :| 0 <= k < |c| && c[k] == ',';
      SingleCommaSplit(c, k);
      ResolveAroundComma(c[..k], c[k + 1..]);
      forall i | 0 <= i < |r| ensures IsNumericChar(r[i]) {
        assert r[i] in r;
        if r[i] != '.' {
          assert r[i] in c[..k] || r[i] in c[k + 1..];
        }
      }
    }
  }

  /** Cleaning and separator resolution are idempotent: the output is its own cleaned form. */
  lemma CoerceBrlTextIdempotent(x: Option<string>)
    ensures CoerceBrlText(CoerceBrlText(x)) == CoerceBrlText(x)
  {
    var r := CoerceBrlText(x);
    if r.Some? {
      FilterKeepsAll(IsNumericChar, r.value);
      var c := KeepNumeric(x.value);
      if Count(c, ',') == 1 {
        assert Count(r.value, ',') == 0;
      }
    }
  }

  /** The characters whose order carries the amount's value. */
  predicate IsDigitOrMinus(c: char)
  {
    IsAsciiDigit(c) || c == '-'
  }

  lemma {:induction false} FilterOfFilter(p: char -> bool, q: char -> bool, s: string)
    requires forall c :: q(c) ==> p(c)
    ensures Filter(q, Filter(p, s)) == Filter(q, s)
  {
    if |s| > 0 {
      FilterOfFilter(p, q, s[1..]);
      if p(s[0]) {
        assert Filter(p, s) == [s[0]] + Filter(p, s[1..]);
        assert ([s[0]] + Filter(p, s[1..]))[1..] == Filter(p, s[1..]);
      }
    }
  }

  lemma FilterAcrossSeparator(a: string, b: string)
    ensures Filter(IsDigitOrMinus, RemoveChar(a, '.') + "." + RemoveChar(b, '.'))
         == Filter(IsDigitOrMinus, a + "," + b)
  {
    var q := IsDigitOrMinus;
    FilterIgnoresRemoveChar(q, a, '.');
    FilterIgnoresRemoveChar(q, b, '.');
    FilterConcat(q, RemoveChar(a, '.') + ".", RemoveChar(b, '.'));
    FilterConcat(q, RemoveChar(a, '.'), ".");
    FilterConcat(q, a + ",", b);
    FilterConcat(q, a, ",");
    FilterNothing(q, ".");
    FilterNothing(q, ",");
  }

  lemma {:induction false} ResolveSeparatorsKeepsDigits(c: string)
    ensures Filter(IsDigitOrMinus, ResolveSeparators(c)) == Filter(IsDigitOrMinus, c)
  {
    if Count(c, ',') == 1 {
      assert ',' in c;
      var k :| 0 <= k < |c| && c[k] == ',';
      SingleCommaSplit(c, k);
      ResolveAroundComma(c[..k], c[k + 1..]);
      FilterAcrossSeparator(c[..k], c[k + 1..]);
    }
  }

  /** Only separators and foreign characters are dropped: the digits and minus signs survive, in order. */
  lemma CoerceBrlTextKeepsDigits(s: string)
    ensures Filter(IsDigitOrMinus, CoerceBrlText(Some(s)).value) == Filter(IsDigitOrMinus, s)
  {
    FilterOfFilter(IsNumericChar, IsDigitOrMinus, s);
    ResolveSeparatorsKeepsDigits(KeepNumeric(s));
  }

  lemma ExampleSplits()
    ensures "R$ " + "1.234,56" == "R$ 1.234,56"
    ensures "1.234" + "," + "56" == "1.234,56"
  {
  }

  lemma ExampleJunkDropped()
    ensures Filter(IsNumericChar, "R$ ") == []
  {
    FilterNothing(IsNumericChar, "R$ ");
  }

  lemma ExampleAmountKept()
    ensures Filter(IsNumericChar, "1.234,56") == "1.234,56"
  {
    FilterKeepsAll(IsNumericChar, "1.234,56");
  }

  lemma KeepNumericExample()
    ensures KeepNumeric("R$ 1.234,56") == "1.234" + "," + "56"
  {
    ExampleSplits();
    ExampleJunkDropped();
    ExampleAmountKept();
    FilterConcat(IsNumericChar, "R$ ", "1.234,56");
  }

  lemma ExampleDotsDropped()
    ensures RemoveChar("1.234", '.') == "1234"
    ensures RemoveChar("56", '.') == "56"
  {
  }

  /**
   * The separator rule on a text written around its only comma: the dots on both sides are
   * deleted and the comma becomes the decimal point.
   */
  lemma ResolveAroundComma(a: string, b: string)
    requires ',' !in a && ',' !in b
    ensures ResolveSeparators(a + "," + b) == RemoveChar(a, '.') + "." + RemoveChar(b, '.')
  {
    var c := a + "," + b;
    CountConcat(a + ",", b, ',');
    CountConcat(a, ",", ',');
    assert c[|a|] == ',' && c[..|a|] == a && c[|a| + 1..] == b;
    SeparatorSplit(c, |a|);
  }

  lemma SeparatorExample()
    ensures ResolveSeparators("1.234" + "," + "56") == "1234" + "." + "56"
  {
    ResolveAroundComma("1.234", "56");
    ExampleDotsDropped();
  }

  lemma CoerceBrlTextOfText(s: string)
    ensures CoerceBrlText(Some(s)) == Some(ResolveSeparators(KeepNumeric(s)))
  {
  }

  lemma ExampleResolved()
    ensures ResolveSeparators(KeepNumeric("R$ 1.234,56")) == "1234" + "." + "56"
  {
    KeepNumericExample();
    SeparatorExample();
  }

  /** "R$ 1.234,56" reaches `float()` as "1234.56". */
  lemma CoerceBrlTextExample()
    ensures CoerceBrlText(Some("R$ 1.234,56")) == Some("1234" + "." + "56")
  {
    ExampleResolved();
    CoerceBrlTextOfText("R$ 1.234,56");
  }
}
