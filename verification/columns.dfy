/**
 * Column resolution of the statement spreadsheet (processor.py:121-150): the
 * `norm_map` dictionary from normalised header to column, the nested `find_col`
 * that returns the first column whose header carries every token of some
 * alternative, and the test that all five required columns were found.
 */
module Columns {

  import opened Wrappers
  import opened Strings
  import opened Seqs
  import opened Headers

  /** One item of `norm_map`: a normalised header and the index of the column it maps to. */
  datatype Entry = Entry(key: string, column: nat)

  function Keys(m: seq<Entry>): (ks: seq<string>)
    ensures |ks| == |m|
    ensures forall p :: 0 <= p < |m| ==> ks[p] == m[p].key
  {
    seq(|m|, p requires 0 <= p < |m| => m[p].key)
  }

  /**
   * `d[k] = v` on a Python dict kept as its item list: a key already present keeps its
   * place and takes the new value; a new key goes last.
   */
  function Upsert(m: seq<Entry>, k: string, v: nat): (r: seq<Entry>)
    ensures k in Keys(m) ==> Keys(r) == Keys(m)
    ensures k !in Keys(m) ==> Keys(r) == Keys(m) + [k]
    ensures forall p :: 0 <= p < |r| ==> r[p].column == (if r[p].key == k then v else m[p].column)
  {
    if k in Keys(m) then
      var r := seq(|m|, p requires 0 <= p < |m| => if m[p].key == k then Entry(k, v) else m[p]);
      assert Keys(r) == Keys(m);
      r
    else
      var r := m + [Entry(k, v)];
      assert Keys(r) == Keys(m) + [k];
      r
  }

  /**
   * `{_normalize_header(c): c for c in df.columns}` over already normalised headers:
   * keys in order of first occurrence, each mapped to the LAST column carrying it.
   */
  function BuildNormMap(norms: seq<string>): (m: seq<Entry>)
    ensures Keys(m) == Dedup(norms)
    ensures forall p :: 0 <= p < |m| ==> m[p].key in norms && m[p].column == LastIndex(norms, m[p].key)
  {
    if |norms| == 0 then []
    else
      var n := |norms| - 1;
      var prefix := norms[..n];
      assert norms == prefix + [norms[n]];
      var m := Upsert(BuildNormMap(prefix), norms[n], n);
      assert forall p :: 0 <= p < |m| ==> m[p].key in norms by {
        forall p | 0 <= p < |m| ensures m[p].key in norms {
          assert m[p].key == Keys(m)[p];
          assert Keys(m)[p] in Dedup(norms);
        }
      }
      m
  }

  function NormMap(headers: seq<Option<string>>): seq<Entry>
  {
    BuildNormMap(NormalizedHeaders(headers))
  }

  /** Some alternative token set of `alts` is contained in the header. */
  predicate MatchesAny(h: string, alts: seq<set<string>>)
  {
    exists a :: a in alts && HasAllTokens(h, a)
  }

  /** Index of the first header that matches some alternative. */
  function FirstMatch(hs: seq<string>, alts: seq<set<string>>): (r: Option<nat>)
    ensures r.None? <==> forall i :: 0 <= i < |hs| ==> !MatchesAny(hs[i], alts)
    ensures r.Some? ==> r.value < |hs| && MatchesAny(hs[r.value], alts)
    ensures r.Some? ==> forall j :: 0 <= j < r.value ==> !MatchesAny(hs[j], alts)
  {
    if |hs| == 0 then None
    else if MatchesAny(hs[0], alts) then Some(0)
    else
      match FirstMatch(hs[1..], alts)
      case None => None
      case Some(i) => Some(i + 1)
  }

  /**
   * The nested `find_col(*tokens_sets)`: walk `norm_map` in order and return the column of
   * the first item whose key contains every token of one of the alternatives.
   */
  function FindCol(m: seq<Entry>, alts: seq<set<string>>): Option<nat>
  {
    if |m| == 0 then None
    else if MatchesAny(m[0].key, alts) then Some(m[0].column)
    else FindCol(m[1..], alts)
  }

  /** `find_col` returns the column of the first key that matches, and None when no key does. */
  lemma {:induction false} FindColIsFirstMatch(m: seq<Entry>, alts: seq<set<string>>)
    ensures FindCol(m, alts) == match FirstMatch(Keys(m), alts)
                                case None => None
                                case Some(p) => Some(m[p].column)
  {
    if |m| > 0 && !MatchesAny(m[0].key, alts) {
      assert Keys(m[1..]) == Keys(m)[1..];
      FindColIsFirstMatch(m[1..], alts);
    }
  }

  /** `find_col(*alts)` against the columns of the sheet. */
  function ResolveColumn(headers: seq<Option<string>>, alts: seq<set<string>>): Option<nat>
  {
    FindCol(NormMap(headers), alts)
  }

  lemma {:induction false} FirstMatchAppend(s: seq<string>, z: string, alts: seq<set<string>>)
    ensures FirstMatch(s + [z], alts)
         == if FirstMatch(s, alts).Some? then FirstMatch(s, alts)
            else if MatchesAny(z, alts) then Some(|s|) else None
  {
    if |s| > 0 {
      assert (s + [z])[0] == s[0];
      assert (s + [z])[1..] == s[1..] + [z];
      FirstMatchAppend(s[1..], z, alts);
    }
  }

  /** The first matching key of the de-duplicated headers is the first matching header. */
  lemma {:induction false} DedupFirstMatch(s: seq<string>, alts: seq<set<string>>)
    ensures FirstMatch(Dedup(s), alts).None? <==> FirstMatch(s, alts).None?
    ensures FirstMatch(s, alts).Some? ==>
      Dedup(s)[FirstMatch(Dedup(s), alts).value] == s[FirstMatch(s, alts).value]
  {
    if |s| > 0 {
      var n := |s| - 1;
      var prefix, z := s[..n], s[n];
      assert s == prefix + [z];
      DedupFirstMatch(prefix, alts);
      FirstMatchAppend(prefix, z, alts);
      var d := Dedup(prefix);
      FirstMatchAppend(d, z, alts);
      if FirstMatch(prefix, alts).None? && MatchesAny(z, alts) {
        assert forall i :: 0 <= i < |prefix| ==> prefix[i] != z;
        assert z !in d;
        assert forall j :: 0 <= j < |d| ==> !MatchesAny(d[j], alts) by {
          forall j | 0 <= j < |d| ensures !MatchesAny(d[j], alts) {
            assert d[j] in prefix;
          }
        }
      }
    }
  }

  /**
   * What `find_col` returns, in terms of the sheet's headers: None exactly when no normalised
   * header matches any alternative; otherwise, with `f` the first matching column, the last
   * column whose header normalises to the same text as column `f` (later duplicates overwrite
   * the dict value but not the key's position).
   */
  lemma ResolveColumnSpec(headers: seq<Option<string>>, alts: seq<set<string>>)
    ensures var norms := NormalizedHeaders(headers);
      ResolveColumn(headers, alts).None? <==> forall j :: 0 <= j < |norms| ==> !MatchesAny(norms[j], alts)
    ensures var norms := NormalizedHeaders(headers);
      var r := ResolveColumn(headers, alts);
      r.Some? ==> (FirstMatch(norms, alts).Some?
        && r.value == LastIndex(norms, norms[FirstMatch(norms, alts).value])
        && MatchesAny(norms[r.value], alts))
  {
    var norms := NormalizedHeaders(headers);
    var m := BuildNormMap(norms);
    DedupFirstMatch(norms, alts);
    FindColIsFirstMatch(m, alts);
    var q := FirstMatch(Keys(m), alts);
    if q.Some? {
      assert m[q.value].key == Keys(m)[q.value];
    }
  }

  /** `find_col` answers as `FindsColumn` describes. */
  lemma ResolveColumnFinds(headers: seq<Option<string>>, alts: seq<set<string>>)
    ensures FindsColumn(NormalizedHeaders(headers), alts, ResolveColumn(headers, alts))
  {
    ResolveColumnSpec(headers, alts);
  }

  /** Alternatives that agree on every normal-form header resolve to the same column. */
  lemma {:induction false} FindColAgrees(m: seq<Entry>, alts1: seq<set<string>>, alts2: seq<set<string>>)
    requires forall p :: 0 <= p < |m| ==> (MatchesAny(m[p].key, alts1) <==> MatchesAny(m[p].key, alts2))
    ensures FindCol(m, alts1) == FindCol(m, alts2)
  {
    if |m| > 0 {
      FindColAgrees(m[1..], alts1, alts2);
    }
  }

  const NomeAlternatives: seq<set<string>> := [{"nome", "cartao"}, {"portador"}, {"titular"}]
  const FinalAlternatives: seq<set<string>> := [{"final", "cartao"}, {"final", "****"}, {"cartao", "final"}]
  const CategoriaAlternatives: seq<set<string>> := [{"categoria"}]
  const DescricaoAlternatives: seq<set<string>> := [{"descricao"}, {"estabelecimento"}, {"loja"}, {"merchant"}]
  const ValorAlternatives: seq<set<string>> := [{"valor"}]
  const DataAlternatives: seq<set<string>> := [{"data"}]

  /** Without the `****` token, the `final` alternatives reduce to `{"final", "cartao"}`. */
  lemma FinalAlternativesWithoutStar(h: string)
    requires !HasAllTokens(h, {"final", "****"})
    ensures MatchesAny(h, FinalAlternatives) <==> MatchesAny(h, [{"final", "cartao"}])
  {
    assert {"cartao", "final"} == {"final", "cartao"};
    if MatchesAny(h, FinalAlternatives) {
      var a :| a in FinalAlternatives && HasAllTokens(h, a);
      assert a == {"final", "cartao"} || a == {"final", "****"};
    }
    if MatchesAny(h, [{"final", "cartao"}]) {
      assert {"final", "cartao"} in FinalAlternatives;
    }
  }

  /**
   * The `{"final", "****"}` alternative is dead: a normalised header has no `*`, so
   * resolving "Final do Cartão" is the same as resolving with `{"final", "cartao"}` alone.
   */
  lemma FinalStarAlternativeIsDead(headers: seq<Option<string>>)
    ensures ResolveColumn(headers, FinalAlternatives) == ResolveColumn(headers, [{"final", "cartao"}])
  {
    var norms := NormalizedHeaders(headers);
    var m := NormMap(headers);
    forall p | 0 <= p < |m|
      ensures MatchesAny(m[p].key, FinalAlternatives) <==> MatchesAny(m[p].key, [{"final", "cartao"}])
    {
      var j :| 0 <= j < |norms| && norms[j] == m[p].key;
      StarTokenNeverMatches(headers[j]);
      FinalAlternativesWithoutStar(m[p].key);
    }
    FindColAgrees(m, FinalAlternatives, [{"final", "cartao"}]);
  }

  /** The columns `find_col` picked for each canonical field; `data` is optional. */
  datatype ResolvedColumns = ResolvedColumns(
    nome: Option<nat>, final: Option<nat>, categoria: Option<nat>,
    descricao: Option<nat>, valor: Option<nat>, data: Option<nat>)

  /** `c` is a possible answer of `find_col(*alts)`: None exactly when no header matches, else a matching column. */
  predicate FindsColumn(norms: seq<string>, alts: seq<set<string>>, c: Option<nat>)
  {
    && (c.None? <==> NoHeaderMatches(norms, alts))
    && (c.Some? ==> ColumnMatches(norms, alts, c.value))
  }

  /**
   * processor.py:133-138: each canonical field gets a column whose normalised header matches
   * one of the field's alternatives, or None exactly when no header matches any of them.
   */
  function ResolveAll(headers: seq<Option<string>>): (rc: ResolvedColumns)
    ensures FindsColumn(NormalizedHeaders(headers), NomeAlternatives, rc.nome)
    ensures FindsColumn(NormalizedHeaders(headers), FinalAlternatives, rc.final)
    ensures FindsColumn(NormalizedHeaders(headers), CategoriaAlternatives, rc.categoria)
    ensures FindsColumn(NormalizedHeaders(headers), DescricaoAlternatives, rc.descricao)
    ensures FindsColumn(NormalizedHeaders(headers), ValorAlternatives, rc.valor)
    ensures FindsColumn(NormalizedHeaders(headers), DataAlternatives, rc.data)
  {
    ResolveColumnFinds(headers, NomeAlternatives);
    ResolveColumnFinds(headers, FinalAlternatives);
    ResolveColumnFinds(headers, CategoriaAlternatives);
    ResolveColumnFinds(headers, DescricaoAlternatives);
    ResolveColumnFinds(headers, ValorAlternatives);
    ResolveColumnFinds(headers, DataAlternatives);
    ResolvedColumns(
      ResolveColumn(headers, NomeAlternatives),
      ResolveColumn(headers, FinalAlternatives),
      ResolveColumn(headers, CategoriaAlternatives),
      ResolveColumn(headers, DescricaoAlternatives),
      ResolveColumn(headers, ValorAlternatives),
      ResolveColumn(headers, DataAlternatives))
  }

  /** The canonical names of the required columns, in the order of the `required` dict. */
  const RequiredLabels: seq<string> :=
    ["Nome no Cart\U{E3}o", "Final do Cart\U{E3}o", "Categoria", "Descri\U{E7}\U{E3}o", "Valor BRL"]

  /** The alternatives required label `i` is resolved with, index by index with `RequiredLabels`. */
  function RequiredAlternatives(i: nat): seq<set<string>>
    requires i < |RequiredLabels|
  {
    if i == 0 then NomeAlternatives
    else if i == 1 then FinalAlternatives
    else if i == 2 then CategoriaAlternatives
    else if i == 3 then DescricaoAlternatives
    else ValorAlternatives
  }

  /** The value of the `required` dict for label `i`. */
  function RequiredColumn(rc: ResolvedColumns, i: nat): Option<nat>
    requires i < |RequiredLabels|
  {
    if i == 0 then rc.nome
    else if i == 1 then rc.final
    else if i == 2 then rc.categoria
    else if i == 3 then rc.descricao
    else rc.valor
  }

  /** The values of the `required` dict, index by index with `RequiredLabels`. */
  function RequiredColumns(rc: ResolvedColumns): (cols: seq<Option<nat>>)
    ensures |cols| == |RequiredLabels|
  {
    seq(|RequiredLabels|, i requires 0 <= i < |RequiredLabels| => RequiredColumn(rc, i))
  }

  /** `[k for k, v in required.items() if v is None]` over parallel label and column lists. */
  function MissingLabels(labels: seq<string>, cols: seq<Option<nat>>): (r: seq<string>)
    requires |labels| == |cols|
    ensures IsSubsequence(r, labels)
    ensures forall i :: 0 <= i < |labels| && cols[i].None? ==> labels[i] in r
    ensures forall x :: x in r ==> exists i :: 0 <= i < |labels| && labels[i] == x && cols[i].None?
  {
    if |labels| == 0 then []
    else
      var rest := MissingLabels(labels[1..], cols[1..]);
      assert forall i :: 1 <= i < |labels| ==> labels[i] == labels[1..][i - 1] && cols[i] == cols[1..][i - 1];
      assert [labels[0]] + labels[1..] == labels;
      if cols[0].None? then
        assert ([labels[0]] + rest)[1..] == rest;
        [labels[0]] + rest
      else
        SubsequenceSkip(labels[0], rest, labels[1..]);
        rest
  }

  /** `ValueError` raised when a required column is missing: the missing labels and the sheet's column labels. */
  datatype ColumnsError = MissingColumns(missing: seq<string>, columns: seq<Option<string>>)

  lemma RequiredLabelsDistinct()
    ensures NoDup(RequiredLabels)
  {
  }

  /** The `if missing: raise` check on resolved columns (processor.py:140-150). */
  function CheckColumns(rc: ResolvedColumns, headers: seq<Option<string>>): (r: Result<ResolvedColumns, ColumnsError>)
    ensures r.Success? <==> forall i :: 0 <= i < |RequiredLabels| ==> RequiredColumns(rc)[i].Some?
    ensures r.Success? ==> r.value == rc
    ensures r.Failure? ==> r.error.columns == headers && |r.error.missing| > 0
    ensures r.Failure? ==> IsSubsequence(r.error.missing, RequiredLabels)
    ensures r.Failure? ==> forall i :: 0 <= i < |RequiredLabels| ==>
      (RequiredLabels[i] in r.error.missing <==> RequiredColumns(rc)[i].None?)
  {
    var missing := MissingLabels(RequiredLabels, RequiredColumns(rc));
    if |missing| > 0 then
      RequiredLabelsDistinct();
      assert missing[0] in missing;
      Failure(MissingColumns(missing, headers))
    else
      assert forall i :: 0 <= i < |RequiredLabels| ==> RequiredLabels[i] !in missing;
      Success(rc)
  }

  /**
   * Column resolution followed by the required-column check (processor.py:133-150): the
   * error lists, in the order of the `required` dict, exactly the labels for which no
   * normalised header matches any alternative, together with the sheet's column labels.
   */
  function CheckRequired(headers: seq<Option<string>>): (r: Result<ResolvedColumns, ColumnsError>)
    ensures r.Success? <==> forall i :: 0 <= i < |RequiredLabels| ==>
      !NoHeaderMatches(NormalizedHeaders(headers), RequiredAlternatives(i))
    ensures r.Success? ==> r.value == ResolveAll(headers)
    ensures r.Failure? ==> r.error.columns == headers && IsSubsequence(r.error.missing, RequiredLabels)
    ensures r.Failure? ==> forall i :: 0 <= i < |RequiredLabels| ==>
      (RequiredLabels[i] in r.error.missing <==> NoHeaderMatches(NormalizedHeaders(headers), RequiredAlternatives(i)))
  {
    RequiredColumnsFound(headers);
    CheckColumns(ResolveAll(headers), headers)
  }

  /** Each required column is None exactly when no header matches its alternatives. */
  lemma RequiredColumnsFound(headers: seq<Option<string>>)
    ensures forall i :: 0 <= i < |RequiredLabels| ==>
      (RequiredColumns(ResolveAll(headers))[i].None? <==> NoHeaderMatches(NormalizedHeaders(headers), RequiredAlternatives(i)))
  {
    forall i | 0 <= i < |RequiredLabels|
      ensures RequiredColumns(ResolveAll(headers))[i].None? <==> NoHeaderMatches(NormalizedHeaders(headers), RequiredAlternatives(i))
    {
      RequiredColumnSpec(headers, i);
    }
  }

  lemma RequiredColumnIsResolved(headers: seq<Option<string>>, i: nat)
    requires i < |RequiredLabels|
    ensures RequiredColumns(ResolveAll(headers))[i] == ResolveColumn(headers, RequiredAlternatives(i))
  {
    var rc := ResolveAll(headers);
    assert RequiredColumns(rc)[i] == RequiredColumn(rc, i);
    if i == 0 {
      assert rc.nome == ResolveColumn(headers, NomeAlternatives);
    } else if i == 1 {
      assert rc.final == ResolveColumn(headers, FinalAlternatives);
    } else if i == 2 {
      assert rc.categoria == ResolveColumn(headers, CategoriaAlternatives);
    } else if i == 3 {
      assert rc.descricao == ResolveColumn(headers, DescricaoAlternatives);
    } else {
      assert rc.valor == ResolveColumn(headers, ValorAlternatives);
    }
  }

  /** No normalised header carries all tokens of any alternative. */
  predicate NoHeaderMatches(norms: seq<string>, alts: seq<set<string>>)
  {
    forall j :: 0 <= j < |norms| ==> !MatchesAny(norms[j], alts)
  }

  /** Column `c` exists and its normalised header matches one of the alternatives. */
  predicate ColumnMatches(norms: seq<string>, alts: seq<set<string>>, c: nat)
  {
    c < |norms| && MatchesAny(norms[c], alts)
  }

  /** A required column is None exactly when no header matches its alternatives. */
  lemma RequiredColumnSpec(headers: seq<Option<string>>, i: nat)
    requires i < |RequiredLabels|
    ensures var norms := NormalizedHeaders(headers);
      var c := RequiredColumns(ResolveAll(headers))[i];
      && (c.None? <==> NoHeaderMatches(norms, RequiredAlternatives(i)))
      && (c.Some? ==> ColumnMatches(norms, RequiredAlternatives(i), c.value))
  {
    RequiredColumnIsResolved(headers, i);
    ResolveColumnSpec(headers, RequiredAlternatives(i));
  }

  /**
   * The check fails exactly when, for some required label, no normalised header of the sheet
   * carries all tokens of any of the label's alternatives; on success every required column's
   * normalised header matches one of its alternatives.
   */
  lemma CheckRequiredSpec(headers: seq<Option<string>>)
    ensures CheckRequired(headers).Failure? <==>
      exists i :: 0 <= i < |RequiredLabels| && NoHeaderMatches(NormalizedHeaders(headers), RequiredAlternatives(i))
    ensures var r := CheckRequired(headers);
      r.Success? ==> forall i :: 0 <= i < |RequiredLabels| ==>
        RequiredColumns(r.value)[i].Some? && ColumnMatches(NormalizedHeaders(headers), RequiredAlternatives(i), RequiredColumns(r.value)[i].value)
  {
    var norms := NormalizedHeaders(headers);
    var rc := ResolveAll(headers);
    var cols := RequiredColumns(rc);
    forall i | 0 <= i < |RequiredLabels|
      ensures cols[i].None? <==> NoHeaderMatches(norms, RequiredAlternatives(i))
      ensures cols[i].Some? ==> ColumnMatches(norms, RequiredAlternatives(i), cols[i].value)
    {
      RequiredColumnSpec(headers, i);
    }
    assert CheckRequired(headers) == CheckColumns(rc, headers);
    if CheckColumns(rc, headers).Failure? {
      assert !forall i :: 0 <= i < |RequiredLabels| ==> cols[i].Some?;
      var i :| 0 <= i < |RequiredLabels| && cols[i].None?;
      assert NoHeaderMatches(norms, RequiredAlternatives(i));
    }
  }
}
