/**
 * Sheet scoring and selection (`_best_sheet`, processor.py:44-67): a sheet scores one point
 * per expected label that some normalised header covers with ALL of the label's tokens,
 * and the candidates `(score, name)` are sorted in reverse, so the highest score wins and
 * a tie goes to the lexicographically greatest sheet name.
 */
module SheetSelection {

  import opened Wrappers
  import opened Strings
  import opened Headers

  datatype ExpectedLabel = ExpectedLabel(name: string, tokens: set<string>)

  /** The five labels of `expected_tokens` (processor.py:48-54). */
  const ExpectedLabels: seq<ExpectedLabel> := [
    ExpectedLabel("nome no cartao", {"nome", "cartao"}),
    ExpectedLabel("final do cartao", {"final", "cartao"}),
    ExpectedLabel("categoria", {"categoria"}),
    ExpectedLabel("descricao", {"descricao", "estabelecimento", "loja", "merchant"}),
    ExpectedLabel("valor brl", {"valor"})
  ]

  /** `any(all(tok in h for tok in tokens) for h in norm)`. */
  predicate LabelFound(norm: seq<string>, tokens: set<string>)
  {
    exists h :: h in norm && HasAllTokens(h, tokens)
  }

  /** A label one of whose tokens occurs in no header is not found. */
  lemma TokenNowhere(norm: seq<string>, tokens: set<string>, tok: string)
    requires tok in tokens
    requires forall k :: 0 <= k < |norm| ==> !Contains(norm[k], tok)
    ensures !LabelFound(norm, tokens)
  {
  }

  /** Number of `labels` found among the normalised headers. */
  function CountFound(labels: seq<ExpectedLabel>, norm: seq<string>): (n: nat)
    ensures n <= |labels|
  {
    if |labels| == 0 then 0
    else (if LabelFound(norm, labels[0].tokens) then 1 else 0) + CountFound(labels[1..], norm)
  }

  /** Indices of the labels in `labels[k..]` that the headers cover. */
  function FoundFrom(labels: seq<ExpectedLabel>, norm: seq<string>, k: nat): set<nat>
  {
    set i: nat | k <= i < |labels| && LabelFound(norm, labels[i].tokens)
  }

  lemma {:induction false} CountFoundIsCardinality(labels: seq<ExpectedLabel>, norm: seq<string>, k: nat)
    requires k <= |labels|
    ensures CountFound(labels[k..], norm) == |FoundFrom(labels, norm, k)|
    decreases |labels| - k
  {
    if k == |labels| {
      assert FoundFrom(labels, norm, k) == {};
    } else {
      CountFoundIsCardinality(labels, norm, k + 1);
      assert labels[k..][1..] == labels[k + 1..];
      var rest := FoundFrom(labels, norm, k + 1);
      if LabelFound(norm, labels[k].tokens) {
        assert FoundFrom(labels, norm, k) == {k} + rest;
        assert k !in rest;
      } else {
        assert FoundFrom(labels, norm, k) == rest;
      }
    }
  }

  /** The score of one sheet from its column labels. */
  function SheetScore(headers: seq<Option<string>>): (score: nat)
    ensures score <= |ExpectedLabels|
  {
    CountFound(ExpectedLabels, NormalizedHeaders(headers))
  }

  /** The score is the number of distinct expected labels the sheet's headers cover. */
  lemma SheetScoreCountsLabels(headers: seq<Option<string>>)
    ensures SheetScore(headers) == |FoundFrom(ExpectedLabels, NormalizedHeaders(headers), 0)|
  {
    CountFoundIsCardinality(ExpectedLabels, NormalizedHeaders(headers), 0);
    assert ExpectedLabels[0..] == ExpectedLabels;
  }

  /** A sheet as `xl.parse(sheet, nrows=3)` sees it: its column labels, or a parse that raised. */
  datatype SheetPreview = Readable(name: string, headers: seq<Option<string>>) | Unreadable(name: string)

  datatype Candidate = Candidate(score: nat, name: string)

  /** Python's `<=` on `(score, name)` tuples. */
  predicate CandidateLe(a: Candidate, b: Candidate)
  {
    a.score < b.score || (a.score == b.score && !StrLess(b.name, a.name))
  }

  lemma CandidateLeTotal(a: Candidate, b: Candidate)
    ensures CandidateLe(a, b) || CandidateLe(b, a)
  {
    if a.score == b.score && StrLess(b.name, a.name) {
      StrLessAsymmetric(b.name, a.name);
    }
  }

  lemma CandidateLeTransitive(a: Candidate, b: Candidate, c: Candidate)
    requires CandidateLe(a, b) && CandidateLe(b, c)
    ensures CandidateLe(a, c)
  {
    if a.score == b.score == c.score && StrLess(c.name, a.name) {
      StrLessTotal(b.name, a.name);
      if StrLess(b.name, a.name) {
      } else if b.name == a.name {
      } else {
        StrLessTransitive(c.name, a.name, b.name);
      }
    }
  }

  function CandidateOf(s: SheetPreview): Candidate
    requires s.Readable?
  {
    Candidate(SheetScore(s.headers), s.name)
  }

  /** `candidates`: one entry per sheet that parsed, in sheet order. */
  function Candidates(sheets: seq<SheetPreview>): (cs: seq<Candidate>)
    ensures |cs| == 0 <==> forall i :: 0 <= i < |sheets| ==> sheets[i].Unreadable?
    ensures forall i :: 0 <= i < |sheets| && sheets[i].Readable? ==> CandidateOf(sheets[i]) in cs
    ensures forall c :: c in cs ==> exists i :: 0 <= i < |sheets| && sheets[i].Readable? && c == CandidateOf(sheets[i])
  {
    if |sheets| == 0 then []
    else
      var rest := Candidates(sheets[1..]);
      assert forall i :: 1 <= i < |sheets| ==> sheets[i] == sheets[1..][i - 1];
      if sheets[0].Readable? then [CandidateOf(sheets[0])] + rest else rest
  }

  /** The first entry of the reverse-sorted candidate list: a greatest candidate. */
  function MaxCandidate(cs: seq<Candidate>): (r: Candidate)
    requires |cs| > 0
    ensures r in cs
    ensures forall c :: c in cs ==> CandidateLe(c, r)
  {
    if |cs| == 1 then
      assert forall c :: c in cs ==> c == cs[0];
      StrLessIrreflexive(cs[0].name);
      cs[0]
    else
      var m := MaxCandidate(cs[1..]);
      assert forall c :: c in cs ==> c == cs[0] || c in cs[1..];
      if CandidateLe(cs[0], m) then m
      else
        CandidateLeTotal(cs[0], m);
        StrLessIrreflexive(cs[0].name);
        assert forall c :: c in cs[1..] ==> CandidateLe(c, cs[0]) by {
          forall c | c in cs[1..] ensures CandidateLe(c, cs[0]) {
            CandidateLeTransitive(c, m, cs[0]);
          }
        }
        cs[0]
  }

  /** Sheet `i` parsed and no parsed sheet beats it: higher score, or equal score and a greater name. */
  predicate IsBestSheet(sheets: seq<SheetPreview>, i: nat)
  {
    && i < |sheets| && sheets[i].Readable?
    && forall j :: 0 <= j < |sheets| && sheets[j].Readable? ==> CandidateLe(CandidateOf(sheets[j]), CandidateOf(sheets[i]))
  }

  /** `_best_sheet`: the name of a best sheet, or None when no sheet could be parsed. */
  function BestSheet(sheets: seq<SheetPreview>): (r: Option<string>)
    ensures r.None? <==> forall i :: 0 <= i < |sheets| ==> sheets[i].Unreadable?
    ensures r.Some? ==> exists i: nat :: IsBestSheet(sheets, i) && sheets[i].name == r.value
  {
    var cs := Candidates(sheets);
    if |cs| == 0 then None
    else
      var best := MaxCandidate(cs);
      var i :| 0 <= i < |sheets| && sheets[i].Readable? && best == CandidateOf(sheets[i]);
      assert IsBestSheet(sheets, i);
      Some(best.name)
  }

  /** Sheets that tie on score are decided by name: the greater name wins, not the earlier sheet. */
  lemma TieGoesToGreatestName()
    ensures BestSheet([Readable("A", []), Readable("B", [])]) == Some("B")
  {
    var sheets := [Readable("A", []), Readable("B", [])];
    assert SheetScore([]) == 0 by {
      SheetScoreCountsLabels([]);
      assert FoundFrom(ExpectedLabels, NormalizedHeaders([]), 0) == {};
    }
    assert StrLess("A", "B");
    assert !CandidateLe(CandidateOf(sheets[1]), CandidateOf(sheets[0]));
    assert !IsBestSheet(sheets, 0);
  }

  /** The five canonical headers of the statement layout, normalised. */
  const CanonicalRow: seq<string> := ["nome no cartao", "final do cartao", "categoria", "descricao", "valor brl"]

  lemma CanonicalRowCoversNome() ensures LabelFound(CanonicalRow, {"nome", "cartao"})
  {
    var h := CanonicalRow[0];
    assert h == "" + "nome" + " no cartao" == "nome no " + "cartao" + "";
    ContainsInfix("", "nome", " no cartao");
    ContainsInfix("nome no ", "cartao", "");
    HasAllTokensOfPair(h, "nome", "cartao");
  }

  lemma CanonicalRowCoversFinal() ensures LabelFound(CanonicalRow, {"final", "cartao"})
  {
    var h := CanonicalRow[1];
    assert h == "" + "final" + " do cartao" == "final do " + "cartao" + "";
    ContainsInfix("", "final", " do cartao");
    ContainsInfix("final do ", "cartao", "");
    HasAllTokensOfPair(h, "final", "cartao");
  }

  lemma CanonicalRowCoversCategoria() ensures LabelFound(CanonicalRow, {"categoria"})
  {
    ContainsAt(CanonicalRow[2], "categoria", 0);
    assert HasAllTokens(CanonicalRow[2], {"categoria"});
  }

  lemma CanonicalRowCoversValor() ensures LabelFound(CanonicalRow, {"valor"})
  {
    ContainsAt(CanonicalRow[4], "valor", 0);
    assert HasAllTokens(CanonicalRow[4], {"valor"});
  }

  /** No canonical header contains "merchant", so the `descricao` label is not covered. */
  lemma CanonicalRowMissesDescricao()
    ensures !LabelFound(CanonicalRow, {"descricao", "estabelecimento", "loja", "merchant"})
  {
    forall k | 0 <= k < |CanonicalRow| ensures !Contains(CanonicalRow[k], "merchant") {
      assert 'h' !in CanonicalRow[k];
      NotContainsForeignChar(CanonicalRow[k], "merchant", 4);
    }
    TokenNowhere(CanonicalRow, {"descricao", "estabelecimento", "loja", "merchant"}, "merchant");
  }

  /**
   * A row of the five canonical headers covers only four labels: the `descricao` label
   * needs all four of its tokens in a single header.
   */
  lemma CanonicalRowScoresFour()
    ensures CountFound(ExpectedLabels, CanonicalRow) == 4
  {
    CanonicalRowCoversNome();
    CanonicalRowCoversFinal();
    CanonicalRowCoversCategoria();
    CanonicalRowMissesDescricao();
    CanonicalRowCoversValor();
    var l := ExpectedLabels;
    assert CountFound(l[4..], CanonicalRow) == 1 by { assert l[4..][1..] == []; }
    assert CountFound(l[3..], CanonicalRow) == 1 by { assert l[3..][1..] == l[4..]; }
    assert CountFound(l[2..], CanonicalRow) == 2 by { assert l[2..][1..] == l[3..]; }
    assert CountFound(l[1..], CanonicalRow) == 3 by { assert l[1..][1..] == l[2..]; }
  }
}
