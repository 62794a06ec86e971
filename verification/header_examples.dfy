/** A worked example of header normalisation, with lemmas for the steps that need work. */
module HeaderExamples {

  import opened Wrappers
  import opened Strings
  import opened Seqs
  import opened Headers

  lemma ValorFoldStep() ensures AsciiFold("Valor (R$)") == "Valor (R$)"
  {
    var s := "Valor (R$)";
    assert forall i :: 0 <= i < |s| ==> IsAscii(s[i]);
    FilterKeepsAll(IsAscii, s);
  }

  lemma ValorLowerStep() ensures Lower("Valor (R$)") == "valor (r$)"
  {
    var s, t := "Valor (R$)", "valor (r$)";
    assert LowerChar('V') == 'v' && LowerChar('R') == 'r';
    forall i | 0 <= i < |s| ensures Lower(s)[i] == t[i] {
      assert s[i] == 'V' || s[i] == 'R' || !IsAsciiUpper(s[i]);
    }
  }

  lemma ValorCurrencyStep() ensures RewriteCurrency("valor (r$)") == "valor"
  {
    var t := "valor (r$)";
    assert RunLength(IsPySpace, t[5..]) == 1;
    assert LineLength(t[7..]) == 3;
    assert LastCloseParen(t, 7, 10) == Some(9);
    assert CurrencyMatch(t) == 10;
    assert t[10..] == "";
    assert RewriteCurrency(t) == "valor" + RewriteCurrency(t[10..]);
  }

  /** Lines 40-41 and `strip` leave a lone word unchanged. */
  lemma ValorCollapseSteps() ensures Strip(CollapseWhitespace(CollapseNonAlnum("valor"))) == "valor"
  {
    var w := "valor";
    CollapsedShapeIdentity(w);
    CollapseWhitespaceIdentity(w);
    StripIdentity(w);
  }

  /** "Valor (R$)" normalises to "valor": the whole `valor (...)` group is one currency marker. */
  lemma ValorHeaderExample()
    ensures NormalizeHeader(Some("Valor (R$)")) == "valor"
  {
    NormalizeHeaderSteps("Valor (R$)");
    ValorFoldStep();
    ValorLowerStep();
    ValorCurrencyStep();
    ValorCollapseSteps();
  }
}
