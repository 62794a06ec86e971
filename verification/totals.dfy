/**
 * The positive/negative split of the transactions and the three totals of the
 * "Resumo Fatura" sheet (processor.py:177-178, 199-203). An amount is a real number; a
 * missing or unparseable amount (None or NaN in the frame) is `None`, fails both `> 0` and
 * `< 0`, and is skipped by the sums as pandas' `sum` skips NaN.
 */
module Totals {

  import opened Wrappers
  import opened Seqs

  /** One transaction after renaming to the canonical columns. */
  datatype Row = Row(holder: string, card: string, category: string, description: string, amount: Option<real>)

  /** `df["Valor BRL"] > 0` for one row. */
  predicate IsPurchase(r: Row) { r.amount.Some? && r.amount.value > 0.0 }

  /** `df["Valor BRL"] < 0` for one row. */
  predicate IsRefund(r: Row) { r.amount.Some? && r.amount.value < 0.0 }

  /** `df_pos`: the rows with a positive amount, in their original order. */
  function Purchases(rows: seq<Row>): (pos: seq<Row>)
    ensures forall i :: 0 <= i < |pos| ==> pos[i].amount.Some? && pos[i].amount.value > 0.0
    ensures forall r :: r in pos <==> r in rows && IsPurchase(r)
    ensures IsSubsequence(pos, rows)
    ensures forall r :: multiset(pos)[r] == if IsPurchase(r) then multiset(rows)[r] else 0
  {
    FilterMultiset(IsPurchase, rows);
    FilterIsSubsequence(IsPurchase, rows);
    FilterMembers(IsPurchase, rows);
    Filter(IsPurchase, rows)
  }

  /** `df_neg`: the rows with a negative amount, in their original order. */
  function Refunds(rows: seq<Row>): (neg: seq<Row>)
    ensures forall i :: 0 <= i < |neg| ==> neg[i].amount.Some? && neg[i].amount.value < 0.0
    ensures forall r :: r in neg <==> r in rows && IsRefund(r)
    ensures IsSubsequence(neg, rows)
    ensures forall r :: multiset(neg)[r] == if IsRefund(r) then multiset(rows)[r] else 0
  {
    FilterMultiset(IsRefund, rows);
    FilterIsSubsequence(IsRefund, rows);
    FilterMembers(IsRefund, rows);
    Filter(IsRefund, rows)
  }

  /** What one row adds to `["Valor BRL"].sum()`. */
  function AmountOf(r: Row): real
  {
    if r.amount.Some? then r.amount.value else 0.0
  }

  /** `["Valor BRL"].sum()`, skipping missing amounts. */
  function Total(rows: seq<Row>): (t: real)
    ensures (forall i :: 0 <= i < |rows| ==> AmountOf(rows[i]) >= 0.0) ==> t >= 0.0
    ensures (forall i :: 0 <= i < |rows| ==> AmountOf(rows[i]) <= 0.0) ==> t <= 0.0
  {
    if |rows| == 0 then 0.0 else AmountOf(rows[0]) + Total(rows[1..])
  }

  lemma {:induction false} PurchasesTotalNonNegative(rows: seq<Row>)
    ensures Total(Purchases(rows)) >= 0.0
  {
    if |rows| > 0 {
      PurchasesTotalNonNegative(rows[1..]);
    }
  }

  lemma {:induction false} RefundsTotalNonPositive(rows: seq<Row>)
    ensures Total(Refunds(rows)) <= 0.0
  {
    if |rows| > 0 {
      RefundsTotalNonPositive(rows[1..]);
    }
  }

  /** Over the rows with an amount, the invoice total is the purchases plus the (negative) refunds. */
  lemma {:induction false} TotalSplits(rows: seq<Row>)
    ensures Total(rows) == Total(Purchases(rows)) + Total(Refunds(rows))
  {
    if |rows| > 0 {
      TotalSplits(rows[1..]);
    }
  }

  /** The three figures of the "Resumo Fatura" sheet. */
  datatype Summary = Summary(invoiceTotal: real, purchasesTotal: real, refundsTotal: real)

  /** `resumo` (processor.py:199-203). */
  function Summarize(rows: seq<Row>): (s: Summary)
    ensures s.invoiceTotal == s.purchasesTotal + s.refundsTotal
    ensures s.purchasesTotal >= 0.0 && s.refundsTotal <= 0.0
    ensures s.purchasesTotal == Total(Purchases(rows)) && s.refundsTotal == Total(Refunds(rows))
  {
    TotalSplits(rows);
    PurchasesTotalNonNegative(rows);
    RefundsTotalNonPositive(rows);
    Summary(Total(rows), Total(Purchases(rows)), Total(Refunds(rows)))
  }
}
