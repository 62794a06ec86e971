/**
 * The final sheet order of the processed workbook (processor.py:347-354): the index sheet
 * first, then the three consolidation sheets that exist, in a fixed order, then every other
 * sheet in its current order.
 */
module SheetOrder {

  import opened Seqs

  const IndexSheet: string := "\U{CD}ndice"

  /** `desired_after_index`. */
  const DesiredAfterIndex: seq<string> :=
    ["Consolidado Cart\U{E3}o", "Consolidado Estabelecimento", "Consolidado Cat por Cart\U{E3}o"]

  /** `["Índice"] + [s for s in desired_after_index if s in current]`. */
  function Head(current: seq<string>): (h: seq<string>)
    ensures |h| >= 1 && h[0] == IndexSheet
    ensures forall x :: x in h <==> x == IndexSheet || (x in DesiredAfterIndex && x in current)
  {
    FilterMembers(s => s in current, DesiredAfterIndex);
    [IndexSheet] + Filter(s => s in current, DesiredAfterIndex)
  }

  /** The order the loop builds, stated without the loop: the head, then the remaining names of first occurrence. */
  function Reordered(current: seq<string>): seq<string>
  {
    var head := Head(current);
    head + Dedup(Filter(s => s !in head, current))
  }

  lemma DedupAppend(t: seq<string>, x: string)
    ensures Dedup(t + [x]) == if x in Dedup(t) then Dedup(t) else Dedup(t) + [x]
  {
    assert (t + [x])[..|t + [x]| - 1] == t;
  }

  lemma AppendNew(head: seq<string>, p: string -> bool, t: seq<string>, x: string)
    requires forall s :: p(s) <==> s !in head
    requires x !in head
    ensures Dedup(Filter(p, t + [x])) == Dedup(Filter(p, t) + [x])
  {
    FilterConcat(p, t, [x]);
    assert Filter(p, [x]) == [x];
  }

  lemma AppendListed(head: seq<string>, p: string -> bool, t: seq<string>, x: string)
    requires forall s :: p(s) <==> s !in head
    requires x in head
    ensures Filter(p, t + [x]) == Filter(p, t)
  {
    FilterConcat(p, t, [x]);
    assert Filter(p, [x]) == [];
    assert Filter(p, t) + [] == Filter(p, t);
  }

  /** One turn of the loop: a name not yet listed is appended, any other is skipped. */
  lemma AppendStep(head: seq<string>, p: string -> bool, t: seq<string>, x: string)
    requires forall s :: p(s) <==> s !in head
    ensures var before := head + Dedup(Filter(p, t));
      head + Dedup(Filter(p, t + [x])) == if x in before then before else before + [x]
  {
    if x in head {
      AppendListed(head, p, t, x);
    } else {
      AppendUnlisted(head, p, t, x);
    }
  }

  lemma AppendUnlisted(head: seq<string>, p: string -> bool, t: seq<string>, x: string)
    requires forall s :: p(s) <==> s !in head
    requires x !in head
    ensures var before := head + Dedup(Filter(p, t));
      head + Dedup(Filter(p, t + [x])) == if x in before then before else before + [x]
  {
    var d := Dedup(Filter(p, t));
    AppendNew(head, p, t, x);
    DedupAppend(Filter(p, t), x);
    assert x in head + d <==> x in d;
    ConcatAssociates(head, d, [x]);
  }

  /** processor.py:350-353. */
  method ReorderSheets(current: seq<string>) returns (ordered: seq<string>)
    ensures ordered == Reordered(current)
  {
    var head := Head(current);
    var notInHead := s => s !in head;
    ordered := head;
    var i := 0;
    while i < |current|
      invariant 0 <= i <= |current|
      invariant ordered == head + Dedup(Filter(notInHead, current[..i]))
    {
      var s := current[i];
      assert current[..i + 1] == current[..i] + [s];
      AppendStep(head, notInHead, current[..i], s);
      if s !in ordered {
        ordered := ordered + [s];
      }
      i := i + 1;
    }
    assert current[..i] == current;
  }

  lemma HeadNoDup(current: seq<string>)
    ensures NoDup(Head(current))
  {
    assert NoDup(DesiredAfterIndex);
    FilterNoDup(s => s in current, DesiredAfterIndex);
    NoDupConcat([IndexSheet], Filter(s => s in current, DesiredAfterIndex));
  }

  /**
   * The index sheet comes first, no sheet is listed twice, and the listed sheets are exactly
   * the index sheet and the current ones; the consolidation sheets that exist come before
   * every other sheet.
   */
  lemma ReorderedSpec(current: seq<string>)
    ensures var r := Reordered(current);
      && |r| >= 1 && r[0] == IndexSheet
      && NoDup(r)
      && (forall x :: x in r <==> x == IndexSheet || x in current)
      && (forall i, j :: 0 <= i < j < |r| && r[j] in DesiredAfterIndex ==> r[i] == IndexSheet || r[i] in DesiredAfterIndex)
  {
    var head := Head(current);
    var rest := Dedup(Filter(s => s !in head, current));
    var r := head + rest;
    FilterMembers(s => s !in head, current);
    HeadNoDup(current);
    NoDupConcat(head, rest);
    forall i, j | 0 <= i < j < |r| && r[j] in DesiredAfterIndex
      ensures r[i] == IndexSheet || r[i] in DesiredAfterIndex
    {
      assert j < |head|;
      assert r[i] == head[i];
    }
  }

  /** When the index sheet already exists and names are distinct, the new order is a permutation of the sheets. */
  lemma ReorderedPermutes(current: seq<string>)
    requires NoDup(current) && IndexSheet in current
    ensures multiset(Reordered(current)) == multiset(current)
  {
    var r := Reordered(current);
    ReorderedSpec(current);
    NoDupSameElements(r, current);
  }
}
