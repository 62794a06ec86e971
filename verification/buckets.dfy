/**
 * The "Top 3 + Outras" table behind each card's pie chart (processor.py:311-317): the card's
 * per-category totals sorted by amount, largest first; beyond three categories the three
 * largest are kept and the rest is folded into one "Outras" row when it is positive.
 */
module Buckets {

  /** One row of `gastos_por_cartao_cat` for a card: a category and its summed amount. */
  datatype CategoryTotal = CategoryTotal(category: string, amount: real)

  const OtherCategory: string := "Outras"

  /** Largest amount first. */
  predicate SortedDesc(s: seq<CategoryTotal>)
  {
    forall i, j :: 0 <= i < j < |s| ==> s[i].amount >= s[j].amount
  }

  function Sum(s: seq<CategoryTotal>): real
  {
    if |s| == 0 then 0.0 else s[0].amount + Sum(s[1..])
  }

  lemma {:induction false} SumConcat(a: seq<CategoryTotal>, b: seq<CategoryTotal>)
    ensures Sum(a + b) == Sum(a) + Sum(b)
  {
    if |a| == 0 {
      assert a + b == b;
    } else {
      assert (a + b)[1..] == a[1..] + b;
      SumConcat(a[1..], b);
    }
  }

  /** Place `x` after every row at least as large. */
  function Insert(x: CategoryTotal, s: seq<CategoryTotal>): (r: seq<CategoryTotal>)
    ensures |r| == |s| + 1
  {
    if |s| == 0 then [x]
    else if s[0].amount >= x.amount then [s[0]] + Insert(x, s[1..])
    else [x] + s
  }

  /**
   * Inserting into a descending table keeps it descending, and the new first row is either
   * `x` or the old first row.
   */
  lemma {:induction false} InsertSorted(x: CategoryTotal, s: seq<CategoryTotal>)
    requires SortedDesc(s)
    ensures SortedDesc(Insert(x, s))
    ensures Insert(x, s)[0] == x || (|s| > 0 && Insert(x, s)[0] == s[0])
  {
    if |s| > 0 {
      var r := Insert(x, s);
      if s[0].amount >= x.amount {
        var rest := Insert(x, s[1..]);
        InsertSorted(x, s[1..]);
        assert r == [s[0]] + rest;
        forall i, j | 0 <= i < j < |r| ensures r[i].amount >= r[j].amount {
          if i == 0 {
            assert r[j] == rest[j - 1];
            assert rest[0].amount <= s[0].amount;
          } else {
            assert r[i] == rest[i - 1] && r[j] == rest[j - 1];
          }
        }
      } else {
        assert r == [x] + s;
        forall i, j | 0 <= i < j < |r| ensures r[i].amount >= r[j].amount {
          if i == 0 {
            assert r[j] == s[j - 1];
          } else {
            assert r[i] == s[i - 1] && r[j] == s[j - 1];
          }
        }
      }
    }
  }

  lemma {:induction false} InsertPermutes(x: CategoryTotal, s: seq<CategoryTotal>)
    ensures multiset(Insert(x, s)) == multiset(s) + multiset{x}
  {
    if |s| > 0 && s[0].amount >= x.amount {
      InsertPermutes(x, s[1..]);
      assert s == [s[0]] + s[1..];
    }
  }

  /** A sequence's elements are those of all but its last element, plus the last one. */
  lemma MultisetOfLast<T>(s: seq<T>)
    requires |s| > 0
    ensures multiset(s) == multiset(s[..|s| - 1]) + multiset{s[|s| - 1]}
  {
    assert s == s[..|s| - 1] + [s[|s| - 1]];
  }

  /** `sort_values("Valor BRL", ascending=False)`, as an insertion sort. */
  function SortDesc(s: seq<CategoryTotal>): (r: seq<CategoryTotal>)
    ensures |r| == |s|
  {
    if |s| == 0 then []
    else Insert(s[|s| - 1], SortDesc(s[..|s| - 1]))
  }

  /** The sorted table is descending. */
  lemma {:induction false} SortDescSorted(s: seq<CategoryTotal>)
    ensures SortedDesc(SortDesc(s))
  {
    if |s| > 0 {
      SortDescSorted(s[..|s| - 1]);
      InsertSorted(s[|s| - 1], SortDesc(s[..|s| - 1]));
    }
  }

  /** The sort only reorders: the same rows, each as often as before. */
  lemma {:induction false} SortDescPermutes(s: seq<CategoryTotal>)
    ensures multiset(SortDesc(s)) == multiset(s)
  {
    if |s| > 0 {
      var prefix, last := s[..|s| - 1], s[|s| - 1];
      SortDescPermutes(prefix);
      InsertPermutes(last, SortDesc(prefix));
      MultisetOfLast(s);
    }
  }

  lemma {:induction false} InsertSum(x: CategoryTotal, s: seq<CategoryTotal>)
    ensures Sum(Insert(x, s)) == x.amount + Sum(s)
  {
    if |s| > 0 {
      if s[0].amount >= x.amount {
        InsertSum(x, s[1..]);
        assert ([s[0]] + Insert(x, s[1..]))[1..] == Insert(x, s[1..]);
      } else {
        assert ([x] + s)[1..] == s;
      }
    }
  }

  /** Sorting moves amounts around but keeps their sum. */
  lemma {:induction false} SortDescSum(s: seq<CategoryTotal>)
    ensures Sum(SortDesc(s)) == Sum(s)
  {
    if |s| > 0 {
      var prefix := s[..|s| - 1];
      SortDescSum(prefix);
      InsertSum(s[|s| - 1], SortDesc(prefix));
      assert s == prefix + [s[|s| - 1]];
      SumConcat(prefix, [s[|s| - 1]]);
    }
  }

  /** The table the pie chart is drawn from. */
  function TopCategories(rows: seq<CategoryTotal>): (r: seq<CategoryTotal>)
    ensures |r| <= 4
    ensures |rows| <= 3 ==> |r| == |rows| && SortedDesc(r)
    ensures |rows| > 3 ==> 3 <= |r| && SortedDesc(r[..3]) && r[..3] == SortDesc(rows)[..3]
    ensures |rows| > 3 ==> (|r| == 4 <==> Sum(rows) - Sum(r[..3]) > 0.0)
    ensures |r| == 4 ==> r[3] == CategoryTotal(OtherCategory, Sum(rows) - Sum(r[..3]))
  {
    var sorted := SortDesc(rows);
    SortDescSorted(rows);
    if |sorted| > 3 then
      var top3 := sorted[..3];
      var outras := Sum(rows) - Sum(top3);
      if outras > 0.0 then
        var r := top3 + [CategoryTotal(OtherCategory, outras)];
        assert r[..3] == top3;
        r
      else
        assert top3[..3] == top3;
        top3
    else sorted
  }

  /** With at most three categories the table is the categories themselves, reordered. */
  lemma TopCategoriesPermutesFew(rows: seq<CategoryTotal>)
    requires |rows| <= 3
    ensures multiset(TopCategories(rows)) == multiset(rows)
  {
    SortDescPermutes(rows);
  }

  /**
   * Beyond three categories the first three rows are categories of the card, and no category
   * left out is larger than any of them.
   */
  lemma TopThreeAreLargest(rows: seq<CategoryTotal>)
    requires |rows| > 3
    ensures var top := TopCategories(rows)[..3];
      && multiset(top) <= multiset(rows)
      && forall y :: y in multiset(rows) - multiset(top) ==> forall k :: 0 <= k < 3 ==> top[k].amount >= y.amount
  {
    var sorted := SortDesc(rows);
    SortDescPermutes(rows);
    SortDescSorted(rows);
    var top := sorted[..3];
    assert TopCategories(rows)[..3] == top;
    assert sorted == top + sorted[3..];
    assert multiset(rows) - multiset(top) == multiset(sorted[3..]);
    SortedHeadDominates(sorted);
  }

  /** In a descending table every row after the third is at most each of the first three. */
  lemma SortedHeadDominates(sorted: seq<CategoryTotal>)
    requires SortedDesc(sorted) && |sorted| > 3
    ensures forall y :: y in multiset(sorted[3..]) ==> forall k :: 0 <= k < 3 ==> sorted[k].amount >= y.amount
  {
    forall y | y in multiset(sorted[3..])
      ensures forall k :: 0 <= k < 3 ==> sorted[k].amount >= y.amount
    {
      var j :| 0 <= j < |sorted[3..]| && sorted[3..][j] == y;
      assert sorted[3 + j] == y;
    }
  }

  /** Appending one row adds its amount to the sum. */
  lemma SumSplit(s: seq<CategoryTotal>, k: nat)
    requires k <= |s|
    ensures Sum(s) == Sum(s[..k]) + Sum(s[k..])
  {
    assert s == s[..k] + s[k..];
    SumConcat(s[..k], s[k..]);
  }

  lemma SumAppendOne(s: seq<CategoryTotal>, x: CategoryTotal)
    ensures Sum(s + [x]) == Sum(s) + x.amount
  {
    SumConcat(s, [x]);
    assert [x][1..] == [];
  }

  /**
   * With positive amounts nothing is lost: the "Outras" row, when there are more than three
   * categories, holds exactly the amount of the categories left out.
   */
  lemma TopCategoriesKeepsSum(rows: seq<CategoryTotal>)
    requires forall i :: 0 <= i < |rows| ==> rows[i].amount > 0.0
    ensures Sum(TopCategories(rows)) == Sum(rows)
  {
    if |rows| > 3 {
      KeepsSumBeyondThree(rows);
    } else {
      assert TopCategories(rows) == SortDesc(rows);
      SortDescSum(rows);
    }
  }

  lemma KeepsSumBeyondThree(rows: seq<CategoryTotal>)
    requires |rows| > 3
    requires forall i :: 0 <= i < |rows| ==> rows[i].amount > 0.0
    ensures Sum(TopCategories(rows)) == Sum(rows)
  {
    var r := TopCategories(rows);
    RemainderPositive(rows);
    assert |r| == 4;
    assert r == r[..3] + [r[3]];
    SumAppendOne(r[..3], r[3]);
  }

  /** With positive amounts and more than three categories, the "Outras" amount is positive. */
  lemma RemainderPositive(rows: seq<CategoryTotal>)
    requires |rows| > 3
    requires forall i :: 0 <= i < |rows| ==> rows[i].amount > 0.0
    ensures Sum(rows) - Sum(SortDesc(rows)[..3]) > 0.0
  {
    var sorted := SortDesc(rows);
    SortDescSum(rows);
    SortedRowsPositive(rows);
    SumSplit(sorted, 3);
    PositiveSum(sorted[3..]);
  }

  lemma SortedRowsPositive(rows: seq<CategoryTotal>)
    requires forall i :: 0 <= i < |rows| ==> rows[i].amount > 0.0
    ensures forall k :: 0 <= k < |SortDesc(rows)| ==> SortDesc(rows)[k].amount > 0.0
  {
    var sorted := SortDesc(rows);
    SortDescPermutes(rows);
    forall k | 0 <= k < |sorted| ensures sorted[k].amount > 0.0 {
      assert sorted[k] in multiset(rows);
    }
  }

  lemma {:induction false} PositiveSum(s: seq<CategoryTotal>)
    requires |s| > 0
    requires forall i :: 0 <= i < |s| ==> s[i].amount > 0.0
    ensures Sum(s) > 0.0
  {
    if |s| > 1 {
      PositiveSum(s[1..]);
    }
  }
}
