/**
 * What the board assembly relies on from `random.sample(range(n), k)`:
 * a list of `k` pairwise-distinct indices, each in `[0, n)`, in drawing order.
 * The random choice itself is not modelled; a draw is handed in by the caller
 * and is constrained only by these guarantees.
 */
module Sampling {

  /** Rows drawn from the category table: 3 for categories, then 4 red herrings. */
  const DrawnRows: nat := 7
  /** How many of the drawn rows become category groups. */
  const CategoryRows: nat := 3
  /** Words taken from each category row. */
  const GroupSize: nat := 4
  /** Columns of a row that a word may be sampled from: `range(10)`. */
  const WordColumns: nat := 10

  predicate Distinct<T(==)>(s: seq<T>)
  {
    forall i, j :: 0 <= i < j < |s| ==> s[i] != s[j]
  }

  /** `s` is a possible result of `random.sample(range(n), k)`. */
  predicate IsSample(s: seq<nat>, k: nat, n: nat)
  {
    |s| == k && Distinct(s) && forall i :: 0 <= i < |s| ==> s[i] < n
  }

  /**
   * All random choices one call of the board assembly makes:
   * `rows` is `my_rows`, and `columns[k]` is the column sample taken for
   * `rows[k]` (4 columns for a category row, 1 for a red-herring row).
   */
  datatype Draw = Draw(rows: seq<nat>, columns: seq<seq<nat>>)

  /** The draw is one that the sampling calls can produce for a table of `tableRows` rows. */
  predicate ValidDraw(tableRows: nat, d: Draw)
  {
    IsSample(d.rows, DrawnRows, tableRows) &&
    |d.columns| == DrawnRows &&
    (forall k :: 0 <= k < CategoryRows ==> IsSample(d.columns[k], GroupSize, WordColumns)) &&
    (forall k :: CategoryRows <= k < DrawnRows ==> IsSample(d.columns[k], 1, WordColumns))
  }

  function Elements(s: seq<nat>): (e: set<nat>)
  {
    set i | 0 <= i < |s| :: s[i]
  }

  lemma {:induction false} DistinctElements(s: seq<nat>)
    requires Distinct(s)
    ensures |Elements(s)| == |s|
  {
    if s != [] {
      var t := s[..|s| - 1];
      DistinctElements(t);
      assert Elements(s) == Elements(t) + {s[|s| - 1]};
      assert s[|s| - 1] !in Elements(t);
    }
  }

  /** A set of naturals below `n` has at most `n` members. */
  lemma {:induction false} BoundedSetSize(a: set<nat>, n: nat)
    requires forall x :: x in a ==> x < n
    ensures |a| <= n
  {
    if n > 0 {
      BoundedSetSize(a - {n - 1}, n - 1);
    } else {
      assert a == {};
    }
  }

  /** A sample without replacement is never larger than its population. */
  lemma SampleWithinPopulation(s: seq<nat>, k: nat, n: nat)
    requires IsSample(s, k, n)
    ensures k <= n
  {
    DistinctElements(s);
    BoundedSetSize(Elements(s), n);
  }

  /**
   * A table with fewer than 7 rows admits no draw: `random.sample(range(df_len), 7)`
   * raises instead of returning, so no board is assembled.
   */
  lemma SmallTableHasNoDraw(tableRows: nat, d: Draw)
    requires tableRows < DrawnRows
    ensures !ValidDraw(tableRows, d)
  {
    if ValidDraw(tableRows, d) {
      SampleWithinPopulation(d.rows, DrawnRows, tableRows);
    }
  }
}
