/**
 * The board assembly of the puzzle's index page: from a category table and
 * one draw of random indices, build the list of four word groups that the
 * page is rendered with. The first three groups are categories (four words
 * of one row each); the fourth is the red-herring group (one word from each
 * of four further rows).
 */
module Board {
  import opened Sampling

  type Word = string
  /** One row of the category table; cell `c` is column `c` of the row. */
  type Row = seq<Word>
  type Table = seq<Row>
  type Group = seq<Word>

  datatype Option<T> = None | Some(value: T)

  /** Positional lookup of a column index at or past the table's width raises an index error. */
  datatype Error = IndexOutOfBounds(row: nat)

  datatype Result<T> = Ok(value: T) | Err(error: Error)

  /** Every column of `cols` is a column of `row`. */
  predicate Fits(row: Row, cols: seq<nat>)
  {
    forall i :: 0 <= i < |cols| ==> cols[i] < |row|
  }

  /** The cells of `row` at the columns `cols`, in the order of `cols`. */
  function Cells(row: Row, cols: seq<nat>): (g: Group)
    requires Fits(row, cols)
  {
    seq(|cols|, i requires 0 <= i < |cols| => row[cols[i]])
  }

  /** `w` is a cell of the table. */
  ghost predicate InTable(t: Table, w: Word)
  {
    exists r, c :: 0 <= r < |t| && 0 <= c < |t[r]| && t[r][c] == w
  }

  function Flatten(groups: seq<Group>): (words: seq<Word>)
  {
    if groups == [] then [] else groups[0] + Flatten(groups[1..])
  }

  /**
   * The position, from `k` on, of the first drawn row whose sampled columns
   * it does not have, or 7 when every row from `k` on has them.
   */
  function FirstMisfit(t: Table, d: Draw, k: nat): (m: nat)
    requires ValidDraw(|t|, d) && k <= DrawnRows
    ensures k <= m <= DrawnRows
    ensures forall i :: k <= i < m ==> Fits(t[d.rows[i]], d.columns[i])
    ensures m < DrawnRows ==> !Fits(t[d.rows[m]], d.columns[m])
    decreases DrawnRows - k
  {
    if k == DrawnRows || !Fits(t[d.rows[k]], d.columns[k]) then k
    else FirstMisfit(t, d, k + 1)
  }

  /**
   * The groups the index page is rendered with, for table `t` and draw `d`:
   * the category groups of `rows[0..3]` in that order, then the red-herring
   * group of `rows[3..7]`; or the index error raised by the first lookup in
   * loop order that names a column its row lacks.
   */
  function Assemble(t: Table, d: Draw): (r: Result<seq<Group>>)
    requires ValidDraw(|t|, d)
  {
    var m := FirstMisfit(t, d, 0);
    if m < DrawnRows then Err(IndexOutOfBounds(d.rows[m]))
    else
      var categories := seq(CategoryRows, k requires 0 <= k < CategoryRows =>
                              Cells(t[d.rows[k]], d.columns[k]));
      var herrings := seq(DrawnRows - CategoryRows, j requires 0 <= j < DrawnRows - CategoryRows =>
                            t[d.rows[CategoryRows + j]][d.columns[CategoryRows + j][0]]);
      Ok(categories + [herrings])
  }

  /** `df.iloc[row, cols]`: the selected cells in column order, or nothing when a column is missing. */
  method Select(row: Row, cols: seq<nat>) returns (g: Option<Group>)
    ensures g.Some? <==> Fits(row, cols)
    ensures g.Some? ==> |g.value| == |cols| &&
                        forall i :: 0 <= i < |cols| ==> g.value[i] == row[cols[i]]
  {
    var i := 0;
    while i < |cols|
      invariant 0 <= i <= |cols|
      invariant forall k :: 0 <= k < i ==> cols[k] < |row|
    {
      if cols[i] >= |row| {
        return None;
      }
      i := i + 1;
    }
    var cells: seq<Word> := [];
    i := 0;
    while i < |cols|
      invariant 0 <= i <= |cols|
      invariant |cells| == i
      invariant forall k :: 0 <= k < i ==> cells[k] == row[cols[k]]
    {
      cells := cells + [row[cols[i]]];
      i := i + 1;
    }
    g := Some(cells);
  }

  /** The index route's two loops, appending to the group list and the red-herring list. */
  method BuildBoard(t: Table, d: Draw) returns (r: Result<seq<Group>>)
    requires ValidDraw(|t|, d)
    ensures r == Assemble(t, d)
  {
    var groups: seq<Group> := [];
    var i := 0;
    while i < CategoryRows
      invariant 0 <= i <= CategoryRows
      invariant forall k :: 0 <= k < i ==> Fits(t[d.rows[k]], d.columns[k])
      invariant |groups| == i
      invariant forall k :: 0 <= k < i ==> groups[k] == Cells(t[d.rows[k]], d.columns[k])
    {
      var g := Select(t[d.rows[i]], d.columns[i]);
      if g.None? {
        return Err(IndexOutOfBounds(d.rows[i]));
      }
      groups := groups + [g.value];
      i := i + 1;
    }
    var herrings: seq<Word> := [];
    var j := CategoryRows;
    while j < DrawnRows
      invariant CategoryRows <= j <= DrawnRows
      invariant forall k :: 0 <= k < j ==> Fits(t[d.rows[k]], d.columns[k])
      invariant |herrings| == j - CategoryRows
      invariant forall k :: 0 <= k < j - CategoryRows ==>
                  herrings[k] == t[d.rows[CategoryRows + k]][d.columns[CategoryRows + k][0]]
    {
      var g := Select(t[d.rows[j]], d.columns[j]);
      if g.None? {
        return Err(IndexOutOfBounds(d.rows[j]));
      }
      herrings := herrings + [g.value[0]];
      j := j + 1;
    }
    assert groups == seq(CategoryRows, k requires 0 <= k < CategoryRows =>
                           Cells(t[d.rows[k]], d.columns[k]));
    assert herrings == seq(DrawnRows - CategoryRows, k requires 0 <= k < DrawnRows - CategoryRows =>
                             t[d.rows[CategoryRows + k]][d.columns[CategoryRows + k][0]]);
    assert FirstMisfit(t, d, 0) == DrawnRows;
    groups := groups + [herrings];
    r := Ok(groups);
  }

  /** The assembly raises exactly when some drawn row lacks one of the columns sampled for it. */
  lemma AssembleFailsIffColumnMissing(t: Table, d: Draw)
    requires ValidDraw(|t|, d)
    ensures Assemble(t, d).Err? <==>
            exists k :: 0 <= k < DrawnRows && !Fits(t[d.rows[k]], d.columns[k])
    ensures Assemble(t, d).Err? ==>
            exists k :: 0 <= k < DrawnRows && !Fits(t[d.rows[k]], d.columns[k]) &&
                        Assemble(t, d).error == IndexOutOfBounds(d.rows[k]) &&
                        forall i :: 0 <= i < k ==> Fits(t[d.rows[i]], d.columns[i])
  {
  }

  /** A table whose rows all have the ten word columns always yields a board. */
  lemma WideTableYieldsBoard(t: Table, d: Draw)
    requires ValidDraw(|t|, d)
    requires forall r :: 0 <= r < |t| ==> |t[r]| >= WordColumns
    ensures Assemble(t, d).Ok?
  {
  }

  /**
   * The converse: when some row has fewer than ten columns, a valid draw
   * exists whose lookup on that row raises, so no board is built.
   */
  lemma NarrowRowAdmitsFailingDraw(t: Table, r: nat)
    requires |t| >= DrawnRows && r < |t| && |t[r]| < WordColumns
    ensures exists d :: ValidDraw(|t|, d) && Assemble(t, d).Err?
  {
    var others := seq(DrawnRows - 1, i requires 0 <= i < DrawnRows - 1 => if i < r then i else i + 1);
    var d := Draw([r] + others, [[9, 0, 1, 2], [0, 1, 2, 3], [0, 1, 2, 3], [0], [0], [0], [0]]);
    assert IsSample(d.rows, DrawnRows, |t|);
    assert ValidDraw(|t|, d);
    assert d.rows[0] == r && d.columns[0][0] == 9 && !Fits(t[d.rows[0]], d.columns[0]);
    AssembleFailsIffColumnMissing(t, d);
  }

  /** Four groups of four words: three category groups and the red-herring group last. */
  lemma BoardShape(t: Table, d: Draw)
    requires ValidDraw(|t|, d) && Assemble(t, d).Ok?
    ensures var b := Assemble(t, d).value;
            |b| == 4 && forall k :: 0 <= k < |b| ==> |b[k]| == GroupSize
  {
  }

  /**
   * Category group `k` holds, in sampled order, the cells of row `rows[k]`
   * at four distinct columns below 10.
   */
  lemma CategoryGroupProvenance(t: Table, d: Draw, k: nat)
    requires ValidDraw(|t|, d) && Assemble(t, d).Ok?
    requires k < CategoryRows
    ensures var b := Assemble(t, d).value;
            |b[k]| == GroupSize &&
            Distinct(d.columns[k]) &&
            forall i :: 0 <= i < GroupSize ==>
              d.columns[k][i] < WordColumns && b[k][i] == t[d.rows[k]][d.columns[k][i]]
  {
  }

  /** Word `j` of the red-herring group is the cell of row `rows[3 + j]` at one column below 10. */
  lemma RedHerringProvenance(t: Table, d: Draw, j: nat)
    requires ValidDraw(|t|, d) && Assemble(t, d).Ok?
    requires j < DrawnRows - CategoryRows
    ensures var b := Assemble(t, d).value;
            var c := d.columns[CategoryRows + j][0];
            |b[CategoryRows]| == DrawnRows - CategoryRows &&
            c < WordColumns && b[CategoryRows][j] == t[d.rows[CategoryRows + j]][c]
  {
  }

  /**
   * The three category rows are different, and no category row is also a
   * red-herring row. Group `k` of the board comes from `rows[k]` and red
   * herring `j` from `rows[3 + j]` (CategoryGroupProvenance and
   * RedHerringProvenance), so no two category groups share a row and no
   * row supplies both a category group and a red herring.
   */
  lemma SourceRowsDisjoint(tableRows: nat, d: Draw)
    requires ValidDraw(tableRows, d)
    ensures forall k, l :: 0 <= k < l < CategoryRows ==> d.rows[k] != d.rows[l]
    ensures forall k, j :: 0 <= k < CategoryRows <= j < DrawnRows ==> d.rows[k] != d.rows[j]
  {
  }

  lemma {:induction false} FlattenLength(groups: seq<Group>, n: nat)
    requires forall k :: 0 <= k < |groups| ==> |groups[k]| == n
    ensures |Flatten(groups)| == n * |groups|
  {
    if groups != [] {
      FlattenLength(groups[1..], n);
    }
  }

  lemma {:induction false} FlattenMember(groups: seq<Group>, w: Word)
    requires w in Flatten(groups)
    ensures exists k, i :: 0 <= k < |groups| && 0 <= i < |groups[k]| && groups[k][i] == w
  {
    if w in groups[0] {
      var i :| 0 <= i < |groups[0]| && groups[0][i] == w;
      assert groups[0][i] == w;
    } else {
      FlattenMember(groups[1..], w);
      var k, i :| 0 <= k < |groups[1..]| && 0 <= i < |groups[1..][k]| && groups[1..][k][i] == w;
      assert groups[k + 1][i] == w;
    }
  }

  /** The board holds 16 words, and every one of them is a cell of the table: no word is invented. */
  lemma NoWordInvented(t: Table, d: Draw)
    requires ValidDraw(|t|, d) && Assemble(t, d).Ok?
    ensures |Flatten(Assemble(t, d).value)| == 16
    ensures forall w :: w in Flatten(Assemble(t, d).value) ==> InTable(t, w)
  {
    var b := Assemble(t, d).value;
    FlattenLength(b, GroupSize);
    forall w | w in Flatten(b)
      ensures InTable(t, w)
    {
      FlattenMember(b, w);
      var k, i :| 0 <= k < |b| && 0 <= i < |b[k]| && b[k][i] == w;
      if k < CategoryRows {
        assert t[d.rows[k]][d.columns[k][i]] == w;
      } else {
        assert t[d.rows[CategoryRows + i]][d.columns[CategoryRows + i][0]] == w;
      }
    }
  }

  /** A table in which every row lists the same four words. */
  const RepeatedTable: Table := seq(DrawnRows, _ => ["Apple", "Banana", "Cherry", "Date"])
  /** Rows 0 to 6 in order, columns 0 to 3 of each category row and column 0 of each red-herring row. */
  const InOrderDraw: Draw := Draw([0, 1, 2, 3, 4, 5, 6],
                                  [[0, 1, 2, 3], [0, 1, 2, 3], [0, 1, 2, 3], [0], [0], [0], [0]])

  lemma InOrderDrawValid()
    ensures ValidDraw(|RepeatedTable|, InOrderDraw)
    ensures forall k :: 0 <= k < DrawnRows ==> Fits(RepeatedTable[InOrderDraw.rows[k]], InOrderDraw.columns[k])
  {
  }

  /**
   * Nothing rules out a repeated word: drawn rows that share a word can put
   * it on the board more than once.
   */
  lemma DuplicateWordsPossible()
    ensures ValidDraw(|RepeatedTable|, InOrderDraw)
    ensures Assemble(RepeatedTable, InOrderDraw).Ok?
    ensures !Distinct(Flatten(Assemble(RepeatedTable, InOrderDraw).value))
  {
    InOrderDrawValid();
    var t, d := RepeatedTable, InOrderDraw;
    assert FirstMisfit(t, d, 0) == DrawnRows;
    var b := Assemble(t, d).value;
    assert b[0][0] == "Apple" && b[1][0] == "Apple";
    assert Flatten(b) == b[0] + (b[1] + Flatten(b[2..]));
    assert Flatten(b)[0] == Flatten(b)[4];
  }
}
