# Red Herring board assembly

A model of how the word-grouping puzzle builds its board. The puzzle's web
app reads a table of categories once, when the app module is loaded. Each
row is a category and its first ten columns hold words. On each request the
index page draws 7 distinct rows of that table:

- each of the first 3 drawn rows gives a category group of 4 words, taken
  from 4 distinct columns among the first ten;
- each of the last 4 drawn rows gives one word, and these 4 words form the
  red-herring group.

The page template is handed the list of these four groups. The red-herring
group is always last.

The model has two modules.

- `Sampling` (`sampling.dfy`) states what the random draws guarantee. A
  `Draw` holds the 7 row indices and the column sample taken for each drawn
  row. `ValidDraw` says that each sample is what `random.sample(range(n), k)`
  can return: `k` distinct indices below `n`, in drawing order. The random
  choice itself is a parameter.
- `Board` (`board.dfy`) holds the specification function `Assemble`, the
  imperative `BuildBoard`, and the lemmas about the result. `BuildBoard` has
  the route's two loops and appends to the group list and to the red-herring
  list. `Select` models the positional lookup `df.iloc[row, columns]`.

A positional lookup with a column index at or past the table's width raises
an index error in the source. The model returns `Err(IndexOutOfBounds(row))`
for the first drawn row, in loop order, whose lookup names such a column.

The code and the design description of the system disagree in two places.
The model follows the code.

- The design promises that the 16 words are pairwise distinct, by redrawing
  until they are. The code has no such check and no retry.
  `DuplicateWordsPossible` exhibits a table and a draw that put the same
  word on the board more than once.
- The design promises that the board is shuffled. The code shuffles
  nothing: it passes the groups to the page template in drawing order, and
  the provenance lemmas state exactly that order. The template itself is not
  part of this model.

## Model

| member | source | states |
|---|---|---|
| `Sampling.SampleWithinPopulation` | red_herring-test/.ipynb_checkpoints/app-checkpoint.py:15 | a sample of `k` distinct indices below `n` needs `k <= n` |
| `Sampling.SmallTableHasNoDraw` | red_herring-test/.ipynb_checkpoints/app-checkpoint.py:15 | with fewer than 7 table rows there is no valid draw, so the row sampling raises and no board is built |
| `Board.FirstMisfit` | red_herring-test/.ipynb_checkpoints/app-checkpoint.py:18-23 | the result is the first drawn position, in loop order, whose row lacks one of its sampled columns, or 7 when there is none |
| `Board.Select` | red_herring-test/.ipynb_checkpoints/app-checkpoint.py:19 | the positional lookup gives a result iff every column exists in the row, and then the cells in the order of the columns |
| `Board.BuildBoard` | red_herring-test/.ipynb_checkpoints/app-checkpoint.py:14-24 | the two appending loops compute exactly `Assemble`: the groups, or the index error of the first failing lookup |
| `Board.AssembleFailsIffColumnMissing` | red_herring-test/.ipynb_checkpoints/app-checkpoint.py:18-23 | the assembly fails iff some drawn row lacks a sampled column; the error names the first such row in loop order |
| `Board.WideTableYieldsBoard` | red_herring-test/.ipynb_checkpoints/app-checkpoint.py:19-23 | when every row has the ten word columns, every valid draw yields a board |
| `Board.NarrowRowAdmitsFailingDraw` | red_herring-test/.ipynb_checkpoints/app-checkpoint.py:19-23 | when a table of at least 7 rows has a row with fewer than ten columns, some valid draw makes the lookup raise |
| `Board.BoardShape` | red_herring-test/.ipynb_checkpoints/app-checkpoint.py:16-24 | the board has exactly 4 groups and each has exactly 4 words |
| `Board.CategoryGroupProvenance` | red_herring-test/.ipynb_checkpoints/app-checkpoint.py:18-19 | category group `k` is, in sampled order, the cells of row `rows[k]` at 4 pairwise-distinct columns below 10 |
| `Board.RedHerringProvenance` | red_herring-test/.ipynb_checkpoints/app-checkpoint.py:21-24 | the last group has 4 words, and word `j` is the cell of row `rows[3 + j]` at one column below 10 |
| `Board.SourceRowsDisjoint` | red_herring-test/.ipynb_checkpoints/app-checkpoint.py:15-22 | the 3 category rows of a valid draw are pairwise different and none is a red-herring row; with the two provenance lemmas, no two category groups share a row and no row supplies both a category group and a red herring |
| `Board.NoWordInvented` | red_herring-test/.ipynb_checkpoints/app-checkpoint.py:19-24 | the board holds 16 words in all, and every one is a cell of the table |
| `Board.DuplicateWordsPossible` | red_herring-test/.ipynb_checkpoints/app-checkpoint.py:16-24 | a concrete table and valid draw give a board with a repeated word: nothing makes the 16 words distinct |

## Left out

- Randomness: the indices that `random.sample` returns are the `Draw`
  parameter, constrained only by `ValidDraw`. The distribution is not modelled.
- Loading the table from `categories.csv` with pandas: the table is a
  `seq<seq<string>>` parameter. Missing cells and non-string cell values are
  not modelled.
- The table's shape: a pandas table is rectangular, every row having the
  same columns, and a missing cell reads as NaN rather than raising. The
  model's `Table` also admits rows of different lengths; a row shorter than
  another stands for no pandas input, and on rectangular tables "the row
  lacks the column" means "the column index is at or past the table's width".
- Flask routing and `render_template`: the model returns the list of groups
  the page would be rendered with.
- Both `/submit` handlers (in the core file and in `red_herring-test/app.py`):
  they only read form fields, print them and return `'OK'`, so they hold no
  logic to model. No answer checking exists in the source.
- `red_herring-test/app.py`'s index page renders a fixed list of 16 words and
  holds no logic.
- `wordWebDev/.ipynb_checkpoints/app-checkpoint.py` has page routes and a
  logger of drop coordinates. This is user-interface plumbing.
- `words_dictionary/words_dictionary/spiders/words_dictionary.py` is a web
  crawler, which is network I/O.
- Redrawing until the words are distinct, shuffling the board, and scoring a
  submission are described in the system's design but do not appear in the
  code. They are not modelled.
