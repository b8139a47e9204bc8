# Three-way sequence alignment

This project models `alignment.py`, a dynamic-programming aligner for
three character sequences S1, S2 and S3. The program has four parts.

- **Rewards.** `sim` gives 1 for a pair of equal characters. `sim3` gives 2
  for three equal characters and 1 when exactly one pair matches.
- **Recurrence.** `score` is the exponential recursive definition of the
  best alignment score. It takes the best of seven moves for the last
  column:
  - `DD` consumes one character of every sequence;
  - `Dik`, `Djk` and `Dij` consume one character from two sequences;
  - `L`, `U` and `B` consume one character from a single sequence.
- **Table builder.** `score_DP` fills a 3-D score table and a parallel 3-D
  decision table. It first tags the axes (`L`/`U`/`B`), then the faces
  (`Dij`/`Djk`/`Dik`), then fills every interior cell with the maximum of
  the seven candidates. The tag it stores is the first maximal move in the
  order `DD, Dik, Djk, Dij, L, U, B`, which is numpy's `argmax` choice.
- **Traceback.** `Align` follows the decision table from the far corner
  back to the origin. At each step it prepends a character or a gap `-` to
  each of three output rows.

Modules:

- `Similarity` (similarity.dfy) holds the rewards.
- `Moves` (moves.dfy) holds:
  - the tags, with the empty track entry `''` modelled as `NoTag`;
  - the move order;
  - the maximum and first-maximum choices;
  - the predicate saying that a decision table can be followed back.
- `Recurrence` (recurrence.dfy) holds the recursive score, as a ghost
  function, and its properties.
- `ScoreTable` (score_table.dfy) holds the table builder. It works in place
  on `array3<int>` and `array3<Tag>` and is proved against the recurrence.
- `Traceback` (traceback.dfy) holds the traceback loop and `Traced`, the
  recursive definition of the rows it builds.

## Model

| member | source | states |
|---|---|---|
| Similarity.Sim | alignment.py:10-15 | The reward is 1 exactly when the characters are equal, otherwise 0. |
| Similarity.Sim3 | alignment.py:17-24 | The reward is 2 exactly when all three characters are equal. It is 1 exactly when some pair but not all three are equal, and 0 exactly when all three differ. |
| Similarity.SimSymmetric | alignment.py:10-15 | The pair reward does not depend on argument order. |
| Similarity.Sim3Symmetric | alignment.py:17-24 | The triple reward is the same under all six permutations of its arguments. |
| Moves.MovesConsume | alignment.py:86-127 | Every move consumes a character of at least one sequence, and the empty tag consumes none. The seven moves are exactly the tags listed in `Direction`. |
| Moves.MaxOf | alignment.py:73 | `max` returns an element of the candidate list that no element exceeds. |
| Moves.FirstMax | alignment.py:74 | `argmax` returns an index of the list whose value is the maximum. Every earlier index holds a strictly smaller value. |
| Moves.FirstMaxPrefersFirst | alignment.py:74 | When the first candidate is maximal, `argmax` returns 0, whatever ties follow. |
| Moves.ArgMax | alignment.py:74 | A single left-to-right scan that moves only on a strictly larger value computes exactly the first-maximum index. |
| Recurrence.Candidates | alignment.py:30-36 | There are seven candidate scores, one per move of `Direction`, in that order. |
| Recurrence.ScoreOfEmpty | alignment.py:28-29 | The score is 0 whenever one of the sequences is empty. |
| Recurrence.ScoreIsMaximum | alignment.py:30-37 | For non-empty sequences the score is one of the seven candidates, and no candidate exceeds it. |
| Recurrence.ScoreNonNegative | alignment.py:26-37 | The score is never negative. |
| Recurrence.CandidatesOfPrefixes | alignment.py:30-36 | The candidates of prefixes of lengths i, j and k are the scores of the shorter prefixes plus the rewards of the characters at i-1, j-1 and k-1. This is the form the table reads them in at lines 65-71. |
| Recurrence.ScoreGrowsWithFirst | alignment.py:34 | Appending a character to S1 never lowers the score. |
| Recurrence.ScoreGrowsWithSecond | alignment.py:35 | Appending a character to S2 never lowers the score. |
| Recurrence.ScoreGrowsWithThird | alignment.py:36 | Appending a character to S3 never lowers the score. |
| Recurrence.ScoreUpperBound | alignment.py:26-37 | Three times the score is at most twice the total length. A column earns at most 2/3 per consumed character. |
| Recurrence.ScoreOfIdenticalAtLeast | alignment.py:30 | Three copies of a sequence score at least twice its length. |
| Recurrence.ScoreOfIdentical | alignment.py:26-37 | Three copies of a sequence score exactly twice its length, the largest possible score. |
| ScoreTable.Rank | alignment.py:61 | Every move has a position in `Direction` that maps back to that move. |
| ScoreTable.BoundaryTagConsumes | alignment.py:44-59 | Every boundary cell other than the origin gets a move. Each move consumes exactly the sequences whose index is positive there, and only the origin keeps the empty tag. |
| ScoreTable.DecisionTieBreak | alignment.py:61-74 | At an interior cell the tag is a move whose candidate equals the cell's score. Every move before it in `Direction` has a strictly smaller candidate. |
| ScoreTable.DecisionOfIdentical | alignment.py:61-74 | For three copies of one sequence, every cell on the main diagonal is tagged `DD`. |
| ScoreTable.DecisionStepsBack | alignment.py:44-74 | The tag of every cell other than the origin is a move that takes only from positive indices. |
| ScoreTable.PrefixScoreMonotone | alignment.py:69-73 | The recursive score of the prefixes never decreases when one prefix grows by one character. |
| ScoreTable.CellRecurrence | alignment.py:65-74 | The seven values computed from the predecessor cells are the recursive candidates. Their maximum is the cell's recursive score, and their first maximum is the prescribed decision. |
| ScoreTable.TagAxes | alignment.py:44-49 | After the axis loops the three axes carry `L`, `U` and `B`, and every other cell is still empty. |
| ScoreTable.TagFaces | alignment.py:51-59 | After the face loops every boundary cell carries its fixed tag. |
| ScoreTable.FillCell | alignment.py:65-74 | Given final predecessor cells, the cell gets its recursive score and its prescribed decision. No other cell changes. |
| ScoreTable.FillInterior | alignment.py:62-74 | Starting from final boundary cells, the triple loop leaves every cell holding its recursive score and its prescribed decision. |
| ScoreTable.ScoreDP | alignment.py:40-75 | Every score cell equals the recursive score of its prefixes, so the corner equals the score of the whole sequences. Every decision cell holds the tie-broken decision. Boundary cells score 0 and carry their fixed tags. Scores never decrease along any axis. The decision table can be followed back from every cell. |
| Traceback.TracedStep | alignment.py:86-127 | From any cell other than the origin, the tag steps back along at least one axis and never below 0. The traced rows are those of the cell it steps to, plus one column. |
| Traceback.PrependRow | alignment.py:88-127 | For a gap-free sequence, prepending the column entry keeps the gap-free row equal to the suffix not yet traced. |
| Traceback.PrependAlignment | alignment.py:88-127 | Prepending a column that is not all gaps keeps rows an alignment. |
| Traceback.PrependColumn | alignment.py:86-127 | One traceback step keeps the rows equal in length. For gap-free input it also keeps them an alignment of the consumed suffixes. |
| Traceback.TraceBackOneColumn | alignment.py:86-127 | One traceback step keeps this fact: the rows traced to the current cell, followed by the rows built so far, are the whole traced rows. |
| Traceback.TracedAlongFirstAxis | alignment.py:113-117 | Along the `L` axis the traced rows are the prefix of S1 over two rows of gaps. |
| Traceback.TracedAlongDiagonal | alignment.py:88-94 | Along a `DD` diagonal of three equal sequences every row is the prefix itself. |
| Traceback.Align | alignment.py:77-128 | The loop terminates and returns exactly the traced rows, which have equal length. If no input contains `-`, no column is all gaps and deleting `-` from each row gives back S1, S2 and S3. |

## Left out

- `main` (alignment.py:130-148) is not modelled. It only prints a banner and
  the results for one hard-coded example. Lines 139-142 compare the
  recursive score with the table corner, and the `ScoreDP` contract states
  that equality for all inputs.
- Output formatting is not modelled. `Align` returns its three rows as a
  triple rather than joined with newlines (alignment.py:128).
- The `math` import is unused, and numpy itself is not modelled. `argmax`
  is modelled by `FirstMax`, and the scan `ArgMax` is proved against it.
- Running time is not modelled, including the factorial cost of the
  recursive `score`. `Score` is a ghost definition.
- Align: requires a decision table that fits the sequences and can be
  followed back from every cell (`Fits`). The source accepts any table.
  With an empty tag away from the origin its loop never ends. A tag that
  steps below 0 makes Python read `S[-1]` and continue with negative
  indices. `ScoreDP` ensures its table meets the requirement.
- Align: the gap round trip and the no-empty-column property are stated
  only for inputs that contain no `-`. With a `-` in the input, deleting
  gaps removes it too.
- The score of the traced path is not compared with the table. On a face,
  a `Dij`, `Djk` or `Dik` step can pair equal characters while the table
  value stays 0 (alignment.py:53-59), so the column sum can exceed the
  table value.
