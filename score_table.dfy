/** The dynamic-programming table builder: a score table and a parallel
    decision table over every triple of prefix lengths, filled in place. */
module ScoreTable {
  import opened Similarity
  import opened Moves
  import opened Recurrence

  /** The tag the boundary loops give cell (i, j, k): a single-sequence
      move on the three axes, a two-sequence diagonal on the three faces,
      and no tag at the origin or in the interior. */
  function BoundaryTag(i: nat, j: nat, k: nat): Tag
  {
    if i > 0 && j == 0 && k == 0 then L
    else if i == 0 && j > 0 && k == 0 then U
    else if i == 0 && j == 0 && k > 0 then B
    else if i > 0 && j > 0 && k == 0 then Dij
    else if i == 0 && j > 0 && k > 0 then Djk
    else if i > 0 && j == 0 && k > 0 then Dik
    else NoTag
  }

  /** Which of the six boundary loops writes cell (i, j, k), in the order
      they run (L, U, B axes, then the i-j, j-k and i-k faces); 0 for the
      cells none of them writes. */
  ghost function Stage(i: nat, j: nat, k: nat): nat
  {
    match BoundaryTag(i, j, k)
    case L => 1
    case U => 2
    case B => 3
    case Dij => 4
    case Djk => 5
    case Dik => 6
    case _ => 0
  }

  /** The decision the table holds at (i, j, k): the boundary tag, or, for
      an interior cell, the first move whose candidate is maximal. */
  ghost function Decision(s1: string, s2: string, s3: string, i: nat, j: nat, k: nat): Tag
    requires i <= |s1| && j <= |s2| && k <= |s3|
  {
    if i > 0 && j > 0 && k > 0 then Direction[FirstMax(Candidates(s1[..i], s2[..j], s3[..k]))]
    else BoundaryTag(i, j, k)
  }

  /** Position of a move in the preference order `Direction`. */
  function Rank(t: Tag): (q: nat)
    requires t != NoTag
    ensures q < |Direction| && Direction[q] == t
  {
    match t
    case DD => 0
    case Dik => 1
    case Djk => 2
    case Dij => 3
    case L => 4
    case U => 5
    case B => 6
  }

  /** The boundary tagging is total and exact: every boundary cell except
      the origin has a move, and that move consumes precisely the
      sequences whose index is positive there. */
  lemma BoundaryTagConsumes(i: nat, j: nat, k: nat)
    requires i == 0 || j == 0 || k == 0
    ensures BoundaryTag(i, j, k) == NoTag <==> i == 0 && j == 0 && k == 0
    ensures BoundaryTag(i, j, k) != NoTag ==>
      && (TakesI(BoundaryTag(i, j, k)) <==> i > 0)
      && (TakesJ(BoundaryTag(i, j, k)) <==> j > 0)
      && (TakesK(BoundaryTag(i, j, k)) <==> k > 0)
  {
  }

  /** Tie-break: the decision at an interior cell is a move whose candidate
      equals the cell's score, and every move listed before it in
      `Direction` has a strictly smaller candidate. */
  lemma DecisionTieBreak(s1: string, s2: string, s3: string, i: nat, j: nat, k: nat)
    requires 0 < i <= |s1| && 0 < j <= |s2| && 0 < k <= |s3|
    ensures Decision(s1, s2, s3, i, j, k) != NoTag
    ensures var cs, q := Candidates(s1[..i], s2[..j], s3[..k]), Rank(Decision(s1, s2, s3, i, j, k));
      && cs[q] == Score(s1[..i], s2[..j], s3[..k])
      && forall p :: 0 <= p < q ==> cs[p] < Score(s1[..i], s2[..j], s3[..k])
  {
    var cs := Candidates(s1[..i], s2[..j], s3[..k]);
    var r := FirstMax(cs);
    assert Rank(Direction[r]) == r by {
      assert r == 0 || r == 1 || r == 2 || r == 3 || r == 4 || r == 5 || r == 6;
    }
  }

  /** Three copies of one sequence: on the main diagonal the triple
      diagonal move already reaches the maximum, and being first in
      `Direction` it wins every tie. */
  lemma DecisionOfIdentical(x: string, a: nat)
    requires 0 < a <= |x|
    ensures Decision(x, x, x, a, a, a) == DD
  {
    var cs := Candidates(x[..a], x[..a], x[..a]);
    CandidatesOfPrefixes(x, x, x, a, a, a);
    ScoreOfIdentical(x[..a - 1]);
    ScoreOfIdentical(x[..a]);
    ScoreIsMaximum(x[..a], x[..a], x[..a]);
    FirstMaxPrefersFirst(cs);
  }

  /** Every decision other than the origin's can be followed back. */
  lemma DecisionStepsBack(s1: string, s2: string, s3: string, i: nat, j: nat, k: nat)
    requires i <= |s1| && j <= |s2| && k <= |s3|
    requires (i, j, k) != (0, 0, 0)
    ensures StepsBack(Decision(s1, s2, s3, i, j, k), i, j, k)
  {
    if i > 0 && j > 0 && k > 0 {
      DecisionTieBreak(s1, s2, s3, i, j, k);
    } else {
      BoundaryTagConsumes(i, j, k);
    }
  }

  /** Extending one prefix by its next character never lowers the score:
      the table does not decrease along any axis. */
  lemma PrefixScoreMonotone(s1: string, s2: string, s3: string, i: nat, j: nat, k: nat)
    requires i <= |s1| && j <= |s2| && k <= |s3|
    ensures i > 0 ==> Score(s1[..i], s2[..j], s3[..k]) >= Score(s1[..i - 1], s2[..j], s3[..k])
    ensures j > 0 ==> Score(s1[..i], s2[..j], s3[..k]) >= Score(s1[..i], s2[..j - 1], s3[..k])
    ensures k > 0 ==> Score(s1[..i], s2[..j], s3[..k]) >= Score(s1[..i], s2[..j], s3[..k - 1])
  {
    if i > 0 {
      assert s1[..i] == s1[..i - 1] + [s1[i - 1]];
      ScoreGrowsWithFirst(s1[..i - 1], s2[..j], s3[..k], s1[i - 1]);
    }
    if j > 0 {
      assert s2[..j] == s2[..j - 1] + [s2[j - 1]];
      ScoreGrowsWithSecond(s1[..i], s2[..j - 1], s3[..k], s2[j - 1]);
    }
    if k > 0 {
      assert s3[..k] == s3[..k - 1] + [s3[k - 1]];
      ScoreGrowsWithThird(s1[..i], s2[..j], s3[..k - 1], s3[k - 1]);
    }
  }

  /** The recurrence for one interior cell: given the seven candidates
      computed from the scores of its predecessor prefixes, their maximum is
      the cell's score and their first maximum is its decision. */
  lemma CellRecurrence(s1: string, s2: string, s3: string, i: nat, j: nat, k: nat, scores: seq<int>)
    requires 0 < i <= |s1| && 0 < j <= |s2| && 0 < k <= |s3|
    requires |scores| == |Direction|
    requires scores[0] == Score(s1[..i - 1], s2[..j - 1], s3[..k - 1]) + Sim3(s1[i - 1], s2[j - 1], s3[k - 1])
    requires scores[1] == Score(s1[..i - 1], s2[..j], s3[..k - 1]) + Sim(s1[i - 1], s3[k - 1])
    requires scores[2] == Score(s1[..i], s2[..j - 1], s3[..k - 1]) + Sim(s2[j - 1], s3[k - 1])
    requires scores[3] == Score(s1[..i - 1], s2[..j - 1], s3[..k]) + Sim(s1[i - 1], s2[j - 1])
    requires scores[4] == Score(s1[..i - 1], s2[..j], s3[..k])
    requires scores[5] == Score(s1[..i], s2[..j - 1], s3[..k])
    requires scores[6] == Score(s1[..i], s2[..j], s3[..k - 1])
    ensures MaxOf(scores) == Score(s1[..i], s2[..j], s3[..k])
    ensures Direction[FirstMax(scores)] == Decision(s1, s2, s3, i, j, k)
  {
    var cs := Candidates(s1[..i], s2[..j], s3[..k]);
    CandidatesOfPrefixes(s1, s2, s3, i, j, k);
    SameSeven(scores, cs);
  }

  /** Two sequences of seven values that agree entry by entry are equal. */
  lemma SameSeven(xs: seq<int>, ys: seq<int>)
    requires |xs| == |ys| == 7
    requires xs[0] == ys[0] && xs[1] == ys[1] && xs[2] == ys[2] && xs[3] == ys[3]
    requires xs[4] == ys[4] && xs[5] == ys[5] && xs[6] == ys[6]
    ensures xs == ys
  {
    forall q | 0 <= q < 7 ensures xs[q] == ys[q] {
      assert q == 0 || q == 1 || q == 2 || q == 3 || q == 4 || q == 5 || q == 6;
    }
  }

  /** Cell (a, b, c) is on the boundary or was filled before the interior
      loops reached cell (i, j, k). */
  predicate Before(a: nat, b: nat, c: nat, i: nat, j: nat, k: nat)
  {
    a == 0 || b == 0 || c == 0 || a < i || (a == i && (b < j || (b == j && c < k)))
  }

  /** The axis loops: tags `L`, `U`, `B` on the three axes. */
  method TagAxes(track: array3<Tag>, n1: nat, n2: nat, n3: nat)
    requires track.Length0 == n1 + 1 && track.Length1 == n2 + 1 && track.Length2 == n3 + 1
    requires forall a, b, c | 0 <= a <= n1 && 0 <= b <= n2 && 0 <= c <= n3 :: track[a, b, c] == NoTag
    modifies track
    ensures forall a, b, c | 0 <= a <= n1 && 0 <= b <= n2 && 0 <= c <= n3 ::
      track[a, b, c] == if Stage(a, b, c) < 4 then BoundaryTag(a, b, c) else NoTag
  {
    for i := 1 to n1 + 1
      invariant forall a, b, c | 0 <= a <= n1 && 0 <= b <= n2 && 0 <= c <= n3 ::
        track[a, b, c] == if Stage(a, b, c) < 1 || (Stage(a, b, c) == 1 && a < i) then BoundaryTag(a, b, c) else NoTag
    {
      track[i, 0, 0] := L;
    }
    for j := 1 to n2 + 1
      invariant forall a, b, c | 0 <= a <= n1 && 0 <= b <= n2 && 0 <= c <= n3 ::
        track[a, b, c] == if Stage(a, b, c) < 2 || (Stage(a, b, c) == 2 && b < j) then BoundaryTag(a, b, c) else NoTag
    {
      track[0, j, 0] := U;
    }
    for k := 1 to n3 + 1
      invariant forall a, b, c | 0 <= a <= n1 && 0 <= b <= n2 && 0 <= c <= n3 ::
        track[a, b, c] == if Stage(a, b, c) < 3 || (Stage(a, b, c) == 3 && c < k) then BoundaryTag(a, b, c) else NoTag
    {
      track[0, 0, k] := B;
    }

  }

  /** The face loops: tags `Dij`, `Djk`, `Dik` on the three faces. */
  method TagFaces(track: array3<Tag>, n1: nat, n2: nat, n3: nat)
    requires track.Length0 == n1 + 1 && track.Length1 == n2 + 1 && track.Length2 == n3 + 1
    requires forall a, b, c | 0 <= a <= n1 && 0 <= b <= n2 && 0 <= c <= n3 ::
      track[a, b, c] == if Stage(a, b, c) < 4 then BoundaryTag(a, b, c) else NoTag
    modifies track
    ensures forall a, b, c | 0 <= a <= n1 && 0 <= b <= n2 && 0 <= c <= n3 ::
      track[a, b, c] == BoundaryTag(a, b, c)
  {
    for i := 1 to n1 + 1
      invariant forall a, b, c | 0 <= a <= n1 && 0 <= b <= n2 && 0 <= c <= n3 ::
        track[a, b, c] == if Stage(a, b, c) < 4 || (Stage(a, b, c) == 4 && a < i) then BoundaryTag(a, b, c) else NoTag
    {
      for j := 1 to n2 + 1
        invariant forall a, b, c | 0 <= a <= n1 && 0 <= b <= n2 && 0 <= c <= n3 ::
          track[a, b, c] == if Stage(a, b, c) < 4 || (Stage(a, b, c) == 4 && (a < i || (a == i && b < j)))
                            then BoundaryTag(a, b, c) else NoTag
      {
        track[i, j, 0] := Dij;
      }
    }
    for j := 1 to n2 + 1
      invariant forall a, b, c | 0 <= a <= n1 && 0 <= b <= n2 && 0 <= c <= n3 ::
        track[a, b, c] == if Stage(a, b, c) < 5 || (Stage(a, b, c) == 5 && b < j) then BoundaryTag(a, b, c) else NoTag
    {
      for k := 1 to n3 + 1
        invariant forall a, b, c | 0 <= a <= n1 && 0 <= b <= n2 && 0 <= c <= n3 ::
          track[a, b, c] == if Stage(a, b, c) < 5 || (Stage(a, b, c) == 5 && (b < j || (b == j && c < k)))
                            then BoundaryTag(a, b, c) else NoTag
      {
        track[0, j, k] := Djk;
      }
    }
    for k := 1 to n3 + 1
      invariant forall a, b, c | 0 <= a <= n1 && 0 <= b <= n2 && 0 <= c <= n3 ::
        track[a, b, c] == if Stage(a, b, c) < 6 || (Stage(a, b, c) == 6 && c < k) then BoundaryTag(a, b, c) else NoTag
    {
      for i := 1 to n1 + 1
        invariant forall a, b, c | 0 <= a <= n1 && 0 <= b <= n2 && 0 <= c <= n3 ::
          track[a, b, c] == if Stage(a, b, c) < 6 || (Stage(a, b, c) == 6 && (c < k || (c == k && a < i)))
                            then BoundaryTag(a, b, c) else NoTag
      {
        track[i, 0, k] := Dik;
      }
    }

  }

  /** The interior loops: every interior cell, in increasing order of all
      three indices, gets the best of its seven candidates and the first
      move that achieves it. */
  /** One interior cell: its seven candidates from the predecessor cells,
      the maximum into the score table and the first move achieving it
      (the argmax choice) into the decision table. No other cell changes. */
  method FillCell(table: array3<int>, track: array3<Tag>, s1: string, s2: string, s3: string, i: nat, j: nat, k: nat)
    requires table.Length0 == track.Length0 == |s1| + 1
    requires table.Length1 == track.Length1 == |s2| + 1
    requires table.Length2 == track.Length2 == |s3| + 1
    requires 0 < i <= |s1| && 0 < j <= |s2| && 0 < k <= |s3|
    requires table[i - 1, j - 1, k - 1] == Score(s1[..i - 1], s2[..j - 1], s3[..k - 1])
    requires table[i - 1, j, k - 1] == Score(s1[..i - 1], s2[..j], s3[..k - 1])
    requires table[i, j - 1, k - 1] == Score(s1[..i], s2[..j - 1], s3[..k - 1])
    requires table[i - 1, j - 1, k] == Score(s1[..i - 1], s2[..j - 1], s3[..k])
    requires table[i - 1, j, k] == Score(s1[..i - 1], s2[..j], s3[..k])
    requires table[i, j - 1, k] == Score(s1[..i], s2[..j - 1], s3[..k])
    requires table[i, j, k - 1] == Score(s1[..i], s2[..j], s3[..k - 1])
    modifies table, track
    ensures table[i, j, k] == Score(s1[..i], s2[..j], s3[..k])
    ensures track[i, j, k] == Decision(s1, s2, s3, i, j, k)
    ensures forall a, b, c | 0 <= a < table.Length0 && 0 <= b < table.Length1 && 0 <= c < table.Length2 && (a, b, c) != (i, j, k) ::
      table[a, b, c] == old(table[a, b, c]) && track[a, b, c] == old(track[a, b, c])
  {
    var score1 := table[i - 1, j - 1, k - 1] + Sim3(s1[i - 1], s2[j - 1], s3[k - 1]);
    var score2 := table[i - 1, j, k - 1] + Sim(s1[i - 1], s3[k - 1]);
    var score3 := table[i, j - 1, k - 1] + Sim(s2[j - 1], s3[k - 1]);
    var score4 := table[i - 1, j - 1, k] + Sim(s1[i - 1], s2[j - 1]);
    var score5 := table[i - 1, j, k];
    var score6 := table[i, j - 1, k];
    var score7 := table[i, j, k - 1];
    var scores := [score1, score2, score3, score4, score5, score6, score7];
    CellRecurrence(s1, s2, s3, i, j, k, scores);
    table[i, j, k] := MaxOf(scores);
    var best := ArgMax(scores);
    track[i, j, k] := Direction[best];
  }

  /** The interior loops: cells are filled in row-major order, so each
      cell's seven predecessors are already final when it is reached. */
  method FillInterior(table: array3<int>, track: array3<Tag>, s1: string, s2: string, s3: string)
    requires table.Length0 == track.Length0 == |s1| + 1
    requires table.Length1 == track.Length1 == |s2| + 1
    requires table.Length2 == track.Length2 == |s3| + 1
    requires forall a, b, c | 0 <= a <= |s1| && 0 <= b <= |s2| && 0 <= c <= |s3| && (a == 0 || b == 0 || c == 0) ::
      table[a, b, c] == Score(s1[..a], s2[..b], s3[..c])
    requires forall a, b, c | 0 <= a <= |s1| && 0 <= b <= |s2| && 0 <= c <= |s3| && (a == 0 || b == 0 || c == 0) ::
      track[a, b, c] == Decision(s1, s2, s3, a, b, c)
    modifies table, track
    ensures forall a, b, c | 0 <= a <= |s1| && 0 <= b <= |s2| && 0 <= c <= |s3| ::
      table[a, b, c] == Score(s1[..a], s2[..b], s3[..c])
    ensures forall a, b, c | 0 <= a <= |s1| && 0 <= b <= |s2| && 0 <= c <= |s3| ::
      track[a, b, c] == Decision(s1, s2, s3, a, b, c)
  {
    var n1, n2, n3 := |s1|, |s2|, |s3|;
    for i := 1 to n1 + 1
      invariant forall a, b, c | 0 <= a <= n1 && 0 <= b <= n2 && 0 <= c <= n3 && Before(a, b, c, i, 0, 0) ::
        table[a, b, c] == Score(s1[..a], s2[..b], s3[..c])
      invariant forall a, b, c | 0 <= a <= n1 && 0 <= b <= n2 && 0 <= c <= n3 && Before(a, b, c, i, 0, 0) ::
        track[a, b, c] == Decision(s1, s2, s3, a, b, c)
    {
      for j := 1 to n2 + 1
        invariant forall a, b, c | 0 <= a <= n1 && 0 <= b <= n2 && 0 <= c <= n3 && Before(a, b, c, i, j, 0) ::
          table[a, b, c] == Score(s1[..a], s2[..b], s3[..c])
        invariant forall a, b, c | 0 <= a <= n1 && 0 <= b <= n2 && 0 <= c <= n3 && Before(a, b, c, i, j, 0) ::
          track[a, b, c] == Decision(s1, s2, s3, a, b, c)
      {
        for k := 1 to n3 + 1
          invariant forall a, b, c | 0 <= a <= n1 && 0 <= b <= n2 && 0 <= c <= n3 && Before(a, b, c, i, j, k) ::
            table[a, b, c] == Score(s1[..a], s2[..b], s3[..c])
          invariant forall a, b, c | 0 <= a <= n1 && 0 <= b <= n2 && 0 <= c <= n3 && Before(a, b, c, i, j, k) ::
            track[a, b, c] == Decision(s1, s2, s3, a, b, c)
        {
          FillCell(table, track, s1, s2, s3, i, j, k);
          forall a, b, c | 0 <= a <= n1 && 0 <= b <= n2 && 0 <= c <= n3 && Before(a, b, c, i, j, k + 1)
            ensures table[a, b, c] == Score(s1[..a], s2[..b], s3[..c])
            ensures track[a, b, c] == Decision(s1, s2, s3, a, b, c)
          {
            if (a, b, c) != (i, j, k) {
              assert Before(a, b, c, i, j, k);
            }
          }
        }
      }
    }
  }

  /** Builds both tables. Every score cell holds the recursive score of its
      prefixes (so the last one holds the score of the whole sequences),
      every decision cell holds the decision the recurrence and its
      tie-break prescribe, boundary cells score 0 and carry the fixed tags,
      the scores never decrease along an axis, and the
      decision table can be followed back from every cell. */
  method ScoreDP(s1: string, s2: string, s3: string) returns (table: array3<int>, track: array3<Tag>)
    ensures table.Length0 == track.Length0 == |s1| + 1
    ensures table.Length1 == track.Length1 == |s2| + 1
    ensures table.Length2 == track.Length2 == |s3| + 1
    ensures forall i, j, k | 0 <= i <= |s1| && 0 <= j <= |s2| && 0 <= k <= |s3| ::
      table[i, j, k] == Score(s1[..i], s2[..j], s3[..k])
    ensures forall i, j, k | 0 <= i <= |s1| && 0 <= j <= |s2| && 0 <= k <= |s3| ::
      track[i, j, k] == Decision(s1, s2, s3, i, j, k)
    ensures table[|s1|, |s2|, |s3|] == Score(s1, s2, s3)
    ensures forall i, j, k | 0 <= i <= |s1| && 0 <= j <= |s2| && 0 <= k <= |s3| && (i == 0 || j == 0 || k == 0) ::
      table[i, j, k] == 0 && track[i, j, k] == BoundaryTag(i, j, k)
    ensures forall i, j, k | 0 < i <= |s1| && 0 <= j <= |s2| && 0 <= k <= |s3| ::
      table[i, j, k] >= table[i - 1, j, k]
    ensures forall i, j, k | 0 <= i <= |s1| && 0 < j <= |s2| && 0 <= k <= |s3| ::
      table[i, j, k] >= table[i, j - 1, k]
    ensures forall i, j, k | 0 <= i <= |s1| && 0 <= j <= |s2| && 0 < k <= |s3| ::
      table[i, j, k] >= table[i, j, k - 1]
    ensures Traceable(track)
  {
    var n1, n2, n3 := |s1|, |s2|, |s3|;
    table := new int[n1 + 1, n2 + 1, n3 + 1]((i, j, k) => 0);
    track := new Tag[n1 + 1, n2 + 1, n3 + 1]((i, j, k) => NoTag);

    TagAxes(track, n1, n2, n3);
    TagFaces(track, n1, n2, n3);

    // Every boundary cell now holds its final score (0) and tag.
    forall a, b, c | 0 <= a <= n1 && 0 <= b <= n2 && 0 <= c <= n3 && (a == 0 || b == 0 || c == 0)
      ensures table[a, b, c] == Score(s1[..a], s2[..b], s3[..c])
    {
      ScoreOfEmpty(s1[..a], s2[..b], s3[..c]);
    }

    FillInterior(table, track, s1, s2, s3);

    assert s1[..n1] == s1 && s2[..n2] == s2 && s3[..n3] == s3;
    forall a, b, c | 0 <= a <= n1 && 0 <= b <= n2 && 0 <= c <= n3 && (a == 0 || b == 0 || c == 0)
      ensures table[a, b, c] == 0 && track[a, b, c] == BoundaryTag(a, b, c)
    {
      ScoreOfEmpty(s1[..a], s2[..b], s3[..c]);
    }
    forall a, b, c | 0 <= a <= n1 && 0 <= b <= n2 && 0 <= c <= n3
      ensures a > 0 ==> table[a, b, c] >= table[a - 1, b, c]
      ensures b > 0 ==> table[a, b, c] >= table[a, b - 1, c]
      ensures c > 0 ==> table[a, b, c] >= table[a, b, c - 1]
    {
      PrefixScoreMonotone(s1, s2, s3, a, b, c);
    }
    forall a, b, c | 0 <= a <= n1 && 0 <= b <= n2 && 0 <= c <= n3 && (a, b, c) != (0, 0, 0)
      ensures StepsBack(track[a, b, c], a, b, c)
    {
      DecisionStepsBack(s1, s2, s3, a, b, c);
    }
  }
}
