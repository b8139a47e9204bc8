/** The recursive formulation of the optimal three-way alignment score. It
    is the specification the table must reproduce; being exponential it
    exists only as a ghost definition. Like the original it recurses on the
    sequences with their last character dropped. */
module Recurrence {
  import opened Similarity
  import opened Moves

  /** A sequence without its last character. */
  function Init(s: string): (p: string)
    requires |s| > 0
    ensures |p| == |s| - 1
  {
    s[..|s| - 1]
  }

  /** Optimal score of aligning `s1`, `s2` and `s3`: 0 as soon as one of
      them is empty, otherwise the best of the seven candidate moves for
      the last column. */
  ghost function Score(s1: string, s2: string, s3: string): int
    decreases |s1| + |s2| + |s3|, 1
  {
    if |s1| == 0 || |s2| == 0 || |s3| == 0 then 0
    else MaxOf(Candidates(s1, s2, s3))
  }

  /** The seven candidate scores for the last column, in the order of
      `Direction`: the triple diagonal, the two-sequence diagonals (first
      and third, second and third, first and second), then the
      single-sequence moves, which earn nothing. */
  ghost function Candidates(s1: string, s2: string, s3: string): (cs: seq<int>)
    requires |s1| > 0 && |s2| > 0 && |s3| > 0
    ensures |cs| == |Direction|
    decreases |s1| + |s2| + |s3|, 0
  {
    var a, b, c := s1[|s1| - 1], s2[|s2| - 1], s3[|s3| - 1];
    var p1, p2, p3 := Init(s1), Init(s2), Init(s3);
    [ Score(p1, p2, p3) + Sim3(a, b, c),
      Score(p1, s2, p3) + Sim(a, c),
      Score(s1, p2, p3) + Sim(b, c),
      Score(p1, p2, s3) + Sim(a, b),
      Score(p1, s2, s3),
      Score(s1, p2, s3),
      Score(s1, s2, p3) ]
  }

  /** With one sequence empty there is nothing to pair, so the score is 0. */
  lemma ScoreOfEmpty(s1: string, s2: string, s3: string)
    requires |s1| == 0 || |s2| == 0 || |s3| == 0
    ensures Score(s1, s2, s3) == 0
  {
  }

  /** No alignment scores below 0: every candidate adds a non-negative
      reward to a non-negative score. */
  lemma {:induction false} ScoreNonNegative(s1: string, s2: string, s3: string)
    ensures Score(s1, s2, s3) >= 0
    decreases |s1| + |s2| + |s3|
  {
    if |s1| > 0 && |s2| > 0 && |s3| > 0 {
      var p1, p2, p3 := Init(s1), Init(s2), Init(s3);
      ScoreNonNegative(p1, p2, p3);
      ScoreNonNegative(p1, s2, p3);
      ScoreNonNegative(s1, p2, p3);
      ScoreNonNegative(p1, p2, s3);
      ScoreNonNegative(p1, s2, s3);
      ScoreNonNegative(s1, p2, s3);
      ScoreNonNegative(s1, s2, p3);
      assert Candidates(s1, s2, s3)[0] >= 0;
    }
  }

  /** Otherwise the score is one of the candidates and no candidate exceeds it. */
  lemma ScoreIsMaximum(s1: string, s2: string, s3: string)
    requires |s1| > 0 && |s2| > 0 && |s3| > 0
    ensures Score(s1, s2, s3) in Candidates(s1, s2, s3)
    ensures forall q :: 0 <= q < |Direction| ==> Candidates(s1, s2, s3)[q] <= Score(s1, s2, s3)
  {
  }

  /** The prefix of length `n` without its last character is the prefix of
      length `n - 1`, and its last character is `s[n - 1]`. */
  lemma InitOfPrefix(s: string, n: nat)
    requires 0 < n <= |s|
    ensures Init(s[..n]) == s[..n - 1] && s[..n][n - 1] == s[n - 1]
  {
    assert s[..n][..n - 1] == s[..n - 1];
  }

  /** The candidates of the prefixes `s1[..i]`, `s2[..j]`, `s3[..k]` are
      built from the scores of shorter prefixes of the same sequences and
      from the characters at `i - 1`, `j - 1`, `k - 1`: the form in which
      the table reads them. */
  lemma CandidatesOfPrefixes(s1: string, s2: string, s3: string, i: nat, j: nat, k: nat)
    requires 0 < i <= |s1| && 0 < j <= |s2| && 0 < k <= |s3|
    ensures var cs, a, b, c := Candidates(s1[..i], s2[..j], s3[..k]), s1[i - 1], s2[j - 1], s3[k - 1];
      && cs[0] == Score(s1[..i - 1], s2[..j - 1], s3[..k - 1]) + Sim3(a, b, c)
      && cs[1] == Score(s1[..i - 1], s2[..j], s3[..k - 1]) + Sim(a, c)
      && cs[2] == Score(s1[..i], s2[..j - 1], s3[..k - 1]) + Sim(b, c)
      && cs[3] == Score(s1[..i - 1], s2[..j - 1], s3[..k]) + Sim(a, b)
      && cs[4] == Score(s1[..i - 1], s2[..j], s3[..k])
      && cs[5] == Score(s1[..i], s2[..j - 1], s3[..k])
      && cs[6] == Score(s1[..i], s2[..j], s3[..k - 1])
  {
    InitOfPrefix(s1, i);
    InitOfPrefix(s2, j);
    InitOfPrefix(s3, k);
  }

  /** Appending a character to the first sequence never lowers the score:
      the move that gaps the new character keeps the old score. */
  lemma ScoreGrowsWithFirst(s1: string, s2: string, s3: string, x: char)
    ensures Score(s1 + [x], s2, s3) >= Score(s1, s2, s3)
  {
    if |s2| > 0 && |s3| > 0 {
      assert Init(s1 + [x]) == s1;
      assert Candidates(s1 + [x], s2, s3)[4] == Score(s1, s2, s3);
    }
  }

  /** Likewise for the second sequence. */
  lemma ScoreGrowsWithSecond(s1: string, s2: string, s3: string, x: char)
    ensures Score(s1, s2 + [x], s3) >= Score(s1, s2, s3)
  {
    if |s1| > 0 && |s3| > 0 {
      assert Init(s2 + [x]) == s2;
      assert Candidates(s1, s2 + [x], s3)[5] == Score(s1, s2, s3);
    }
  }

  /** Likewise for the third sequence. */
  lemma ScoreGrowsWithThird(s1: string, s2: string, s3: string, x: char)
    ensures Score(s1, s2, s3 + [x]) >= Score(s1, s2, s3)
  {
    if |s1| > 0 && |s2| > 0 {
      assert Init(s3 + [x]) == s3;
      assert Candidates(s1, s2, s3 + [x])[6] == Score(s1, s2, s3);
    }
  }

  /** Each column earns at most two thirds of a point per character it
      consumes (2 for three characters, 1 for two, 0 for one), so the score
      is at most two thirds of the total length. */
  lemma {:induction false} ScoreUpperBound(s1: string, s2: string, s3: string)
    ensures 3 * Score(s1, s2, s3) <= 2 * (|s1| + |s2| + |s3|)
    decreases |s1| + |s2| + |s3|
  {
    if |s1| > 0 && |s2| > 0 && |s3| > 0 {
      var p1, p2, p3 := Init(s1), Init(s2), Init(s3);
      ScoreUpperBound(p1, p2, p3);
      ScoreUpperBound(p1, s2, p3);
      ScoreUpperBound(s1, p2, p3);
      ScoreUpperBound(p1, p2, s3);
      ScoreUpperBound(p1, s2, s3);
      ScoreUpperBound(s1, p2, s3);
      ScoreUpperBound(s1, s2, p3);
      var cs := Candidates(s1, s2, s3);
      forall q | 0 <= q < |cs| ensures 3 * cs[q] <= 2 * (|s1| + |s2| + |s3|) {
      }
    }
  }

  /** Aligning a sequence with itself twice scores at least 2 per character:
      the triple diagonal matches every column. */
  lemma {:induction false} ScoreOfIdenticalAtLeast(x: string)
    ensures Score(x, x, x) >= 2 * |x|
  {
    if |x| > 0 {
      ScoreOfIdenticalAtLeast(Init(x));
      assert Candidates(x, x, x)[0] == Score(Init(x), Init(x), Init(x)) + 2;
    }
  }

  /** Three copies of one sequence score exactly twice its length, the
      most any alignment of them can earn. */
  lemma ScoreOfIdentical(x: string)
    ensures Score(x, x, x) == 2 * |x|
  {
    ScoreOfIdenticalAtLeast(x);
    ScoreUpperBound(x, x, x);
  }
}
