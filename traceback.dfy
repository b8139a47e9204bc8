/** The traceback: following the decision table from the far corner back to
    the origin, one column per step, to rebuild three gapped rows. */
module Traceback {
  import opened Moves

  /** The gap character the rows are padded with. */
  const Gap: char := '-'

  /** A row with its gaps deleted. */
  function RemoveGaps(s: string): (r: string)
    ensures Gap !in r
    ensures |r| <= |s|
  {
    if s == [] then []
    else (if s[0] == Gap then [] else [s[0]]) + RemoveGaps(s[1..])
  }

  /** A row of `n` gaps. */
  function Gaps(n: nat): (r: string)
    ensures |r| == n && forall p :: 0 <= p < n ==> r[p] == Gap
  {
    if n == 0 then [] else Gaps(n - 1) + [Gap]
  }

  /** Three rows form an alignment when they have one length and no column
      is a gap in all three rows. */
  predicate IsAlignment(r1: string, r2: string, r3: string)
  {
    && |r1| == |r2| == |r3|
    && forall p :: 0 <= p < |r1| ==> r1[p] != Gap || r2[p] != Gap || r3[p] != Gap
  }

  /** The decision table fits the three sequences and can be followed back
      from every cell. */
  ghost predicate Fits(track: array3<Tag>, s1: string, s2: string, s3: string)
    reads track
  {
    && track.Length0 == |s1| + 1 && track.Length1 == |s2| + 1 && track.Length2 == |s3| + 1
    && Traceable(track)
  }

  /** The rows the traceback rebuilds from cell (i, j, k): the rows for the
      cell the tag there points back to, followed by one column that holds
      the consumed character of each sequence the tag takes and a gap for
      the others. */
  ghost function Traced(track: array3<Tag>, s1: string, s2: string, s3: string, i: nat, j: nat, k: nat): (string, string, string)
    reads track
    requires Fits(track, s1, s2, s3)
    requires i <= |s1| && j <= |s2| && k <= |s3|
    decreases i + j + k
  {
    if i == 0 && j == 0 && k == 0 then ([], [], [])
    else
      var t := track[i, j, k];
      assert StepsBack(t, i, j, k);
      MovesConsume(t);
      var rows := Traced(track, s1, s2, s3, i - Step(TakesI(t)), j - Step(TakesJ(t)), k - Step(TakesK(t)));
      (rows.0 + [Entry(s1, i, TakesI(t))], rows.1 + [Entry(s2, j, TakesJ(t))], rows.2 + [Entry(s3, k, TakesK(t))])
  }

  /** How far a move steps back along one sequence: 1 if it consumes a
      character of it, 0 if not. */
  function Step(takes: bool): nat
  {
    if takes then 1 else 0
  }

  /** The entry a move puts in the row of one sequence at prefix length
      `n`: the consumed character `s[n - 1]`, or a gap. */
  function Entry(s: string, n: nat, takes: bool): char
    requires takes ==> 0 < n <= |s|
  {
    if takes then s[n - 1] else Gap
  }

  /** One step of `Traced`, unfolded: from a cell other than the origin the
      rows are those of the cell its tag points back to plus one column. */
  lemma TracedStep(track: array3<Tag>, s1: string, s2: string, s3: string, i: nat, j: nat, k: nat)
    requires Fits(track, s1, s2, s3)
    requires i <= |s1| && j <= |s2| && k <= |s3|
    requires i != 0 || j != 0 || k != 0
    ensures var t := track[i, j, k];
      && StepsBack(t, i, j, k)
      && Step(TakesI(t)) + Step(TakesJ(t)) + Step(TakesK(t)) > 0
      && var prev := Traced(track, s1, s2, s3, i - Step(TakesI(t)), j - Step(TakesJ(t)), k - Step(TakesK(t)));
      Traced(track, s1, s2, s3, i, j, k) ==
        (prev.0 + [Entry(s1, i, TakesI(t))], prev.1 + [Entry(s2, j, TakesJ(t))], prev.2 + [Entry(s3, k, TakesK(t))])
  {
    assert StepsBack(track[i, j, k], i, j, k);
    MovesConsume(track[i, j, k]);
  }

  /** One step of the round trip for one row: if the row built so far
      gives back the suffix of `s` from `n`, prepending the entry for prefix
      length `n` gives back the suffix from `n - Step(takes)`. */
  lemma PrependRow(s: string, row: string, n: nat, takes: bool)
    requires Gap !in s
    requires n <= |s| && Step(takes) <= n
    requires RemoveGaps(row) == s[n..]
    ensures RemoveGaps([Entry(s, n, takes)] + row) == s[n - Step(takes)..]
  {
    assert ([Entry(s, n, takes)] + row)[1..] == row;
    if takes {
      assert s[n - 1] in s;
      assert s[n - 1..] == [s[n - 1]] + s[n..];
    }
  }

  /** Prepending a column that is not all gaps to an alignment keeps it one. */
  lemma PrependAlignment(a1: string, a2: string, a3: string, c1: char, c2: char, c3: char)
    requires IsAlignment(a1, a2, a3)
    requires c1 != Gap || c2 != Gap || c3 != Gap
    ensures IsAlignment([c1] + a1, [c2] + a2, [c3] + a3)
  {
    forall p | 0 < p < |a1| + 1
      ensures ([c1] + a1)[p] != Gap || ([c2] + a2)[p] != Gap || ([c3] + a3)[p] != Gap
    {
      assert ([c1] + a1)[p] == a1[p - 1] && ([c2] + a2)[p] == a2[p - 1] && ([c3] + a3)[p] == a3[p - 1];
    }
  }

  /** What the rows built so far satisfy on their own: one length, and for
      gap-free sequences an alignment of the suffixes from (i, j, k). */
  predicate Aligns(s1: string, s2: string, s3: string, i: nat, j: nat, k: nat, r1: string, r2: string, r3: string)
    requires i <= |s1| && j <= |s2| && k <= |s3|
  {
    && |r1| == |r2| == |r3|
    && (Gap !in s1 && Gap !in s2 && Gap !in s3 ==>
          && IsAlignment(r1, r2, r3)
          && RemoveGaps(r1) == s1[i..] && RemoveGaps(r2) == s2[j..] && RemoveGaps(r3) == s3[k..])
  }

  /** Prepending the column of a move that steps back from (i, j, k) keeps
      `Aligns`: the move consumes at least one character, none of which is
      a gap. */
  lemma PrependColumn(t: Tag, s1: string, s2: string, s3: string,
                      i: nat, j: nat, k: nat, r1: string, r2: string, r3: string,
                      i': nat, j': nat, k': nat, r1': string, r2': string, r3': string)
    requires i <= |s1| && j <= |s2| && k <= |s3|
    requires StepsBack(t, i, j, k)
    requires Aligns(s1, s2, s3, i, j, k, r1, r2, r3)
    requires StepsTo(t, s1, s2, s3, i, j, k, r1, r2, r3, i', j', k', r1', r2', r3')
    ensures i' <= |s1| && j' <= |s2| && k' <= |s3|
    ensures Aligns(s1, s2, s3, i', j', k', r1', r2', r3')
  {
    if Gap !in s1 && Gap !in s2 && Gap !in s3 {
      PrependRow(s1, r1, i, TakesI(t));
      PrependRow(s2, r2, j, TakesJ(t));
      PrependRow(s3, r3, k, TakesK(t));
      MovesConsume(t);
      if TakesI(t) { assert s1[i - 1] in s1; }
      else if TakesJ(t) { assert s2[j - 1] in s2; }
      else { assert s3[k - 1] in s3; }
      PrependAlignment(r1, r2, r3, Entry(s1, i, TakesI(t)), Entry(s2, j, TakesJ(t)), Entry(s3, k, TakesK(t)));
    }
  }

  /** Along the first axis every step is `L`: the rows are the prefix of the
      first sequence over two rows of gaps. */
  lemma {:induction false} TracedAlongFirstAxis(track: array3<Tag>, s1: string, s2: string, s3: string, i: nat)
    requires Fits(track, s1, s2, s3)
    requires i <= |s1|
    requires forall a | 0 < a <= i :: track[a, 0, 0] == L
    ensures Traced(track, s1, s2, s3, i, 0, 0) == (s1[..i], Gaps(i), Gaps(i))
  {
    if i > 0 {
      TracedAlongFirstAxis(track, s1, s2, s3, i - 1);
      assert s1[..i] == s1[..i - 1] + [s1[i - 1]];
    }
  }

  /** On the main diagonal of three equal sequences every step is `DD`: each
      row is the prefix itself, without a gap. */
  lemma {:induction false} TracedAlongDiagonal(track: array3<Tag>, x: string, n: nat)
    requires Fits(track, x, x, x)
    requires n <= |x|
    requires forall a | 0 < a <= n :: track[a, a, a] == DD
    ensures Traced(track, x, x, x, n, n, n) == (x[..n], x[..n], x[..n])
  {
    if n > 0 {
      TracedAlongDiagonal(track, x, n - 1);
      assert x[..n] == x[..n - 1] + [x[n - 1]];
    }
  }

  /** The rows traced to (i, j, k) followed by the rows built so far are
      the whole traced rows. */
  ghost predicate Rebuilds(track: array3<Tag>, s1: string, s2: string, s3: string, i: nat, j: nat, k: nat,
                           r1: string, r2: string, r3: string, whole: (string, string, string))
    reads track
    requires Fits(track, s1, s2, s3)
    requires i <= |s1| && j <= |s2| && k <= |s3|
  {
    var rows := Traced(track, s1, s2, s3, i, j, k);
    rows.0 + r1 == whole.0 && rows.1 + r2 == whole.1 && rows.2 + r3 == whole.2
  }

  /** (i', j', k') and rows r1', r2', r3' are what one traceback step along
      tag `t` makes of (i, j, k) and r1, r2, r3: the indices the tag takes
      are decremented and its column is prepended. */
  predicate StepsTo(t: Tag, s1: string, s2: string, s3: string,
                    i: nat, j: nat, k: nat, r1: string, r2: string, r3: string,
                    i': nat, j': nat, k': nat, r1': string, r2': string, r3': string)
    requires StepsBack(t, i, j, k) && i <= |s1| && j <= |s2| && k <= |s3|
  {
    && i' == i - Step(TakesI(t)) && j' == j - Step(TakesJ(t)) && k' == k - Step(TakesK(t))
    && r1' == [Entry(s1, i, TakesI(t))] + r1
    && r2' == [Entry(s2, j, TakesJ(t))] + r2
    && r3' == [Entry(s3, k, TakesK(t))] + r3
  }

  /** A column can be moved from the front of the rows built so far to the
      end of the rows still to trace. */
  lemma MoveColumn(front: string, c: char, back: string)
    ensures front + ([c] + back) == (front + [c]) + back
  {
  }

  /** The step of the traceback loop: stepping back from (i, j, k) along
      its tag and prepending the tag's column keeps `Rebuilds`. */
  lemma TraceBackOneColumn(track: array3<Tag>, s1: string, s2: string, s3: string,
                           i: nat, j: nat, k: nat, r1: string, r2: string, r3: string,
                           i': nat, j': nat, k': nat, r1': string, r2': string, r3': string,
                           whole: (string, string, string))
    requires Fits(track, s1, s2, s3)
    requires i <= |s1| && j <= |s2| && k <= |s3|
    requires i != 0 || j != 0 || k != 0
    requires Rebuilds(track, s1, s2, s3, i, j, k, r1, r2, r3, whole)
    requires StepsBack(track[i, j, k], i, j, k)
    requires StepsTo(track[i, j, k], s1, s2, s3, i, j, k, r1, r2, r3, i', j', k', r1', r2', r3')
    ensures i' <= |s1| && j' <= |s2| && k' <= |s3|
    ensures Rebuilds(track, s1, s2, s3, i', j', k', r1', r2', r3', whole)
  {
    TracedStep(track, s1, s2, s3, i, j, k);
    var t := track[i, j, k];
    var prev := Traced(track, s1, s2, s3, i', j', k');
    var c1, c2, c3 := Entry(s1, i, TakesI(t)), Entry(s2, j, TakesJ(t)), Entry(s3, k, TakesK(t));
    assert Traced(track, s1, s2, s3, i, j, k) == (prev.0 + [c1], prev.1 + [c2], prev.2 + [c3]);
    MoveColumn(prev.0, c1, r1);
    MoveColumn(prev.1, c2, r2);
    MoveColumn(prev.2, c3, r3);
  }

  /** Walks the decision table from (|s1|, |s2|, |s3|) back to the origin,
      prepending one column per step as the tag there dictates. The rows
      are the traced ones; they have one length, and for gap-free input
      they align the three sequences. */
  method Align(s1: string, s2: string, s3: string, track: array3<Tag>) returns (r1: string, r2: string, r3: string)
    requires Fits(track, s1, s2, s3)
    ensures (r1, r2, r3) == Traced(track, s1, s2, s3, |s1|, |s2|, |s3|)
    ensures |r1| == |r2| == |r3|
    ensures Gap !in s1 && Gap !in s2 && Gap !in s3 ==>
      && IsAlignment(r1, r2, r3)
      && RemoveGaps(r1) == s1 && RemoveGaps(r2) == s2 && RemoveGaps(r3) == s3
  {
    r1, r2, r3 := [], [], [];
    var i: nat, j: nat, k: nat := |s1|, |s2|, |s3|;
    ghost var whole := Traced(track, s1, s2, s3, i, j, k);
    while i > 0 || j > 0 || k > 0
      invariant i <= |s1| && j <= |s2| && k <= |s3|
      invariant Rebuilds(track, s1, s2, s3, i, j, k, r1, r2, r3, whole)
      invariant Aligns(s1, s2, s3, i, j, k, r1, r2, r3)
      decreases i + j + k
    {
      var current := track[i, j, k];
      assert StepsBack(current, i, j, k);
      ghost var i0, j0, k0, o1, o2, o3 := i, j, k, r1, r2, r3;
      if current == DD {
        r1, r2, r3 := [s1[i - 1]] + r1, [s2[j - 1]] + r2, [s3[k - 1]] + r3;
        i, j, k := i - 1, j - 1, k - 1;
      } else if current == Dik {
        r1, r2, r3 := [s1[i - 1]] + r1, [Gap] + r2, [s3[k - 1]] + r3;
        i, k := i - 1, k - 1;
      } else if current == Djk {
        r1, r2, r3 := [Gap] + r1, [s2[j - 1]] + r2, [s3[k - 1]] + r3;
        j, k := j - 1, k - 1;
      } else if current == Dij {
        r1, r2, r3 := [s1[i - 1]] + r1, [s2[j - 1]] + r2, [Gap] + r3;
        i, j := i - 1, j - 1;
      } else if current == L {
        r1, r2, r3 := [s1[i - 1]] + r1, [Gap] + r2, [Gap] + r3;
        i := i - 1;
      } else if current == U {
        r1, r2, r3 := [Gap] + r1, [s2[j - 1]] + r2, [Gap] + r3;
        j := j - 1;
      } else {
        assert current == B;
        r1, r2, r3 := [Gap] + r1, [Gap] + r2, [s3[k - 1]] + r3;
        k := k - 1;
      }
      assert StepsTo(current, s1, s2, s3, i0, j0, k0, o1, o2, o3, i, j, k, r1, r2, r3);
      TraceBackOneColumn(track, s1, s2, s3, i0, j0, k0, o1, o2, o3, i, j, k, r1, r2, r3, whole);
      PrependColumn(current, s1, s2, s3, i0, j0, k0, o1, o2, o3, i, j, k, r1, r2, r3);
    }
    assert r1 == whole.0 && r2 == whole.1 && r3 == whole.2;
    assert s1[0..] == s1 && s2[0..] == s2 && s3[0..] == s3;
  }
}
