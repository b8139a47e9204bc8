/** The seven moves of the recurrence, their fixed preference order, and the
    maximum / first-maximum choice the table builder makes among them. */
module Moves {

  /** A decision-table entry. `NoTag` is the empty entry the table starts
      with and that the origin keeps; the other seven are the moves. */
  datatype Tag = NoTag | DD | Dik | Djk | Dij | L | U | B

  /** The moves in the order the candidates are listed; ties go to the
      earliest one. */
  const Direction: seq<Tag> := [DD, Dik, Djk, Dij, L, U, B]

  /** Whether a move consumes a character of the first, second or third sequence. */
  predicate TakesI(t: Tag) { t == DD || t == Dik || t == Dij || t == L }
  predicate TakesJ(t: Tag) { t == DD || t == Djk || t == Dij || t == U }
  predicate TakesK(t: Tag) { t == DD || t == Dik || t == Djk || t == B }

  /** Every move consumes at least one character; the empty entry consumes none. */
  lemma MovesConsume(t: Tag)
    ensures t != NoTag <==> TakesI(t) || TakesJ(t) || TakesK(t)
    ensures t in Direction <==> t != NoTag
  {
  }

  /** The largest element of a non-empty sequence. */
  function MaxOf(xs: seq<int>): (m: int)
    requires |xs| > 0
    ensures m in xs
    ensures forall p :: 0 <= p < |xs| ==> xs[p] <= m
  {
    if |xs| == 1 then xs[0]
    else
      var m := MaxOf(xs[..|xs| - 1]);
      if xs[|xs| - 1] > m then xs[|xs| - 1] else m
  }

  /** The index of the first maximal element (the numpy `argmax` choice). */
  function FirstMax(xs: seq<int>): (r: nat)
    requires |xs| > 0
    ensures r < |xs|
    ensures forall p :: 0 <= p < |xs| ==> xs[p] <= xs[r]
    ensures forall p :: 0 <= p < r ==> xs[p] < xs[r]
    ensures xs[r] == MaxOf(xs)
  {
    if |xs| == 1 then 0
    else
      var r := FirstMax(xs[..|xs| - 1]);
      if xs[|xs| - 1] > xs[r] then |xs| - 1 else r
  }

  /** When the first candidate is maximal, it is the one chosen. */
  lemma FirstMaxPrefersFirst(xs: seq<int>)
    requires |xs| > 0
    requires forall p :: 0 <= p < |xs| ==> xs[p] <= xs[0]
    ensures FirstMax(xs) == 0
  {
  }

  /** The argmax scan: walk the candidates once, moving to a later index
      only when its value is strictly larger, so ties keep the earlier one. */
  method ArgMax(xs: seq<int>) returns (r: nat)
    requires |xs| > 0
    ensures r == FirstMax(xs)
  {
    r := 0;
    for p := 1 to |xs|
      invariant r < p
      invariant r == FirstMax(xs[..p])
    {
      assert xs[..p + 1][..p] == xs[..p];
      if xs[p] > xs[r] {
        r := p;
      }
    }
    assert xs[..|xs|] == xs;
  }

  /** A decision-table entry `t` at cell (i, j, k) can be followed back:
      it is a move, and every sequence it consumes still has a character. */
  predicate StepsBack(t: Tag, i: nat, j: nat, k: nat)
  {
    t != NoTag && (TakesI(t) ==> i > 0) && (TakesJ(t) ==> j > 0) && (TakesK(t) ==> k > 0)
  }

  /** Every cell of the decision table other than the origin can be
      followed back. */
  ghost predicate Traceable(track: array3<Tag>)
    reads track
  {
    forall i, j, k {:trigger StepsBack(track[i, j, k], i, j, k)}
      | 0 <= i < track.Length0 && 0 <= j < track.Length1 && 0 <= k < track.Length2 ::
      i + j + k > 0 ==> StepsBack(track[i, j, k], i, j, k)
  }
}
