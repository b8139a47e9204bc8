/** The two fixed similarity rewards of the three-way alignment scheme. */
module Similarity {

  /** Reward for one column that pairs two characters. */
  function Sim(a: char, b: char): (r: nat)
    ensures r <= 1
    ensures r == 1 <==> a == b
  {
    if a == b then 1 else 0
  }

  /** Reward for one column that holds three characters: a three-way match
      is worth 2, a column with exactly one matching pair is worth 1. */
  function Sim3(a: char, b: char, c: char): (r: nat)
    ensures r <= 2
    ensures r == 2 <==> a == b && b == c
    ensures r == 1 <==> (a == b || b == c || a == c) && !(a == b && b == c)
    ensures r == 0 <==> a != b && b != c && a != c
  {
    if a == b && b == c then 2
    else if a == b || b == c || a == c then 1
    else 0
  }

  /** The pair reward does not depend on the order of its arguments. */
  lemma SimSymmetric(a: char, b: char)
    ensures Sim(a, b) == Sim(b, a)
  {
  }

  /** The triple reward is the same for every permutation of its arguments. */
  lemma Sim3Symmetric(a: char, b: char, c: char)
    ensures Sim3(a, b, c) == Sim3(b, a, c) == Sim3(a, c, b)
    ensures Sim3(a, b, c) == Sim3(c, b, a) == Sim3(b, c, a) == Sim3(c, a, b)
  {
  }
}
