/** A share is one point (x, y) of the secret polynomial, with
    arbitrary-precision coordinates. */
module Shares {

  datatype Share = Share(x: int, y: int)

  /** The abscissae of a list of shares, in order. */
  function Xs(s: seq<Share>): (r: seq<int>)
    ensures |r| == |s| && forall i :: 0 <= i < |s| ==> r[i] == s[i].x
  {
    if |s| == 0 then [] else [s[0].x] + Xs(s[1..])
  }

  lemma XsAppend(s: seq<Share>, sh: Share)
    ensures Xs(s + [sh]) == Xs(s) + [sh.x]
  {
  }

  /** No two shares of the list have the same abscissa. */
  predicate DistinctX(s: seq<Share>) {
    forall i, j :: 0 <= i < j < |s| ==> s[i].x != s[j].x
  }

  /** The set of abscissae present in a list of shares. */
  function XSet(s: seq<Share>): set<int> {
    set sh | sh in s :: sh.x
  }
}
