/** Ordering of shares by abscissa. The loader sorts with the platform's
    stable list sort; it is modelled here by an insertion sort that keeps
    equal abscissae in input order (shown for pairs), and the uniqueness
    lemma shows that, on shares with distinct abscissae, every sorting
    algorithm yields this same list. */
module ShareOrder {
  import opened Shares

  /** Abscissae never decrease along the list. */
  predicate Ascending(s: seq<Share>) {
    forall i, j :: 0 <= i < j < |s| ==> s[i].x <= s[j].x
  }

  /** Abscissae strictly increase along the list. */
  predicate StrictlyAscending(s: seq<Share>) {
    forall i, j :: 0 <= i < j < |s| ==> s[i].x < s[j].x
  }

  /** Places a share in an ascending list, before the first share whose
      abscissa is not smaller, which keeps equal abscissae in input order. */
  function Insert(sh: Share, s: seq<Share>): (r: seq<Share>)
    requires Ascending(s)
    ensures Ascending(r) && multiset(r) == multiset(s) + multiset{sh}
    ensures |r| == |s| + 1
    decreases |s|
  {
    if |s| == 0 || sh.x <= s[0].x then
      [sh] + s
    else
      var rest := Insert(sh, s[1..]);
      assert s == [s[0]] + s[1..];
      LowerBound(s[0], s[1..], sh, rest);
      [s[0]] + rest
  }

  /** A share no greater than every element of s and than sh stays first. */
  lemma LowerBound(first: Share, s: seq<Share>, sh: Share, rest: seq<Share>)
    requires Ascending([first] + s) && first.x <= sh.x
    requires Ascending(rest) && multiset(rest) == multiset(s) + multiset{sh}
    ensures Ascending([first] + rest)
  {
    forall m | 0 <= m < |rest|
      ensures first.x <= rest[m].x
    {
      assert rest[m] in multiset(rest);
      if rest[m] != sh {
        assert rest[m] in multiset(s);
        var i :| 0 <= i < |s| && s[i] == rest[m];
        var whole := [first] + s;
        assert whole[0] == first && whole[i + 1] == s[i];
        assert whole[0].x <= whole[i + 1].x;
      }
    }
  }

  /** Sorts shares by ascending abscissa. */
  function SortByX(s: seq<Share>): (r: seq<Share>)
    ensures Ascending(r) && multiset(r) == multiset(s) && |r| == |s|
    decreases |s|
  {
    if |s| == 0 then []
    else
      assert s == [s[0]] + s[1..];
      Insert(s[0], SortByX(s[1..]))
  }

  /** Inserting a share whose abscissa is new keeps a list strictly ascending. */
  lemma {:induction false} InsertStrict(sh: Share, s: seq<Share>)
    requires StrictlyAscending(s) && sh.x !in XSet(s)
    ensures StrictlyAscending(Insert(sh, s))
    decreases |s|
  {
    if |s| > 0 && sh.x > s[0].x {
      assert s == [s[0]] + s[1..];
      assert XSet(s[1..]) <= XSet(s) by {
        forall v | v in XSet(s[1..]) ensures v in XSet(s) {
          var w :| w in s[1..] && w.x == v;
          assert w in s;
        }
      }
      InsertStrict(sh, s[1..]);
      StrictLowerBound(s[0], s[1..], sh, Insert(sh, s[1..]));
    }
  }

  /** A share strictly below every element of s and below sh stays strictly first. */
  lemma StrictLowerBound(first: Share, s: seq<Share>, sh: Share, rest: seq<Share>)
    requires StrictlyAscending([first] + s) && first.x < sh.x
    requires StrictlyAscending(rest) && multiset(rest) == multiset(s) + multiset{sh}
    ensures StrictlyAscending([first] + rest)
  {
    forall m | 0 <= m < |rest|
      ensures first.x < rest[m].x
    {
      assert rest[m] in multiset(rest);
      if rest[m] != sh {
        assert rest[m] in multiset(s);
        var i :| 0 <= i < |s| && s[i] == rest[m];
        var whole := [first] + s;
        assert whole[0] == first && whole[i + 1] == s[i];
        assert whole[0].x < whole[i + 1].x;
      }
    }
  }

  /** Permuted lists have the same set of abscissae. */
  lemma SameXSet(a: seq<Share>, b: seq<Share>)
    requires multiset(a) == multiset(b)
    ensures XSet(a) == XSet(b)
  {
    forall sh ensures sh in a <==> sh in b {
      assert sh in a <==> sh in multiset(a);
      assert sh in b <==> sh in multiset(b);
    }
  }

  /** On shares with distinct abscissae the sorted list is strictly ascending. */
  lemma {:induction false} SortStrict(s: seq<Share>)
    requires DistinctX(s)
    ensures StrictlyAscending(SortByX(s))
    decreases |s|
  {
    if |s| > 0 {
      var tail := s[1..];
      assert DistinctX(tail);
      SortStrict(tail);
      SameXSet(SortByX(tail), tail);
      forall w | w in tail
        ensures w.x != s[0].x
      {
        var i :| 0 <= i < |tail| && tail[i] == w;
        assert s[i + 1] == w;
      }
      InsertStrict(s[0], SortByX(tail));
    }
  }

  /** Two strictly ascending permutations of the same shares are equal: the
      sorted order of shares with distinct abscissae is unique. */
  lemma {:induction false} SortedUnique(a: seq<Share>, b: seq<Share>)
    requires StrictlyAscending(a) && StrictlyAscending(b) && multiset(a) == multiset(b)
    ensures a == b
    decreases |a|
  {
    assert |a| == |multiset(a)| == |b|;
    if |a| > 0 {
      SameHead(a, b);
      TailPermutation(a, b);
      SortedUnique(a[1..], b[1..]);
      assert a == [a[0]] + a[1..] && b == [b[0]] + b[1..];
    }
  }

  /** The least share of a strictly ascending permutation comes first in both. */
  lemma SameHead(a: seq<Share>, b: seq<Share>)
    requires StrictlyAscending(a) && StrictlyAscending(b) && multiset(a) == multiset(b)
    requires |a| > 0
    ensures |b| > 0 && a[0] == b[0]
  {
    assert a[0] in multiset(b);
    var j :| 0 <= j < |b| && b[j] == a[0];
    assert b[0] in multiset(a);
    var i :| 0 <= i < |a| && a[i] == b[0];
    assert a[0].x <= a[i].x && b[0].x <= b[j].x;
    assert j == 0;
  }

  lemma TailPermutation(a: seq<Share>, b: seq<Share>)
    requires |a| > 0 && |b| > 0 && a[0] == b[0] && multiset(a) == multiset(b)
    ensures multiset(a[1..]) == multiset(b[1..])
  {
    assert a == [a[0]] + a[1..] && b == [b[0]] + b[1..];
    assert multiset(a) == multiset{a[0]} + multiset(a[1..]);
    assert multiset(b) == multiset{b[0]} + multiset(b[1..]);
    assert multiset(a[1..]) == multiset(a) - multiset{a[0]};
    assert multiset(b[1..]) == multiset(b) - multiset{b[0]};
  }

  /** Shares met out of order come back ascending. */
  lemma SortExample()
    ensures SortByX([Share(3, 9), Share(1, 4)]) == [Share(1, 4), Share(3, 9)]
  {
  }

  /** Two shares with equal abscissae keep their input order, as a stable
      sort does. */
  lemma StablePair(a: Share, b: Share)
    requires a.x == b.x
    ensures SortByX([a, b]) == [a, b]
  {
  }
}
