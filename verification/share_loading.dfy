/** The share-collection pass of the loader, after the document has been
    parsed and every value decoded from its base: check the threshold, keep
    the entries with digit-only keys, validate each, reject duplicate
    abscissae, require at least k shares and sort them by abscissa. */
module ShareLoading {
  import opened Outcomes
  import opened Shares
  import opened ShareOrder
  import opened DecimalKeys
  import Interpolation

  /** One top-level property of the document: its key, its declared base, and
      its value as decoded in that base (None when the digits do not parse). */
  datatype Entry = Entry(key: string, base: int, value: Option<int>)

  /** The declared n and k, and the top-level properties in iteration order. */
  datatype Document = Document(n: int, k: int, entries: seq<Entry>)

  /** What the loader hands on: n and k as declared, and the sorted shares. */
  datatype InputData = InputData(n: int, k: int, shares: seq<Share>)

  // ---- specification: which entries become shares ----

  /** The entry names a share: it is not the "keys" object and its key is numeric. */
  predicate Counted(e: Entry) {
    e.key != "keys" && IsNumericKey(e.key)
  }

  /** The abscissa a counted entry names. */
  function KeyX(e: Entry): int
    requires Counted(e)
  {
    DecimalValue(e.key)
  }

  /** A counted entry whose base is allowed and whose value decoded. */
  predicate Acceptable(e: Entry) {
    2 <= e.base <= 36 && e.value.Some?
  }

  predicate AllAcceptable(es: seq<Entry>) {
    forall i :: 0 <= i < |es| && Counted(es[i]) ==> Acceptable(es[i])
  }

  /** The abscissae of the counted entries that pass the base and value
      checks, in order: the entries that reach the duplicate check. */
  function OkXs(es: seq<Entry>): seq<int> {
    if |es| == 0 then []
    else (if Counted(es[0]) && Acceptable(es[0]) then [KeyX(es[0])] else []) + OkXs(es[1..])
  }

  /** The shares the counted entries denote, in order. */
  function Accepted(es: seq<Entry>): seq<Share>
    requires AllAcceptable(es)
  {
    if |es| == 0 then []
    else
      assert AllAcceptable(es[1..]) by {
        forall i | 0 <= i < |es[1..]| && Counted(es[1..][i]) ensures Acceptable(es[1..][i]) {
          assert es[1..][i] == es[i + 1];
        }
      }
      (if Counted(es[0]) then [Share(KeyX(es[0]), es[0].value.value)] else []) + Accepted(es[1..])
  }

  /** The problem names an entry of `rest`, or an abscissa met twice among
      the shares collected and the entries that pass their base and value
      checks. */
  ghost predicate Blames(acc: seq<Share>, rest: seq<Entry>, p: InputProblem) {
    match p
    case BaseOutOfRange(x, b) =>
      exists e :: e in rest && Counted(e) && KeyX(e) == x && e.base == b && !(2 <= b <= 36)
    case UndecodableValue(x, b) =>
      exists e :: e in rest && Counted(e) && KeyX(e) == x && e.base == b && 2 <= b <= 36 && e.value.None?
    case DuplicateX(x) =>
      TwiceIn(Xs(acc) + OkXs(rest), x)
    case _ => false
  }

  /** x occurs at two different positions of xs. */
  ghost predicate TwiceIn(xs: seq<int>, x: int) {
    exists i, j :: 0 <= i < j < |xs| && xs[i] == x && xs[j] == x
  }

  // ---- the collection loop ----

  /** Walks the remaining entries, with the abscissae seen so far and the
      shares collected so far. */
  function Collect(rest: seq<Entry>, seen: set<int>, acc: seq<Share>): (r: Result<seq<Share>>)
    requires seen == XSet(acc) && DistinctX(acc)
    ensures r.Ok? <==> AllAcceptable(rest) && DistinctX(acc + Accepted(rest))
    ensures r.Ok? ==> r.value == acc + Accepted(rest)
    ensures r.Err? ==> r.error.InvalidInput? && Blames(acc, rest, r.error.problem)
    decreases |rest|
  {
    if |rest| == 0 then Ok(acc)
    else
      var e := rest[0];
      if e.key == "keys" then SkipStep(rest, seen, acc)
      else if !IsNumericKey(e.key) then SkipStep(rest, seen, acc)
      else
        var x := DecimalValue(e.key);
        if e.base < 2 || e.base > 36 then
          assert e in rest;
          Err(InvalidInput(BaseOutOfRange(x, e.base)))
        else if e.value.None? then
          assert e in rest;
          Err(InvalidInput(UndecodableValue(x, e.base)))
        else if x in seen then
          DuplicateStep(rest, acc);
          Err(InvalidInput(DuplicateX(x)))
        else
          AddStep(rest, seen, acc)
  }

  /** An entry that names no share is passed over. */
  function SkipStep(rest: seq<Entry>, seen: set<int>, acc: seq<Share>): (r: Result<seq<Share>>)
    requires |rest| > 0 && !Counted(rest[0]) && seen == XSet(acc) && DistinctX(acc)
    ensures r.Ok? <==> AllAcceptable(rest) && DistinctX(acc + Accepted(rest))
    ensures r.Ok? ==> r.value == acc + Accepted(rest)
    ensures r.Err? ==> r.error.InvalidInput? && Blames(acc, rest, r.error.problem)
    decreases |rest|, 0
  {
    var r := Collect(rest[1..], seen, acc);
    SkipFacts(rest);
    if r.Err? then BlameWidens(acc, acc, rest, r.error.problem); r else r
  }

  /** An accepted entry with a new abscissa is appended and marked seen. */
  function AddStep(rest: seq<Entry>, seen: set<int>, acc: seq<Share>): (r: Result<seq<Share>>)
    requires |rest| > 0 && Counted(rest[0]) && Acceptable(rest[0])
    requires seen == XSet(acc) && DistinctX(acc) && KeyX(rest[0]) !in seen
    ensures r.Ok? <==> AllAcceptable(rest) && DistinctX(acc + Accepted(rest))
    ensures r.Ok? ==> r.value == acc + Accepted(rest)
    ensures r.Err? ==> r.error.InvalidInput? && Blames(acc, rest, r.error.problem)
    decreases |rest|, 0
  {
    var e := rest[0];
    var sh := Share(KeyX(e), e.value.value);
    AppendFresh(acc, sh);
    var r := Collect(rest[1..], seen + {sh.x}, acc + [sh]);
    AddAccepted(rest);
    assert AllAcceptable(rest) ==> acc + Accepted(rest) == (acc + [sh]) + Accepted(rest[1..]);
    AddOkXs(rest, Xs(acc), sh.x);
    XsAppend(acc, sh);
    assert Xs(acc) + OkXs(rest) == Xs(acc + [sh]) + OkXs(rest[1..]);
    if r.Err? then BlameWidens(acc + [sh], acc, rest, r.error.problem); r else r
  }

  // ---- facts behind the loop steps ----

  /** Removing the first entry keeps acceptability of the others. */
  lemma UnconsAcceptable(rest: seq<Entry>)
    requires |rest| > 0
    ensures AllAcceptable(rest) <==> (Counted(rest[0]) ==> Acceptable(rest[0])) && AllAcceptable(rest[1..])
  {
    if (Counted(rest[0]) ==> Acceptable(rest[0])) && AllAcceptable(rest[1..]) {
      forall i | 0 <= i < |rest| && Counted(rest[i]) ensures Acceptable(rest[i]) {
        if i > 0 {
          assert rest[i] == rest[1..][i - 1];
        }
      }
    }
  }

  /** What passing over an entry that names no share leaves unchanged. */
  lemma SkipFacts(rest: seq<Entry>)
    requires |rest| > 0 && !Counted(rest[0])
    ensures AllAcceptable(rest) <==> AllAcceptable(rest[1..])
    ensures AllAcceptable(rest) ==> Accepted(rest) == Accepted(rest[1..])
    ensures OkXs(rest) == OkXs(rest[1..])
  {
    UnconsAcceptable(rest);
  }

  /** An accepted entry contributes its share at the head of the rest. */
  lemma AddAccepted(rest: seq<Entry>)
    requires |rest| > 0 && Counted(rest[0]) && Acceptable(rest[0])
    ensures AllAcceptable(rest) <==> AllAcceptable(rest[1..])
    ensures AllAcceptable(rest) ==>
              Accepted(rest) == [Share(KeyX(rest[0]), rest[0].value.value)] + Accepted(rest[1..])
  {
    UnconsAcceptable(rest);
  }

  /** An accepted entry contributes its abscissa at the head of the rest. */
  lemma AddOkXs(rest: seq<Entry>, xs: seq<int>, x: int)
    requires |rest| > 0 && Counted(rest[0]) && Acceptable(rest[0]) && x == KeyX(rest[0])
    ensures xs + OkXs(rest) == (xs + [x]) + OkXs(rest[1..])
  {
  }

  /** Blame found after the first entry is blame for the whole walk, when the
      abscissae met so far are the same either way. */
  lemma BlameWidens(inner: seq<Share>, acc: seq<Share>, rest: seq<Entry>, p: InputProblem)
    requires |rest| > 0
    requires Blames(inner, rest[1..], p)
    requires Xs(inner) + OkXs(rest[1..]) == Xs(acc) + OkXs(rest)
    ensures Blames(acc, rest, p)
  {
    match p
    case DuplicateX(x) =>
    case BaseOutOfRange(x, b) =>
      var e :| e in rest[1..] && Counted(e) && KeyX(e) == x && e.base == b && !(2 <= b <= 36);
      assert e in rest;
    case UndecodableValue(x, b) =>
      var e :| e in rest[1..] && Counted(e) && KeyX(e) == x && e.base == b && 2 <= b <= 36 && e.value.None?;
      assert e in rest;
  }

  /** Appending a share with a new abscissa keeps the seen set and distinctness. */
  lemma AppendFresh(acc: seq<Share>, sh: Share)
    requires DistinctX(acc) && sh.x !in XSet(acc)
    ensures XSet(acc + [sh]) == XSet(acc) + {sh.x}
    ensures DistinctX(acc + [sh])
  {
    var t := acc + [sh];
    forall i | 0 <= i < |acc| ensures acc[i].x != sh.x {
      assert acc[i] in acc;
    }
    forall v | v in XSet(t) ensures v in XSet(acc) + {sh.x} {
      var w :| w in t && w.x == v;
      if w != sh {
        assert w in acc;
      }
    }
    forall v | v in XSet(acc) + {sh.x} ensures v in XSet(t) {
      if v != sh.x {
        var w :| w in acc && w.x == v;
        assert w in t;
      } else {
        assert sh in t;
      }
    }
  }

  /** An accepted entry whose abscissa was already seen breaks distinctness and
      is the second occurrence of that abscissa. */
  lemma DuplicateStep(rest: seq<Entry>, acc: seq<Share>)
    requires |rest| > 0 && Counted(rest[0]) && Acceptable(rest[0]) && KeyX(rest[0]) in XSet(acc)
    ensures AllAcceptable(rest) ==> !DistinctX(acc + Accepted(rest))
    ensures TwiceIn(Xs(acc) + OkXs(rest), KeyX(rest[0]))
  {
    var x := KeyX(rest[0]);
    var w :| w in acc && w.x == x;
    var i :| 0 <= i < |acc| && acc[i] == w;
    if AllAcceptable(rest) {
      UnconsAcceptable(rest);
      SharesAt(acc, Accepted(rest), i, x);
    }
    var xs := Xs(acc) + OkXs(rest);
    assert xs[i] == x && xs[|acc|] == x;
  }

  /** Two shares with abscissa x, one in acc and one heading more. */
  lemma SharesAt(acc: seq<Share>, more: seq<Share>, i: nat, x: int)
    requires i < |acc| && acc[i].x == x && |more| > 0 && more[0].x == x
    ensures !DistinctX(acc + more)
  {
    var all := acc + more;
    assert all[i].x == x && all[|acc|].x == x;
  }

  // ---- the loader ----

  /** Validates the threshold, collects the shares and sorts them by x. */
  function Read(doc: Document): (r: Result<InputData>)
    ensures doc.k <= 0 ==> r == Err(InvalidInput(NonPositiveThreshold(doc.k)))
    ensures r.Ok? <==> doc.k > 0 && AllAcceptable(doc.entries)
                       && DistinctX(Accepted(doc.entries)) && |Accepted(doc.entries)| >= doc.k
    ensures r.Ok? ==> r.value.n == doc.n && r.value.k == doc.k
                      && StrictlyAscending(r.value.shares)
                      && multiset(r.value.shares) == multiset(Accepted(doc.entries))
    ensures r.Err? ==> r.error.InvalidInput?
    ensures r.Err? && r.error.problem.TooFewPoints? ==>
              && AllAcceptable(doc.entries) && DistinctX(Accepted(doc.entries))
              && r.error.problem.have == |Accepted(doc.entries)| < r.error.problem.need == doc.k
    ensures r.Err? && doc.k > 0 && !r.error.problem.TooFewPoints? ==> Blames([], doc.entries, r.error.problem)
  {
    if doc.k <= 0 then Err(InvalidInput(NonPositiveThreshold(doc.k)))
    else
      var shares :- CollectAll(doc.entries);
      Finish(doc.n, doc.k, shares)
  }

  /** The collection loop from an empty start. */
  function CollectAll(es: seq<Entry>): (r: Result<seq<Share>>)
    ensures r.Ok? <==> AllAcceptable(es) && DistinctX(Accepted(es))
    ensures r.Ok? ==> r.value == Accepted(es)
    ensures r.Err? ==> r.error.InvalidInput? && Blames([], es, r.error.problem)
  {
    assert AllAcceptable(es) ==> [] + Accepted(es) == Accepted(es);
    Collect(es, {}, [])
  }

  /** The count check and the sort, once the shares are collected. */
  function Finish(n: int, k: int, shares: seq<Share>): (r: Result<InputData>)
    requires DistinctX(shares)
    ensures r.Ok? <==> |shares| >= k
    ensures r.Ok? ==> r.value.n == n && r.value.k == k && StrictlyAscending(r.value.shares)
                      && multiset(r.value.shares) == multiset(shares)
    ensures r.Err? ==> r == Err(InvalidInput(TooFewPoints(|shares|, k)))
  {
    if |shares| < k then Err(InvalidInput(TooFewPoints(|shares|, k)))
    else
      SortStrict(shares);
      Ok(InputData(n, k, SortByX(shares)))
  }

  // ---- properties ----

  /** An entry that names no share can be removed from anywhere in the walk
      without changing its outcome, failures included. */
  lemma {:induction false} CollectSkips(pre: seq<Entry>, e: Entry, post: seq<Entry>, seen: set<int>, acc: seq<Share>)
    requires !Counted(e) && seen == XSet(acc) && DistinctX(acc)
    ensures Collect(pre + [e] + post, seen, acc) == Collect(pre + post, seen, acc)
    decreases |pre|
  {
    var long, short := pre + [e] + post, pre + post;
    if |pre| == 0 {
      assert long == [e] + post && long[1..] == post && short == post;
    } else {
      var h := pre[0];
      assert long[0] == h && short[0] == h;
      assert long[1..] == pre[1..] + [e] + post && short[1..] == pre[1..] + post;
      if Counted(h) && Acceptable(h) && KeyX(h) !in seen {
        var sh := Share(KeyX(h), h.value.value);
        AppendFresh(acc, sh);
        CollectSkips(pre[1..], e, post, seen + {sh.x}, acc + [sh]);
      } else if !Counted(h) {
        CollectSkips(pre[1..], e, post, seen, acc);
      }
    }
  }

  /** Lifted to the loader: the "keys" object and non-numeric properties never
      influence the result. */
  lemma ReadSkips(n: int, k: int, pre: seq<Entry>, e: Entry, post: seq<Entry>)
    requires !Counted(e)
    ensures Read(Document(n, k, pre + [e] + post)) == Read(Document(n, k, pre + post))
  {
    CollectSkips(pre, e, post, {}, []);
  }

  /** The declared n is carried through and never checked: changing it changes
      nothing but the n of the result. */
  lemma ReadPassesN(doc: Document, m: int)
    ensures Read(doc.(n := m)).Ok? == Read(doc).Ok?
    ensures Read(doc).Ok? ==> Read(doc.(n := m)).value == Read(doc).value.(n := m)
    ensures Read(doc).Err? ==> Read(doc.(n := m)) == Read(doc)
  {
  }

  /** Any strictly ascending arrangement of the accepted shares is the one the
      loader returns, so the choice of sorting algorithm is immaterial. */
  lemma ReadOrderUnique(doc: Document, other: seq<Share>)
    requires Read(doc).Ok?
    requires StrictlyAscending(other) && multiset(other) == multiset(Accepted(doc.entries))
    ensures Read(doc).value.shares == other
  {
    SortedUnique(Read(doc).value.shares, other);
  }

  /** Shares that loaded successfully pass the reconstruction engine's count
      and duplicate checks: the only failure left to it is a non-integer value. */
  lemma LoadedSharesReconstruct(doc: Document)
    requires Read(doc).Ok?
    ensures var d := Read(doc).value;
            var r := Interpolation.SecretAtZero(d.shares, d.k);
            r.Err? ==> r.error == NotAnInteger
  {
    var d := Read(doc).value;
    assert Interpolation.DistinctAbscissae(d.shares, d.k) by {
      forall a, b | 0 <= a < b < d.k
        ensures d.shares[a].x != d.shares[b].x
      {
        assert d.shares[a].x < d.shares[b].x;
      }
    }
  }

  /** Keys "1" and "01" name the same abscissa, so the second is a duplicate. */
  lemma CollidingKeysExample()
    ensures Read(Document(2, 1, [Entry("1", 10, Some(5)), Entry("01", 10, Some(7))]))
         == Err(InvalidInput(DuplicateX(1)))
  {
    NumericKeyExamples();
    var es := [Entry("1", 10, Some(5)), Entry("01", 10, Some(7))];
    assert Counted(es[0]) && Counted(es[1]);
    assert es[1..] == [es[1]];
    AppendFresh([], Share(1, 5));
  }

  /** A colliding key with a bad base is reported for its base: the base
      check comes before the duplicate check. */
  lemma BaseBeforeDuplicateExample()
    ensures Read(Document(2, 1, [Entry("1", 10, Some(5)), Entry("01", 37, Some(5))]))
         == Err(InvalidInput(BaseOutOfRange(1, 37)))
  {
    NumericKeyExamples();
    var es := [Entry("1", 10, Some(5)), Entry("01", 37, Some(5))];
    assert Counted(es[0]) && Counted(es[1]);
    assert es[1..] == [es[1]];
    AppendFresh([], Share(1, 5));
  }

  /** A base of 37 is outside the radixes the decoder accepts. */
  lemma BadBaseExample()
    ensures Read(Document(1, 1, [Entry("2", 37, Some(1))]))
         == Err(InvalidInput(BaseOutOfRange(2, 37)))
  {
    assert IsNumericKey("2") && DecimalValue("2") == 2;
  }

  /** With a threshold of zero nothing is looked at. */
  lemma ThresholdFirst(n: int, es: seq<Entry>)
    ensures Read(Document(n, 0, es)) == Err(InvalidInput(NonPositiveThreshold(0)))
  {
  }
}
