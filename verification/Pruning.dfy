/**
 * Top-`k` search over inverted lists, for any additive scorer.
 */
module Pruning {
  import opened ByteStrings
  import opened Ranking
  import opened Sets

  // The full scan, and the max-score scan that stops once no unseen document can reach the top `k`.

  type Term = Bytes

  /**
   * A scorer: the documents on a term's list, a term's contribution to a document, and
   * the most the term can contribute.
   */
  datatype Scorer = Scorer(post: Term -> set<Id>, part: (Term, Id) -> real, bound: Term -> real)
  {
    /** Contributions are non-negative, bounded, and zero off the list. */
    ghost predicate Valid() {
      forall t, id :: PartOk(t, id)
    }

    ghost predicate PartOk(t: Term, id: Id) {
      0.0 <= part(t, id) <= bound(t) && (id !in post(t) ==> part(t, id) == 0.0)
    }

    /** A document's full score: the contributions of every query term. */
    function Score(ts: seq<Term>, id: Id): real {
      if ts == [] then 0.0 else Score(ts[..|ts| - 1], id) + part(ts[|ts| - 1], id)
    }

    /** The documents on some query term's list. */
    function Matched(ts: seq<Term>): set<Id> {
      if ts == [] then {} else Matched(ts[..|ts| - 1]) + post(ts[|ts| - 1])
    }

    /** The full scan's answer before ranking. */
    function Scores(ts: seq<Term>): map<Id, real> {
      map id | id in Matched(ts) :: Score(ts, id)
    }

    function BoundSum(ts: seq<Term>): real {
      if ts == [] then 0.0 else BoundSum(ts[..|ts| - 1]) + bound(ts[|ts| - 1])
    }
  }

  // ---- sums over query terms ------------------------------------------------------

  lemma ScoreSnoc(s: Scorer, ts: seq<Term>, t: Term, id: Id)
    ensures s.Score(ts + [t], id) == s.Score(ts, id) + s.part(t, id)
    ensures s.BoundSum(ts + [t]) == s.BoundSum(ts) + s.bound(t)
  {
    assert (ts + [t])[..|ts|] == ts;
  }

  lemma {:induction false} ScoreSplit(s: Scorer, a: seq<Term>, b: seq<Term>, id: Id)
    ensures s.Score(a + b, id) == s.Score(a, id) + s.Score(b, id)
    decreases |b|
  {
    if b == [] {
      assert a + b == a;
    } else {
      var c, t := b[..|b| - 1], b[|b| - 1];
      ScoreSplit(s, a, c, id);
      assert b == c + [t] && a + b == (a + c) + [t];
      ScoreSnoc(s, a + c, t, id);
      ScoreSnoc(s, c, t, id);
    }
  }

  lemma {:induction false} ScoreBounds(s: Scorer, ts: seq<Term>, id: Id)
    requires s.Valid()
    ensures 0.0 <= s.Score(ts, id) <= s.BoundSum(ts)
    decreases |ts|
  {
    if ts != [] {
      ScoreBounds(s, ts[..|ts| - 1], id);
      assert s.PartOk(ts[|ts| - 1], id);
    }
  }

  lemma {:induction false} UnmatchedScore(s: Scorer, ts: seq<Term>, id: Id)
    requires s.Valid() && id !in s.Matched(ts)
    ensures s.Score(ts, id) == 0.0
    decreases |ts|
  {
    if ts != [] {
      var last := ts[|ts| - 1];
      assert s.PartOk(last, id);
      UnmatchedScore(s, ts[..|ts| - 1], id);
    }
  }

  /** The order in which terms are processed does not change a score. */
  lemma {:induction false} ScorePermuted(s: Scorer, ts: seq<Term>, us: seq<Term>, id: Id)
    requires multiset(ts) == multiset(us)
    ensures s.Score(ts, id) == s.Score(us, id)
    decreases |ts|
  {
    if ts == [] {
      assert |us| == |multiset(us)| == |multiset(ts)| == 0;
    } else {
      var init, t := ts[..|ts| - 1], ts[|ts| - 1];
      assert ts == init + [t];
      var a, b := SplitAt(init, us, t);
      ScorePermuted(s, init, a + b, id);
      ScoreSplit(s, a, b, id);
      ScoreSplit(s, a + [t], b, id);
      ScoreSnoc(s, a, t, id);
      ScoreSnoc(s, init, t, id);
    }
  }

  /** Take one occurrence of `t` out of a permutation of `init + [t]`. */
  lemma SplitAt(init: seq<Term>, us: seq<Term>, t: Term) returns (a: seq<Term>, b: seq<Term>)
    requires multiset(init + [t]) == multiset(us)
    ensures us == a + [t] + b && multiset(a + b) == multiset(init)
  {
    assert t in multiset(us) && t in us;
    var i: nat :| i < |us| && us[i] == t;
    a, b := us[..i], us[i + 1..];
    assert us == a + [t] + b;
    assert multiset(us) == multiset(a) + multiset{t} + multiset(b);
    assert multiset(a + b) == multiset(us) - multiset{t};
    assert multiset(init) == multiset(init + [t]) - multiset{t};
  }

  lemma MatchedSnoc(s: Scorer, ts: seq<Term>, t: Term)
    ensures s.Matched(ts + [t]) == s.Matched(ts) + s.post(t)
  {
    assert (ts + [t])[..|ts|] == ts;
  }

  lemma {:induction false} MatchedIff(s: Scorer, ts: seq<Term>, id: Id)
    ensures id in s.Matched(ts) <==> exists t :: t in ts && id in s.post(t)
    decreases |ts|
  {
    if ts != [] {
      var init, last := ts[..|ts| - 1], ts[|ts| - 1];
      MatchedIff(s, init, id);
      assert ts == init + [last];
    }
  }

  lemma MatchedPermuted(s: Scorer, ts: seq<Term>, us: seq<Term>)
    requires multiset(ts) == multiset(us)
    ensures s.Matched(ts) == s.Matched(us)
  {
    assert forall t :: t in ts <==> t in multiset(ts);
    assert forall t :: t in us <==> t in multiset(us);
    forall id ensures id in s.Matched(ts) <==> id in s.Matched(us) {
      MatchedIff(s, ts, id);
      MatchedIff(s, us, id);
    }
  }

  lemma MatchedSplit(s: Scorer, a: seq<Term>, b: seq<Term>)
    ensures s.Matched(a) <= s.Matched(a + b)
  {
    forall id | id in s.Matched(a) ensures id in s.Matched(a + b) {
      MatchedIff(s, a, id);
      MatchedIff(s, a + b, id);
      var t :| t in a && id in s.post(t);
      assert t in a + b;
    }
  }

  // ---- the full scan --------------------------------------------------------------

  /** Fold one term's whole list into the accumulators. */
  method AddPostings(s: Scorer, ghost ts: seq<Term>, t: Term, acc: map<Id, real>) returns (acc': map<Id, real>)
    requires s.Valid() && acc == s.Scores(ts)
    ensures acc' == s.Scores(ts + [t])
  {
    MatchedSnoc(s, ts, t);
    acc' := acc;
    var rest := s.post(t);
    forall id | id in acc && id !in rest ensures s.part(t, id) == 0.0 {
      assert s.PartOk(t, id);
    }
    while rest != {}
      invariant rest <= s.post(t)
      invariant acc'.Keys == s.Matched(ts) + (s.post(t) - rest)
      invariant forall id :: id in acc' ==> acc'[id] == s.Score(ts, id) + if id in rest then 0.0 else s.part(t, id)
      decreases rest
    {
      var id :| id in rest;
      if id !in acc' {
        UnmatchedScore(s, ts, id);
      }
      acc' := acc'[id := (if id in acc' then acc'[id] else 0.0) + s.part(t, id)];
      rest := rest - {id};
    }
    forall id | id in acc' ensures acc'[id] == s.Score(ts + [t], id) {
      ScoreSnoc(s, ts, t, id);
      assert s.PartOk(t, id);
    }
  }

  ghost function ItemsOf(acc: map<Id, real>): set<Hit> {
    set id | id in acc :: (id, acc[id])
  }

  method Rank(acc: map<Id, real>, k: nat) returns (r: seq<Hit>)
    ensures IsTop(r, ItemsOf(acc), k)
  {
    r := SortAndCut(set id | id in acc :: (id, acc[id]), k);
  }

  /** The full scan: every list of every query term, repeated terms included. */
  method FullScan(s: Scorer, terms: seq<Term>, k: nat) returns (r: seq<Hit>)
    requires s.Valid()
    ensures IsTop(r, ItemsOf(s.Scores(terms)), k)
  {
    var acc: map<Id, real> := map[];
    assert s.Scores(terms[..0]) == map[];
    for i := 0 to |terms|
      invariant acc == s.Scores(terms[..i])
    {
      acc := AddPostings(s, terms[..i], terms[i], acc);
      assert terms[..i] + [terms[i]] == terms[..i + 1];
    }
    assert terms[..|terms|] == terms;
    r := Rank(acc, k);
  }

  // ---- the query plan -------------------------------------------------------------

  /** The query terms without repeats, in first-occurrence order. */
  function Dedup(ts: seq<Term>): seq<Term> {
    if ts == [] then []
    else
      var d := Dedup(ts[..|ts| - 1]);
      if ts[|ts| - 1] in ts[..|ts| - 1] then d else d + [ts[|ts| - 1]]
  }

  /** The terms whose document frequency is positive, in order. */
  function Present(df: Term -> int, ts: seq<Term>): seq<Term> {
    if ts == [] then []
    else
      var p := Present(df, ts[..|ts| - 1]);
      if df(ts[|ts| - 1]) > 0 then p + [ts[|ts| - 1]] else p
  }

  /** Terms absent from the corpus contribute nothing. */
  lemma {:induction false} PresentScores(s: Scorer, df: Term -> int, ts: seq<Term>, id: Id)
    requires s.Valid() && forall t :: df(t) <= 0 ==> s.post(t) == {}
    ensures s.Score(Present(df, ts), id) == s.Score(ts, id)
    ensures id in s.Matched(Present(df, ts)) <==> id in s.Matched(ts)
    decreases |ts|
  {
    if ts != [] {
      var init, t := ts[..|ts| - 1], ts[|ts| - 1];
      PresentScores(s, df, init, id);
      assert ts == init + [t];
      MatchedSnoc(s, init, t);
      MatchedSnoc(s, Present(df, init), t);
      ScoreSnoc(s, init, t, id);
      ScoreSnoc(s, Present(df, init), t, id);
      assert s.PartOk(t, id);
    }
  }

  /** Distinct present query terms, highest bound first. */
  method Plan(s: Scorer, df: Term -> int, terms: seq<Term>) returns (infos: seq<Term>)
    ensures multiset(infos) == multiset(Present(df, Dedup(terms)))
    ensures Descending(s, infos)
  {
    var kept: seq<Term> := [];
    for i := 0 to |terms|
      invariant kept == Present(df, Dedup(terms[..i]))
    {
      var t := terms[i];
      assert terms[..i + 1][..i] == terms[..i];
      if t !in terms[..i] {
        ghost var d := Dedup(terms[..i]);
        assert (d + [t])[..|d|] == d;
        if df(t) > 0 {
          kept := kept + [t];
        }
      }
    }
    assert terms[..|terms|] == terms;
    infos := [];
    for i := 0 to |kept|
      invariant multiset(infos) == multiset(kept[..i])
      invariant Descending(s, infos)
    {
      assert kept[..i + 1] == kept[..i] + [kept[i]];
      infos := InsertByBound(s, infos, kept[i]);
    }
    assert kept[..|kept|] == kept;
  }

  ghost predicate Descending(s: Scorer, infos: seq<Term>) {
    forall a: nat, b: nat :: a < b < |infos| ==> s.bound(infos[a]) >= s.bound(infos[b])
  }

  /** Insert a term into a list sorted by descending bound. */
  method InsertByBound(s: Scorer, infos: seq<Term>, t: Term) returns (r: seq<Term>)
    requires Descending(s, infos)
    ensures multiset(r) == multiset(infos) + multiset{t} && Descending(s, r)
  {
    hide Descending;
    var i := |infos|;
    while i > 0 && s.bound(infos[i - 1]) < s.bound(t)
      invariant 0 <= i <= |infos|
      invariant forall a: nat :: i <= a < |infos| ==> s.bound(infos[a]) < s.bound(t)
    {
      i := i - 1;
    }
    r := infos[..i] + [t] + infos[i..];
    InsertAt(s, infos, i, t);
  }

  lemma InsertAt(s: Scorer, infos: seq<Term>, i: nat, t: Term)
    requires i <= |infos| && Descending(s, infos)
    requires i > 0 ==> s.bound(infos[i - 1]) >= s.bound(t)
    requires forall a: nat :: i <= a < |infos| ==> s.bound(infos[a]) < s.bound(t)
    ensures Descending(s, infos[..i] + [t] + infos[i..])
    ensures multiset(infos[..i] + [t] + infos[i..]) == multiset(infos) + multiset{t}
  {
    hide Descending;
    var left, right := infos[..i], infos[i..];
    assert infos == left + right;
    assert i > 0 ==> left[|left| - 1] == infos[i - 1];
    forall a: nat | a < |right| ensures s.bound(right[a]) < s.bound(t) {
      assert right[a] == infos[i + a];
    }
    InsertOk(s, left, t, right);
  }

  lemma InsertOk(s: Scorer, left: seq<Term>, t: Term, right: seq<Term>)
    requires Descending(s, left + right)
    requires left != [] ==> s.bound(left[|left| - 1]) >= s.bound(t)
    requires forall a: nat :: a < |right| ==> s.bound(right[a]) < s.bound(t)
    ensures Descending(s, left + [t] + right)
    ensures multiset(left + [t] + right) == multiset(left + right) + multiset{t}
  {
    var all, r := left + right, left + [t] + right;
    var n := |left|;
    forall a: nat, b: nat | a < b < |r| ensures s.bound(r[a]) >= s.bound(r[b]) {
      assert r[a] == if a < n then all[a] else if a == n then t else all[a - 1];
      assert r[b] == if b < n then all[b] else if b == n then t else all[b - 1];
      if a < n && b == n {
        assert s.bound(all[a]) >= s.bound(all[n - 1]) || a == n - 1;
      }
      if a == n {
        assert all[b - 1] == right[b - 1 - n];
      }
    }
  }

  lemma PlanScores(s: Scorer, df: Term -> int, terms: seq<Term>, infos: seq<Term>)
    requires s.Valid() && (forall t :: df(t) <= 0 ==> s.post(t) == {})
    requires multiset(infos) == multiset(Present(df, Dedup(terms)))
    ensures s.Scores(infos) == s.Scores(Dedup(terms))
  {
    var p, d := Present(df, Dedup(terms)), Dedup(terms);
    MatchedPermuted(s, infos, p);
    forall id
      ensures id in s.Matched(infos) <==> id in s.Matched(d)
      ensures s.Score(infos, id) == s.Score(d, id)
    {
      PresentScores(s, df, d, id);
      ScorePermuted(s, infos, p, id);
    }
    assert s.Matched(infos) == s.Matched(d);
  }

  // ---- the pruned scan ------------------------------------------------------------

  /** At least `k` accumulators have reached `floor`. */
  ghost predicate FloorHolds(acc: map<Id, real>, k: nat, floor: real) {
    exists top: set<Id> :: |top| == k && AtFloor(acc, top, floor)
  }

  ghost predicate AtFloor(acc: map<Id, real>, top: set<Id>, floor: real) {
    forall id :: id in top ==> id in acc && acc[id] >= floor
  }

  ghost function IdsOf(r: seq<Hit>): set<Id> { set h | h in r :: h.0 }

  lemma {:induction false} DistinctIdsCard(r: seq<Hit>)
    requires forall i: nat, j: nat :: i < j < |r| ==> r[i].0 != r[j].0
    ensures |IdsOf(r)| == |r|
    decreases |r|
  {
    if r == [] {
      assert IdsOf(r) == {};
    } else {
      var init, last := r[..|r| - 1], r[|r| - 1];
      DistinctIdsCard(init);
      assert r == init + [last];
      assert IdsOf(r) == IdsOf(init) + {last.0};
    }
  }

  lemma IdsCard(acc: map<Id, real>, r: seq<Hit>)
    requires Ranked(r) && forall h :: h in r ==> h in ItemsOf(acc)
    ensures |IdsOf(r)| == |r|
  {
    forall i: nat, j: nat | i < j < |r| ensures r[i].0 != r[j].0 {
      assert r[i] in r && r[j] in r && r[i] != r[j];
    }
    DistinctIdsCard(r);
  }

  /** The k-th largest accumulator. */
  method KthFloor(acc: map<Id, real>, k: nat) returns (floor: real)
    requires 0 < k <= |acc|
    ensures FloorHolds(acc, k, floor)
  {
    var top := Rank(acc, k);
    IdsCard(acc, top);
    if |top| < k {
      forall id | id in acc ensures id in IdsOf(top) {
        assert (id, acc[id]) in top;
      }
      SubsetCard(acc.Keys, IdsOf(top));
      assert false;
    }
    floor := top[k - 1].1;
    forall id | id in IdsOf(top) ensures id in acc && acc[id] >= floor {
      var h :| h in top && h.0 == id;
      var i: nat :| i < |top| && top[i] == h;
      if i < k - 1 { assert Before(top[i], top[k - 1]); }
    }
    assert AtFloor(acc, IdsOf(top), floor);
  }

  /** Complete the accumulators' scores by point lookups of one term. */
  method AddLookups(s: Scorer, ghost ts: seq<Term>, t: Term, acc: map<Id, real>) returns (acc': map<Id, real>)
    requires s.Valid() && forall id :: id in acc ==> acc[id] == s.Score(ts, id)
    ensures acc'.Keys == acc.Keys && forall id :: id in acc' ==> acc'[id] == s.Score(ts + [t], id)
  {
    acc' := acc;
    var rest := acc.Keys;
    while rest != {}
      invariant rest <= acc.Keys == acc'.Keys
      invariant forall id :: id in acc' ==> acc'[id] == if id in rest then s.Score(ts, id) else s.Score(ts + [t], id)
      decreases rest
    {
      var id :| id in rest;
      ScoreSnoc(s, ts, t, id);
      assert s.PartOk(t, id);
      if id in s.post(t) {
        acc' := acc'[id := acc'[id] + s.part(t, id)];
      }
      rest := rest - {id};
    }
  }

  /** Sum of the bounds of the terms not yet processed. */
  method RemainingBound(s: Scorer, ts: seq<Term>) returns (sum: real)
    ensures sum == s.BoundSum(ts)
  {
    sum := 0.0;
    for i := 0 to |ts|
      invariant sum == s.BoundSum(ts[..i])
    {
      assert ts[..i + 1][..i] == ts[..i];
      sum := sum + s.bound(ts[i]);
    }
    assert ts[..|ts|] == ts;
  }

  /** The rest of the plan is not worth scanning: done, or no unseen document can reach the floor. */
  ghost predicate MayStop(s: Scorer, infos: seq<Term>, idx: nat, acc: map<Id, real>, k: nat, floor: real)
    requires idx <= |infos|
  {
    idx == |infos| || (FloorHolds(acc, k, floor) && floor > s.BoundSum(infos[idx..]))
  }

  /** Scan lists in plan order until the k-th accumulator exceeds what the rest can add. */
  method ScanLists(s: Scorer, infos: seq<Term>, k: nat) returns (idx: nat, acc: map<Id, real>, ghost floor: real)
    requires s.Valid() && k > 0
    ensures idx <= |infos| && acc == s.Scores(infos[..idx]) && MayStop(s, infos, idx, acc, k, floor)
  {
    NoScores(s, infos);
    hide Scorer.Score, Scorer.Scores, Scorer.BoundSum, Scorer.Valid, FloorHolds;
    acc := map[];
    idx := 0;
    var kthFloor := 0.0;
    while idx < |infos|
      invariant idx <= |infos| && acc == s.Scores(infos[..idx])
      invariant |acc| >= k ==> FloorHolds(acc, k, kthFloor)
    {
      var remaining := RemainingBound(s, infos[idx..]);
      if |acc| >= k && kthFloor > remaining {
        floor := kthFloor;
        return;
      }
      acc := AddPostings(s, infos[..idx], infos[idx], acc);
      assert infos[..idx] + [infos[idx]] == infos[..idx + 1];
      idx := idx + 1;
      if |acc| >= k {
        kthFloor := KthFloor(acc, k);
      }
    }
    floor := kthFloor;
  }

  /** Complete every candidate's score with the terms whose lists were not scanned. */
  method Complete(s: Scorer, infos: seq<Term>, idx: nat, scanned: map<Id, real>) returns (acc: map<Id, real>)
    requires s.Valid() && idx <= |infos| && scanned == s.Scores(infos[..idx])
    ensures acc.Keys == scanned.Keys && forall id :: id in acc ==> acc[id] == s.Score(infos, id)
  {
    acc := scanned;
    hide Scorer.Score, Scorer.Valid;
    for i := idx to |infos|
      invariant acc.Keys == scanned.Keys && forall id :: id in acc ==> acc[id] == s.Score(infos[..i], id)
    {
      acc := AddLookups(s, infos[..i], infos[i], acc);
      assert infos[..i] + [infos[i]] == infos[..i + 1];
    }
    assert infos[..|infos|] == infos;
  }

  /** Scan lists by descending bound, stop early, complete the candidates by lookups, rank. */
  method PrunedScan(s: Scorer, df: Term -> int, terms: seq<Term>, k: nat) returns (r: seq<Hit>)
    requires s.Valid() && k > 0 && forall t :: df(t) <= 0 ==> s.post(t) == {}
    ensures IsTop(r, ItemsOf(s.Scores(Dedup(terms))), k)
  {
    hide *;
    var infos := Plan(s, df, terms);
    PlanScores(s, df, terms, infos);
    var idx, scanned, floor := ScanLists(s, infos, k);
    var acc := Complete(s, infos, idx, scanned);
    r := Rank(acc, k);
    PrunedIsTop(s, infos, idx, scanned, acc, floor, k, r);
  }

  lemma NoScores(s: Scorer, infos: seq<Term>)
    ensures s.Scores(infos[..0]) == map[]
  {
  }

  /** The early exit is exact: what was never accumulated cannot reach the top `k`. */
  lemma PrunedIsTop(s: Scorer, infos: seq<Term>, idx: nat, scanned: map<Id, real>, acc: map<Id, real>,
                    floor: real, k: nat, r: seq<Hit>)
    requires s.Valid() && idx <= |infos| && scanned == s.Scores(infos[..idx])
    requires MayStop(s, infos, idx, scanned, k, floor)
    requires acc.Keys == scanned.Keys && forall id :: id in acc ==> acc[id] == s.Score(infos, id)
    requires IsTop(r, ItemsOf(acc), k)
    ensures IsTop(r, ItemsOf(s.Scores(infos)), k)
  {
    hide Scorer.Score, Scorer.BoundSum, FloorHolds;
    var all := s.Scores(infos);
    assert infos == infos[..idx] + infos[idx..];
    MatchedSplit(s, infos[..idx], infos[idx..]);
    if idx == |infos| {
      assert infos[..idx] == infos;
      assert acc == all;
    } else {
      forall h | h in r ensures h in ItemsOf(all) {
        assert h.0 in all;
      }
      forall h | h in ItemsOf(all) && h !in r ensures |r| == k && forall g :: g in r ==> Before(g, h) {
        if h.0 in acc {
          assert h in ItemsOf(acc);
        } else {
          UnmatchedScore(s, infos[..idx], h.0);
          ScoreSplit(s, infos[..idx], infos[idx..], h.0);
          ScoreBounds(s, infos[idx..], h.0);
          FinishedFloor(s, infos, idx, scanned, acc, k, floor);
          FloorBeats(acc, floor, k, r, h);
        }
      }
    }
  }

  /** Accumulators only grow, so the floor still holds for the completed scores. */
  lemma FinishedFloor(s: Scorer, infos: seq<Term>, idx: nat, scanned: map<Id, real>, acc: map<Id, real>, k: nat, floor: real)
    requires s.Valid() && idx <= |infos| && scanned == s.Scores(infos[..idx]) && FloorHolds(scanned, k, floor)
    requires acc.Keys == scanned.Keys && forall id :: id in acc ==> acc[id] == s.Score(infos, id)
    ensures FloorHolds(acc, k, floor)
  {
    var top: set<Id> :| |top| == k && AtFloor(scanned, top, floor);
    assert infos == infos[..idx] + infos[idx..];
    forall id | id in top ensures id in acc && acc[id] >= floor {
      ScoreSplit(s, infos[..idx], infos[idx..], id);
      ScoreBounds(s, infos[idx..], id);
    }
  }

  /** `k` documents at or above the floor keep everything below it out of the top `k`. */
  lemma FloorBeats(acc: map<Id, real>, floor: real, k: nat, r: seq<Hit>, h: Hit)
    requires FloorHolds(acc, k, floor) && IsTop(r, ItemsOf(acc), k) && h.1 < floor
    ensures |r| == k && forall g :: g in r ==> Before(g, h)
  {
    var top: set<Id> :| |top| == k && AtFloor(acc, top, floor);
    IdsCard(acc, r);
    if top <= IdsOf(r) {
      SubsetCard(top, IdsOf(r));
      forall g | g in r ensures Before(g, h) {
        assert g.0 in IdsOf(r) && g.0 in top;
      }
    } else {
      var x :| x in top && x !in IdsOf(r);
      assert (x, acc[x]) in ItemsOf(acc) && (x, acc[x]) !in r;
      assert forall g :: g in r ==> Before(g, (x, acc[x]));
    }
  }

  ghost predicate Distinct(ts: seq<Term>) {
    forall i: nat, j: nat :: i < j < |ts| ==> ts[i] != ts[j]
  }

  lemma {:induction false} DedupDistinct(ts: seq<Term>)
    requires Distinct(ts)
    ensures Dedup(ts) == ts
    decreases |ts|
  {
    if ts != [] {
      var k := |ts| - 1;
      DedupDistinct(ts[..k]);
      assert ts[k] !in ts[..k];
      assert ts == ts[..k] + [ts[k]];
    }
  }
}
