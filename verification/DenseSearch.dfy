/**
 * Dense search over the graph with the pending overlay merged in.
 */
module DenseSearch {
  import opened Wrappers
  import opened ByteStrings
  import opened Ranking
  import opened Sets
  import opened PendingSet

  // Pending upserts are scored exactly and win by id, pending removals mask stale graph hits.

  /** Every id of an id-to-vector map with its score for the query. */
  ghost function Items<V>(m: map<Id, V>, score: V -> real): set<Hit> {
    set id | id in m :: (id, score(m[id]))
  }

  /** Distinct ids in order of similarity, whatever the order among equals. */
  ghost predicate ByScore(r: seq<Hit>) {
    forall i: nat, j: nat :: i < j < |r| ==> r[i].1 >= r[j].1 && r[i].0 != r[j].0
  }

  /** `r` is a best `k` of `items` by score: what is missing scores no better than anything shown. */
  ghost predicate TopByScore(r: seq<Hit>, items: set<Hit>, k: nat) {
    && ByScore(r) && |r| <= k
    && (forall h :: h in r ==> h in items)
    && (forall h :: h in items && h !in r ==> |r| == k && forall g :: g in r ==> g.1 >= h.1)
  }

  /** One score per id. */
  ghost predicate Functional(items: set<Hit>) {
    forall g, h :: g in items && h in items && g.0 == h.0 ==> g == h
  }

  /** A ranking with its id tie-break is a best `k` by score. */
  lemma RankedByScore(r: seq<Hit>, items: set<Hit>, k: nat)
    requires IsTop(r, items, k) && Functional(items)
    ensures TopByScore(r, items, k)
  {
    forall i: nat, j: nat | i < j < |r| ensures r[i].1 >= r[j].1 && r[i].0 != r[j].0 {
      assert r[i] in r && r[j] in r && Before(r[i], r[j]);
    }
    forall h | h in items && h !in r ensures |r| == k && forall g :: g in r ==> g.1 >= h.1 {
      assert forall g :: g in r ==> Before(g, h);
    }
  }

  // ---- the overlay -------------------------------------------------------------------

  /** The overlay snapshot: pending upserts with exact scores, pending removals. */
  function Ups<V>(ops: map<Id, Op<V>>, score: V -> real): set<Hit> {
    set id | id in ops && ops[id].Some? :: (id, score(ops[id].value))
  }

  function Dels<V>(ops: map<Id, Op<V>>): set<Id> {
    set id | id in ops && ops[id].None?
  }

  /** The graph hits the overlay leaves standing: neither masked nor overlaid. */
  function Retained(hits: seq<Hit>, ups: set<Hit>, dels: set<Id>): set<Hit> {
    set h | h in hits && h.0 !in dels && !(exists u :: u in ups && u.0 == h.0)
  }

  function Pool<V>(hits: seq<Hit>, ops: map<Id, Op<V>>, score: V -> real): set<Hit> {
    Retained(hits, Ups(ops, score), Dels(ops)) + Ups(ops, score)
  }

  /** Graph hits as the graph search returns them: live ids with their own scores, best first, at most `fetch`. */
  ghost predicate GraphHits<V>(hits: seq<Hit>, graph: map<Id, V>, score: V -> real, fetch: nat) {
    ByScore(hits) && |hits| <= fetch && forall h :: h in hits ==> h in Items(graph, score)
  }

  lemma PoolFunctional<V>(hits: seq<Hit>, ops: map<Id, Op<V>>, score: V -> real)
    requires ByScore(hits)
    ensures Functional(Pool(hits, ops, score))
  {
    forall g, h | g in hits && h in hits && g.0 == h.0 ensures g == h {
      var i: nat :| i < |hits| && hits[i] == g;
      var j: nat :| j < |hits| && hits[j] == h;
    }
    var ups, dels := Ups(ops, score), Dels(ops);
    forall g, h | g in Pool(hits, ops, score) && h in Pool(hits, ops, score) && g.0 == h.0 ensures g == h {
      assert g in ups && h !in ups ==> h in Retained(hits, ups, dels);
      assert h in ups && g !in ups ==> g in Retained(hits, ups, dels);
    }
  }

  /** An empty overlay returns the graph's hits as they are; otherwise the pool is sorted and cut. */
  method MergeOverlay<V>(hits: seq<Hit>, ops: map<Id, Op<V>>, score: V -> real, fetch: nat) returns (r: seq<Hit>)
    requires ByScore(hits) && |hits| <= fetch
    ensures Ups(ops, score) == {} && Dels(ops) == {} ==> r == hits
    ensures Ups(ops, score) != {} || Dels(ops) != {} ==> IsTop(r, Pool(hits, ops, score), fetch)
    ensures TopByScore(r, Pool(hits, ops, score), fetch)
  {
    var ups, dels := Ups(ops, score), Dels(ops);
    if ups == {} && dels == {} {
      assert forall h :: h in Pool(hits, ops, score) <==> h in hits;
      return hits;
    }
    r := SortAndCut(Retained(hits, ups, dels) + ups, fetch);
    PoolFunctional(hits, ops, score);
    RankedByScore(r, Pool(hits, ops, score), fetch);
  }

  lemma AffectedIds<V>(ops: map<Id, Op<V>>, score: V -> real, id: Id)
    ensures id in ops <==> id in Dels(ops) || exists u :: u in Ups(ops, score) && u.0 == id
  {
    if id in ops && ops[id].Some? {
      assert (id, score(ops[id].value)) in Ups(ops, score);
    }
  }

  /** Everything in the pool is true of the contents the pushes fold to. */
  lemma PoolIsTrue<V>(hits: seq<Hit>, graph: map<Id, V>, ops: map<Id, Op<V>>, score: V -> real, h: Hit)
    requires GraphHits(hits, graph, score, |hits|) && h in Pool(hits, ops, score)
    ensures h in Items(View(graph, ops), score)
  {
    var truth := View(graph, ops);
    AffectedIds(ops, score, h.0);
    if h in Ups(ops, score) {
      assert h.0 in truth && truth[h.0] == ops[h.0].value;
    } else {
      assert h.0 !in ops && h in Items(graph, score);
      assert h.0 in truth && truth[h.0] == graph[h.0];
    }
  }

  /**
   * What a search shows of the true contents (`View(graph, ops)`, the fold of all
   * pushes): nothing removed, nothing stale, no id twice, and every pending upsert
   * unless `fetch` answers at least as good crowd it out.
   */
  lemma OverlayShowsTruth<V>(hits: seq<Hit>, graph: map<Id, V>, ops: map<Id, Op<V>>, score: V -> real,
                             fetch: nat, r: seq<Hit>)
    requires GraphHits(hits, graph, score, fetch) && TopByScore(r, Pool(hits, ops, score), fetch)
    ensures forall h :: h in r ==> h in Items(View(graph, ops), score)
    ensures ByScore(r) && |r| <= fetch
    ensures forall id :: id in ops && ops[id].Some? ==>
              var h := (id, score(ops[id].value));
              h in r || (|r| == fetch && forall g :: g in r ==> g.1 >= h.1)
  {
    forall h | h in r ensures h in Items(View(graph, ops), score) {
      PoolIsTrue(hits, graph, ops, score, h);
    }
    forall id | id in ops && ops[id].Some?
      ensures var h := (id, score(ops[id].value)); h in r || (|r| == fetch && forall g :: g in r ==> g.1 >= h.1)
    {
      assert (id, score(ops[id].value)) in Ups(ops, score);
    }
  }

  // ---- when the merged answer is exact ---------------------------------------------------

  /** Hits scoring at least the last graph hit. */
  function Above(pool: set<Hit>, cutoff: real): set<Hit> {
    set h | h in pool && h.1 >= cutoff
  }

  /** The check before merging: the graph returned everything it has, or at least `fetch` of what survives
      the overlay scores no worse than its last hit. */
  ghost predicate Certified<V>(hits: seq<Hit>, ops: map<Id, Op<V>>, score: V -> real, fetch: nat) {
    |hits| < fetch || fetch == 0 || |Above(Pool(hits, ops, score), hits[|hits| - 1].1)| >= fetch
  }

  /** The merged list fills up with answers no worse than the cutoff exactly when the pool has that many. */
  lemma FilledIff(r: seq<Hit>, pool: set<Hit>, fetch: nat, cutoff: real)
    requires TopByScore(r, pool, fetch)
    ensures |Above(pool, cutoff)| >= fetch <==> |r| == fetch && forall g :: g in r ==> g.1 >= cutoff
  {
    var above := Above(pool, cutoff);
    ScoredCard(r);
    if |above| >= fetch {
      if h :| h in above && h !in r {
        assert forall g :: g in r ==> g.1 >= h.1;
      } else {
        SubsetCard(above, SetOf(r));
        assert forall g :: g in r ==> g in SetOf(r);
      }
    }
    if |r| == fetch && forall g :: g in r ==> g.1 >= cutoff {
      SubsetCard(SetOf(r), above);
    }
  }

  lemma {:induction false} ScoredCard(r: seq<Hit>)
    requires ByScore(r)
    ensures |SetOf(r)| == |r|
    decreases |r|
  {
    if r != [] {
      var k := |r| - 1;
      ScoredCard(r[..k]);
      assert forall i: nat :: i < k ==> r[i].0 != r[k].0;
      assert r[k] !in r[..k];
      assert SetOf(r) == SetOf(r[..k]) + {r[k]};
    }
  }

  /** A certified merge of exact graph hits is a best `fetch` of the true contents. */
  lemma CertifiedIsExact<V>(hits: seq<Hit>, graph: map<Id, V>, ops: map<Id, Op<V>>, score: V -> real,
                            fetch: nat, r: seq<Hit>)
    requires TopByScore(hits, Items(graph, score), fetch) && TopByScore(r, Pool(hits, ops, score), fetch)
    requires Certified(hits, ops, score, fetch)
    ensures TopByScore(r, Items(View(graph, ops), score), fetch)
  {
    OverlayShowsTruth(hits, graph, ops, score, fetch, r);
    if |hits| == fetch > 0 {
      FilledIff(r, Pool(hits, ops, score), fetch, hits[|hits| - 1].1);
    }
    forall h | h in Items(View(graph, ops), score) && h !in r
      ensures |r| == fetch && forall g :: g in r ==> g.1 >= h.1
    {
      AffectedIds(ops, score, h.0);
      if h.0 in ops {
        assert h in Ups(ops, score);
      } else if h in hits {
        assert h in Retained(hits, Ups(ops, score), Dels(ops));
      } else {
        assert h in Items(graph, score);
        if fetch > 0 {
          assert hits[|hits| - 1] in hits;
        }
      }
    }
  }

  function Itself(x: real): real { x }

  /** The graph holding exactly the hits. */
  ghost function GraphOf(hits: seq<Hit>): map<Id, real> {
    map h | h in SetOf(hits) :: h.0 := ScoreIn(hits, h.0)
  }

  ghost function ScoreIn(hits: seq<Hit>, id: Id): real {
    if hits == [] then 0.0
    else if hits[|hits| - 1].0 == id then hits[|hits| - 1].1
    else ScoreIn(hits[..|hits| - 1], id)
  }

  lemma {:induction false} ScoreInIs(hits: seq<Hit>, h: Hit)
    requires ByScore(hits) && h in hits
    ensures ScoreIn(hits, h.0) == h.1
    decreases |hits|
  {
    var k := |hits| - 1;
    var i: nat :| i < |hits| && hits[i] == h;
    if hits[k].0 != h.0 {
      assert hits[..k][i] == h;
      ScoreInIs(hits[..k], h);
    }
  }

  lemma GraphOfItems(hits: seq<Hit>)
    requires ByScore(hits)
    ensures forall h :: h in Items(GraphOf(hits), Itself) <==> h in hits
  {
    forall h ensures h in Items(GraphOf(hits), Itself) <==> h in hits {
      if h in hits {
        ScoreInIs(hits, h);
        assert h in SetOf(hits) && h.0 in GraphOf(hits);
      }
      if h in Items(GraphOf(hits), Itself) {
        var g :| g in SetOf(hits) && g.0 == h.0;
        ScoreInIs(hits, g);
      }
    }
  }

  /** An id longer than every given one. */
  lemma {:induction false} FreshId(ids: set<Id>) returns (x: Id)
    ensures forall id :: id in ids ==> |id| < |x|
    decreases |ids|
  {
    if ids == {} {
      x := [0];
    } else {
      var id :| id in ids;
      var y := FreshId(ids - {id});
      x := y + id + [0];
    }
  }

  /** Whether the merge is exact over a given graph. */
  ghost predicate ExactOver(hits: seq<Hit>, graph: map<Id, real>, ops: map<Id, Op<real>>, fetch: nat, r: seq<Hit>) {
    TopByScore(hits, Items(graph, Itself), fetch) ==> TopByScore(r, Items(View(graph, ops), Itself), fetch)
  }

  /**
   * The merged answer is exact over every graph whose best hits these are exactly when the merge is
   * certified; otherwise some live id the search was never shown belongs in the answer.
   */
  lemma ExactIffCertified(hits: seq<Hit>, ops: map<Id, Op<real>>, fetch: nat, r: seq<Hit>)
    requires ByScore(hits) && |hits| <= fetch && TopByScore(r, Pool(hits, ops, Itself), fetch)
    ensures (forall graph: map<Id, real> :: ExactOver(hits, graph, ops, fetch, r)) <==> Certified(hits, ops, Itself, fetch)
  {
    if Certified(hits, ops, Itself, fetch) {
      forall graph: map<Id, real> ensures ExactOver(hits, graph, ops, fetch, r) {
        if TopByScore(hits, Items(graph, Itself), fetch) {
          CertifiedIsExact(hits, graph, ops, Itself, fetch, r);
        }
      }
    } else {
      var graph := NotExact(hits, ops, fetch, r);
    }
  }

  lemma NotExact(hits: seq<Hit>, ops: map<Id, Op<real>>, fetch: nat, r: seq<Hit>) returns (graph: map<Id, real>)
    requires ByScore(hits) && |hits| <= fetch && TopByScore(r, Pool(hits, ops, Itself), fetch)
    requires !Certified(hits, ops, Itself, fetch)
    ensures !ExactOver(hits, graph, ops, fetch, r)
  {
    hide Above, Pool, ScoreIn, ByScore;
    var base := GraphOf(hits);
    var cutoff := hits[|hits| - 1].1;
    var ids := base.Keys + ops.Keys + (set h | h in SetOf(r) :: h.0);
    var x := FreshId(ids);
    assert x !in ids;
    graph := base[x := cutoff];
    GraphOfItems(hits);
    HiddenItem(hits, base, x, cutoff, fetch);
    assert (x, cutoff) in Items(View(graph, ops), Itself) by {
      assert x in View(graph, ops) && View(graph, ops)[x] == cutoff;
    }
    forall h | h in r ensures h.0 in ids {
      assert h in SetOf(r);
    }
    assert (x, cutoff) !in r;
    FilledIff(r, Pool(hits, ops, Itself), fetch, cutoff);
  }

  /** One more id scoring like the last of a full list of hits leaves them a best `fetch`. */
  lemma HiddenItem(hits: seq<Hit>, base: map<Id, real>, x: Id, cutoff: real, fetch: nat)
    requires ByScore(hits) && |hits| == fetch > 0 && cutoff == hits[|hits| - 1].1
    requires (forall h :: h in Items(base, Itself) <==> h in hits) && x !in base
    ensures TopByScore(hits, Items(base[x := cutoff], Itself), fetch)
  {
    var graph := base[x := cutoff];
    forall h ensures h in Items(graph, Itself) <==> h in hits || h == (x, cutoff) {
      if h in hits {
        assert h in Items(base, Itself) && h.0 in base && graph[h.0] == base[h.0];
      }
      if h == (x, cutoff) {
        assert x in graph;
      }
      if h in Items(graph, Itself) && h.0 != x {
        assert h.0 in base && h in Items(base, Itself);
      }
    }
    forall g | g in hits ensures g.1 >= cutoff {
      var i: nat :| i < |hits| && hits[i] == g;
    }
  }

  // ---- rescoring ---------------------------------------------------------------------------

  function Exactly<V>(vecs: map<Id, V>, score: V -> real, h: Hit): Hit {
    (h.0, if h.0 in vecs then score(vecs[h.0]) else h.1)
  }

  /** Exact rescoring of lossy hits from the durable vectors, then the final cut. */
  method Rescore<V>(scored: seq<Hit>, vecs: map<Id, V>, score: V -> real, k: nat) returns (r: seq<Hit>)
    ensures IsTop(r, set h | h in scored :: Exactly(vecs, score, h), k)
  {
    r := SortAndCut(set h | h in scored :: Exactly(vecs, score, h), k);
  }

  /** A rescored answer over current durable vectors carries exact scores only. */
  lemma RescoredIsExact<V>(scored: seq<Hit>, vecs: map<Id, V>, score: V -> real, k: nat, r: seq<Hit>)
    requires forall h :: h in scored ==> h.0 in vecs
    requires IsTop(r, set h | h in scored :: Exactly(vecs, score, h), k)
    ensures forall h :: h in r ==> h in Items(vecs, score)
  {
    forall h | h in r ensures h in Items(vecs, score) {
      var g :| g in scored && h == Exactly(vecs, score, g);
    }
  }
}
