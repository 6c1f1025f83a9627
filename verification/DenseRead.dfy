/**
 * A whole dense read.
 */
module DenseRead {
  import opened Wrappers
  import opened Arith
  import opened Sets
  import opened Ranking
  import opened Quant
  import opened VectorStore
  import opened GraphSearch
  import opened GraphLinks
  import opened Ann
  import opened PendingSet
  import opened DenseSearch

  // Under the graph's read lock, search the graph, take the overlay, merge, and rescore what a
  // lossy store answered. Small corpora are scanned exactly instead. Vectors are normalized, so
  // similarity is the dot product.

  /** Corpus size below which dense search scans exactly. */
  const ANN_MIN_CORPUS: nat := 1024

  function Similarity(q: Vec): Vec -> real { (v: Vec) => Dot(v, q) }

  /** How much wider each store fetches, and its least beam. */
  function OverFetch(kind: Quantizer): (nat, nat) {
    match kind
    case Exact => (1, 64)
    case ScalarCodes => (2, 64)
    case BinaryCodes => (8, 200)
    case ProductCodes(_) => (6, 200)
  }

  function Wider(a: nat, b: nat): nat { if a < b then b else a }

  /** What a graph search answers: live ids, each once, best first. */
  ghost predicate LiveHits(hits: seq<Hit>, graph: map<Id, Vec>, fetch: nat) {
    ByScore(hits) && |hits| <= fetch && forall h :: h in hits ==> h.0 in graph
  }

  /** A graph search's hits are live; over the full-precision store their scores are exact. */
  lemma HitsAreLive(store: Store, dim: nat, q: Vec, hits: seq<Hit>, ids: seq<Id>, byId: map<Id, nat>, deleted: seq<bool>,
                    vecs: seq<Vec>, fetch: nat)
    requires store.Holds(dim, vecs) && |vecs| == |ids| == |deleted| && |q| == dim
    requires HitsOk(hits, ids, byId, deleted, QueryDist(store, |ids|, dim, q, Sum(q), vecs), fetch, Anyone)
    ensures LiveHits(hits, LiveMap(byId, deleted, vecs), fetch)
    ensures store.Full? ==> GraphHits(hits, LiveMap(byId, deleted, vecs), Similarity(q), fetch)
  {
    var graph := LiveMap(byId, deleted, vecs);
    forall h | h in hits
      ensures h.0 in graph
      ensures store.Full? ==> h in Items(graph, Similarity(q))
    {
      var i: nat :| i < |hits| && hits[i] == h;
      var x := byId[h.0];
      assert graph[h.0] == vecs[x];
      if store.Full? {
        FullDot(store, x, dim, q, vecs);
      }
    }
  }

  lemma FullDot(store: Store, x: nat, dim: nat, q: Vec, vecs: seq<Vec>)
    requires store.Full? && store.Holds(dim, vecs) && x < |vecs|
    ensures store.DotQuery(x, dim, q, Sum(q), vecs) == Dot(vecs[x], q)
  {
    SlotFits(store.vectors, x, |vecs|, dim);
  }

  /** Every live node can be reached from the descent's end. */
  ghost predicate AllReachable(graph: AnnIndex<Id>, base: nat)
    reads graph
  {
    base < |graph.links| && forall x: nat :: x < |graph.links| ==> Reachable(graph.links, 0, base, x)
  }

  /** Over the full-precision store, a beam as wide as a fully reachable graph finds the true best. */
  lemma WideIsExact(graph: AnnIndex<Id>, q: Vec, hits: seq<Hit>, fetch: nat, base: nat)
    requires graph.Valid() && graph.store.Full? && |q| == graph.Dim() && AllReachable(graph, base)
    requires GraphHits(hits, graph.Contents(), Similarity(q), fetch)
    requires BestReachable(hits, graph.ids, graph.links, graph.deleted, graph.DistOf(q), fetch, base)
    ensures TopByScore(hits, Items(graph.Contents(), Similarity(q)), fetch)
  {
    hide LinksOk, Reachable;
    LengthsAgree(graph.ids, graph.byId, graph.deleted);
    forall h | h in Items(graph.Contents(), Similarity(q)) && h !in hits
      ensures |hits| == fetch && forall g :: g in hits ==> g.1 >= h.1
    {
      var x := graph.byId[h.0];
      LiveNode(graph.ids, graph.byId, graph.deleted, graph.vecs, h.0);
      FullDot(graph.store, x, |q|, q, graph.vecs);
      assert Reachable(graph.links, 0, base, x);
      assert (graph.ids[x], 1.0 - graph.DistOf(q)(x)) == h;
    }
  }

  lemma LiveNode(ids: seq<Id>, byId: map<Id, nat>, deleted: seq<bool>, vecs: seq<Vec>, id: Id)
    requires IdsOk(ids, byId, deleted) && |vecs| == |ids| && id in LiveMap(byId, deleted, vecs)
    ensures id in byId && byId[id] < |ids| && ids[byId[id]] == id && byId[id] < |deleted| && !deleted[byId[id]]
    ensures LiveMap(byId, deleted, vecs)[id] == vecs[byId[id]]
  {
  }

  /** What a reader is promised of an answer: every hit is in the contents the pushes fold to. */
  ghost predicate Truthful(r: seq<Hit>, truth: map<Id, Vec>) {
    forall h :: h in r ==> h.0 in truth
  }

  /** Pool ids are live in the fold of graph and overlay, whatever the hits' scores. */
  lemma PoolIsLive(hits: seq<Hit>, graph: map<Id, Vec>, ops: map<Id, PendingSet.Op<Vec>>, q: Vec, h: Hit)
    requires LiveHits(hits, graph, |hits|) && h in Pool(hits, ops, Similarity(q))
    ensures h.0 in View(graph, ops)
  {
    AffectedIds(ops, Similarity(q), h.0);
  }

  lemma CutIsLive(cut: seq<Hit>, hits: seq<Hit>, graph: map<Id, Vec>, ops: map<Id, PendingSet.Op<Vec>>, q: Vec, fetch: nat)
    requires LiveHits(hits, graph, fetch) && TopByScore(cut, Pool(hits, ops, Similarity(q)), fetch)
    ensures Truthful(cut, View(graph, ops))
  {
    hide Pool, View, LiveMap;
    assert LiveHits(hits, graph, |hits|);
    forall h | h in cut ensures h.0 in View(graph, ops) {
      PoolIsLive(hits, graph, ops, q, h);
    }
  }

  lemma RescoredIsLive(r: seq<Hit>, cut: seq<Hit>, truth: map<Id, Vec>, vecs: map<Id, Vec>, q: Vec, topK: nat)
    requires Truthful(cut, truth) && IsTop(r, Rescored(cut, vecs, q), topK)
    ensures Truthful(r, truth)
  {
    forall h | h in r ensures h.0 in truth {
      var g :| g in cut && h == Exactly(vecs, Similarity(q), g);
    }
  }

  /** The candidates with their similarities recomputed from the durable vectors. */
  ghost function Rescored(cut: seq<Hit>, vecs: map<Id, Vec>, q: Vec): set<Hit> {
    set h | h in cut :: Exactly(vecs, Similarity(q), h)
  }

  /** Scan of the durable vectors. */
  method ExactScan(vecs: map<Id, Vec>, q: Vec, topK: nat) returns (r: seq<Hit>)
    ensures IsTop(r, Items(vecs, Similarity(q)), topK)
  {
    var all := set id | id in vecs :: (id, Dot(vecs[id], q));
    forall h ensures h in all <==> h in Items(vecs, Similarity(q)) {
      assert forall id :: id in vecs ==> Similarity(q)(vecs[id]) == Dot(vecs[id], q);
    }
    r := SortAndCut(all, topK);
  }

  /** Over the full-precision store, a beam at least as wide as a fully reachable graph. */
  ghost predicate WideOpen(graph: AnnIndex<Id>, base: nat, q: Vec, fetch: nat, ef: nat)
    reads graph
  {
    && graph.store.Full? && |q| == graph.Dim() && fetch > 0 && graph.ids != [] && AllReachable(graph, base)
    && (ef >= |graph.ids| || graph.efSearch >= |graph.ids| || fetch >= |graph.ids|)
  }

  /** The node a search spread from is the end of its greedy descent from the entry. */
  ghost predicate FromDescent(graph: AnnIndex<Id>, q: Vec, fetch: nat, base: nat)
    requires graph.Valid()
    reads graph
  {
    graph.entry.Some? && fetch > 0 && graph.dim == Some(|q|) ==>
      DescentEnd(graph.entry.value, graph.links, graph.DistOf(q), base)
  }

  ghost predicate Shows(hits: seq<Hit>, id: Id) { exists h :: h in hits && h.0 == id }

  /** The query is of the graph's dimension, and asks a graph that holds something for something. */
  ghost predicate Answerable(graph: AnnIndex<Id>, q: Vec, k: nat)
    reads graph
  {
    graph.entry.Some? && k > 0 && graph.dim == Some(|q|)
  }

  /** Every live id the search could reach is shown. */
  ghost predicate ShowsReachable(hits: seq<Hit>, graph: AnnIndex<Id>, base: nat)
    reads graph
  {
    forall x: nat :: (x < |graph.links| && x < |graph.deleted| && x < |graph.ids| && !graph.deleted[x]
                      && Reachable(graph.links, 0, base, x)) ==> Shows(hits, graph.ids[x])
  }

  /** The hits are the best `fetch` of a beam at least `beam` and `fetch` wide. */
  ghost predicate FromBeam(hits: seq<Hit>, graph: AnnIndex<Id>, q: Vec, base: nat, fetch: nat, beam: nat)
    requires graph.Valid() && |q| == graph.Dim()
    reads graph
  {
    exists w: nat :: w >= beam && w >= fetch
      && Spread(hits, graph.ids, graph.links, graph.deleted, graph.DistOf(q), base, w, fetch, Anyone)
  }

  /** Fewer hits than wanted are all there are. */
  lemma ShortShowsAll(hits: seq<Hit>, graph: AnnIndex<Id>, q: Vec, fetch: nat, base: nat)
    requires graph.Valid() && |q| == graph.Dim() && |hits| < fetch
    requires BestReachable(hits, graph.ids, graph.links, graph.deleted, graph.DistOf(q), fetch, base)
    ensures ShowsReachable(hits, graph, base)
  {
    hide Reachable;
  }

  /** What a graph search answers, with what it promises of live ids, exact scores and completeness. */
  ghost predicate SearchOk(graph: AnnIndex<Id>, q: Vec, fetch: nat, ef: nat, hits: seq<Hit>, base: nat)
    requires graph.Valid()
    reads graph
  {
    && LiveHits(hits, graph.Contents(), fetch) && FromDescent(graph, q, fetch, base)
    && (graph.store.Full? ==> GraphHits(hits, graph.Contents(), Similarity(q), fetch))
    && (WideOpen(graph, base, q, fetch, ef) ==> TopByScore(hits, Items(graph.Contents(), Similarity(q)), fetch))
    && (Answerable(graph, q, fetch) ==>
          (|hits| < fetch ==> ShowsReachable(hits, graph, base)) && FromBeam(hits, graph, q, base, fetch, ef))
  }

  /** The graph search, with what it promises of live ids and exact scores. */
  method SearchGraph(graph: AnnIndex<Id>, q: Vec, fetch: nat, ef: nat) returns (hits: seq<Hit>, ghost base: nat)
    requires graph.Valid()
    ensures SearchOk(graph, q, fetch, ef, hits, base)
    ensures LiveHits(hits, graph.Contents(), fetch)
  {
    hide DescentEnd, Spread, BestReachable, ShownOrBeaten, ShowsReachable;
    hits, base := graph.Search(q, fetch, ef);
    if graph.entry.Some? && fetch > 0 && graph.dim == Some(|q|) {
      LengthsAgree(graph.ids, graph.byId, graph.deleted);
      if |hits| < fetch {
        ShortShowsAll(hits, graph, q, fetch, base);
      }
      HitsAreLive(graph.store, |q|, q, hits, graph.ids, graph.byId, graph.deleted, graph.vecs, fetch);
      if WideOpen(graph, base, q, fetch, ef) {
        WideIsExact(graph, q, hits, fetch, base);
      }
    }
  }

  /** A best `k` holds `k` items, or all of them. */
  lemma TopCard(r: seq<Hit>, items: set<Hit>, k: nat)
    requires TopByScore(r, items, k) || IsTop(r, items, k)
    ensures |r| == Min(k, |items|)
    ensures |r| < k ==> forall h :: h in items ==> h in r
  {
    if TopByScore(r, items, k) {
      ScoredCard(r);
    } else {
      RankedCard(r);
    }
    SubsetCard(SetOf(r), items);
    if |r| < k {
      assert SetOf(r) == items;
    }
  }

  lemma {:induction false} RescoredCard(cut: seq<Hit>, vecs: map<Id, Vec>, q: Vec)
    requires ByScore(cut)
    ensures |Rescored(cut, vecs, q)| == |cut|
    decreases |cut|
  {
    if cut != [] {
      hide Rescored;
      var k := |cut| - 1;
      assert forall i: nat :: i < k ==> cut[..k][i].0 != cut[k].0;
      RescoredCard(cut[..k], vecs, q);
      RescoredSnoc(cut[..k], vecs, q, cut[k]);
      assert cut == cut[..k] + [cut[k]];
    }
  }

  lemma RescoredSnoc(cut: seq<Hit>, vecs: map<Id, Vec>, q: Vec, h: Hit)
    requires forall g :: g in cut ==> g.0 != h.0
    ensures |Rescored(cut + [h], vecs, q)| == |Rescored(cut, vecs, q)| + 1
  {
    var last := Exactly(vecs, Similarity(q), h);
    assert last.0 == h.0 && last !in Rescored(cut, vecs, q);
    assert Rescored(cut + [h], vecs, q) == Rescored(cut, vecs, q) + {last};
  }

  /** Rescoring keeps ids. */
  lemma RescoredShows(r: seq<Hit>, cut: seq<Hit>, vecs: map<Id, Vec>, q: Vec, id: Id)
    requires Shows(cut, id) && forall h :: h in Rescored(cut, vecs, q) ==> h in r
    ensures Shows(r, id)
  {
    var h :| h in cut && h.0 == id;
    assert Exactly(vecs, Similarity(q), h) in Rescored(cut, vecs, q);
  }

  /** What a read is sure to show when it comes back short of `topK`: every pending upsert and every hit not pending. */
  ghost predicate ShortShows(r: seq<Hit>, hits: seq<Hit>, ops: map<Id, PendingSet.Op<Vec>>) {
    forall id :: (if id in ops then ops[id].Some? else Shows(hits, id)) ==> Shows(r, id)
  }

  /** A rescored or unrescored cut of the pool to `topK`, with room for at least that many before. */
  lemma ReadShows(r: seq<Hit>, merged: seq<Hit>, hits: seq<Hit>, ops: map<Id, PendingSet.Op<Vec>>, vecs: map<Id, Vec>,
                  q: Vec, topK: nat, fetch: nat)
    requires TopByScore(merged, Pool(hits, ops, Similarity(q)), fetch) && topK <= fetch
    requires (r == merged && topK == fetch) || IsTop(r, Rescored(merged, vecs, q), topK)
    ensures |merged| >= Min(topK, |Pool(hits, ops, Similarity(q))|) && |r| == Min(topK, |merged|)
    ensures |r| < topK ==> ShortShows(r, hits, ops)
  {
    hide Pool, Rescored, IsTop, Shows;
    var pool := Pool(hits, ops, Similarity(q));
    TopCard(merged, pool, fetch);
    RescoredCard(merged, vecs, q);
    if r != merged || topK != fetch {
      TopCard(r, Rescored(merged, vecs, q), topK);
    }
    if |r| < topK {
      forall id | (if id in ops then ops[id].Some? else Shows(hits, id)) ensures Shows(r, id) {
        var h := InPool(hits, ops, q, id);
        assert h in merged;
        IsShown(merged, h);
        if r != merged {
          RescoredShows(r, merged, vecs, q, id);
        }
      }
    }
  }

  lemma IsShown(hits: seq<Hit>, h: Hit)
    requires h in hits
    ensures Shows(hits, h.0)
  {
  }

  lemma InPool(hits: seq<Hit>, ops: map<Id, PendingSet.Op<Vec>>, q: Vec, id: Id) returns (h: Hit)
    requires if id in ops then ops[id].Some? else Shows(hits, id)
    ensures h in Pool(hits, ops, Similarity(q)) && h.0 == id
  {
    AffectedIds(ops, Similarity(q), id);
    if id in ops {
      h := (id, Similarity(q)(ops[id].value));
    } else {
      h :| h in hits && h.0 == id;
    }
  }

  /** With nothing pending, an answer short of `topK` shows every live id the search could reach. */
  lemma ShortIsAll(r: seq<Hit>, hits: seq<Hit>, merged: seq<Hit>, graph: AnnIndex<Id>, q: Vec, base: nat, topK: nat)
    requires ByScore(hits) && |merged| >= Min(topK, |Pool(hits, map[], Similarity(q))|) && |r| == Min(topK, |merged|) < topK
    requires ShortShows(r, hits, map[]) && (|hits| < topK ==> ShowsReachable(hits, graph, base))
    ensures ShowsReachable(r, graph, base)
  {
    hide Reachable;
    var pool := Pool(hits, map[], Similarity(q));
    ScoredCard(hits);
    forall h | h in SetOf(hits) ensures h in pool {
      assert Shows(hits, h.0);
    }
    assert pool == SetOf(hits);
  }

  /**
   * What a graph read answers under the overlay `ops`. The widths are those of the source's table: the graph is asked for
   * `fetch` hits through a beam of at least `beam`.
   */
  ghost predicate ReadOk(graph: AnnIndex<Id>, ops: map<Id, PendingSet.Op<Vec>>, vecs: map<Id, Vec>, q: Vec, topK: nat,
                         fetch: nat, beam: nat, r: seq<Hit>, hits: seq<Hit>, merged: seq<Hit>, base: nat)
    requires graph.Valid()
    reads graph
  {
    && LiveHits(hits, graph.Contents(), fetch) && FromDescent(graph, q, fetch, base)
    && (graph.store.Full? ==> GraphHits(hits, graph.Contents(), Similarity(q), fetch))
    && TopByScore(merged, Pool(hits, ops, Similarity(q)), fetch)
    && (WideOpen(graph, base, q, fetch, Wider(fetch, beam)) ==>
          TopByScore(hits, Items(graph.Contents(), Similarity(q)), fetch))
    && Truthful(r, View(graph.Contents(), ops))
    && (if graph.store.Full? then r == merged else IsTop(r, Rescored(merged, vecs, q), topK))
    && (Answerable(graph, q, topK) ==>
          (|hits| < fetch ==> ShowsReachable(hits, graph, base)) && FromBeam(hits, graph, q, base, fetch, beam))
  }

  /** How much an answer holds, in the number of hits the caller asked for. */
  ghost predicate ReadFills(graph: AnnIndex<Id>, ops: map<Id, PendingSet.Op<Vec>>, q: Vec, topK: nat,
                            r: seq<Hit>, hits: seq<Hit>, merged: seq<Hit>, base: nat)
    requires graph.Valid()
    reads graph
  {
    && |merged| >= Min(topK, |Pool(hits, ops, Similarity(q))|) && |r| == Min(topK, |merged|)
    && (|r| < topK ==> ShortShows(r, hits, ops))
    && (Answerable(graph, q, topK) && |hits| < topK ==> ShowsReachable(hits, graph, base))
    && (Answerable(graph, q, topK) && ops == map[] && |r| < topK ==> ShowsReachable(r, graph, base))
  }

  /** The graph's answer under the overlay, rescored from the durable vectors when the store is lossy. */
  method GraphRead(graph: AnnIndex<Id>, ops: map<Id, PendingSet.Op<Vec>>, vecs: map<Id, Vec>, q: Vec, topK: nat)
    returns (r: seq<Hit>, ghost hits: seq<Hit>, ghost merged: seq<Hit>, ghost base: nat)
    requires graph.Valid()
    ensures graph.store.Full? ==> ReadOk(graph, ops, vecs, q, topK, topK, 64, r, hits, merged, base)
    ensures graph.store.Sq8? ==> ReadOk(graph, ops, vecs, q, topK, 2 * topK, 64, r, hits, merged, base)
    ensures graph.store.Bq? ==> ReadOk(graph, ops, vecs, q, topK, 8 * topK, 200, r, hits, merged, base)
    ensures graph.store.Pq? ==> ReadOk(graph, ops, vecs, q, topK, 6 * topK, 200, r, hits, merged, base)
    ensures ReadFills(graph, ops, q, topK, r, hits, merged, base)
  {
    hide View, Pool, LiveMap, LiveHits, GraphHits, IsTop, TopByScore, Items, Truthful, WideOpen, FromDescent, Answerable,
         ByScore, AnnIndex.Valid, ReadOk, ReadFills, SearchOk, Exactly;
    var (factor, floor) := OverFetch(graph.store.Kind());
    var fetch := topK * factor;
    var found;
    found, base := SearchGraph(graph, q, fetch, Wider(fetch, floor));
    LiveHitsFit(found, graph.Contents(), fetch);
    var cut := MergeOverlay(found, ops, Similarity(q), fetch);
    CutIsLive(cut, found, graph.Contents(), ops, q, fetch);
    r, hits, merged := cut, found, cut;
    if !graph.store.Full? {
      r := Rescore(cut, vecs, Similarity(q), topK);
      RescoredIsLive(r, cut, View(graph.Contents(), ops), vecs, q, topK);
    }
    ReadIs(graph, ops, vecs, q, topK, fetch, floor, r, hits, merged, base);
    ReadHolds(graph, ops, vecs, q, topK, fetch, floor, r, hits, merged, base);
  }

  lemma ReadIs(graph: AnnIndex<Id>, ops: map<Id, PendingSet.Op<Vec>>, vecs: map<Id, Vec>, q: Vec, topK: nat,
               fetch: nat, beam: nat, r: seq<Hit>, hits: seq<Hit>, merged: seq<Hit>, base: nat)
    requires graph.Valid() && SearchOk(graph, q, fetch, Wider(fetch, beam), hits, base) && topK <= fetch
    requires TopByScore(merged, Pool(hits, ops, Similarity(q)), fetch) && Truthful(r, View(graph.Contents(), ops))
    requires if graph.store.Full? then r == merged else IsTop(r, Rescored(merged, vecs, q), topK)
    ensures ReadOk(graph, ops, vecs, q, topK, fetch, beam, r, hits, merged, base)
  {
    hide View, Pool, FromDescent, LiveHits, GraphHits, IsTop, TopByScore, Items, Truthful, WideOpen, FromBeam,
         ShowsReachable, Rescored, AnnIndex.Valid, Similarity, AnnIndex.Contents;
    WiderBeam(hits, graph, q, base, fetch, beam);
  }

  lemma ReadHolds(graph: AnnIndex<Id>, ops: map<Id, PendingSet.Op<Vec>>, vecs: map<Id, Vec>, q: Vec, topK: nat,
                  fetch: nat, beam: nat, r: seq<Hit>, hits: seq<Hit>, merged: seq<Hit>, base: nat)
    requires graph.Valid() && SearchOk(graph, q, fetch, Wider(fetch, beam), hits, base) && topK <= fetch
    requires TopByScore(merged, Pool(hits, ops, Similarity(q)), fetch)
    requires (r == merged && topK == fetch) || IsTop(r, Rescored(merged, vecs, q), topK)
    ensures ReadFills(graph, ops, q, topK, r, hits, merged, base)
  {
    hide Pool, FromDescent, GraphHits, IsTop, TopByScore, Items, WideOpen, FromBeam, ShowsReachable, ShortShows, ByScore,
         Rescored, AnnIndex.Valid, Similarity, AnnIndex.Contents;
    ReadShows(r, merged, hits, ops, vecs, q, topK, fetch);
    if Answerable(graph, q, topK) && ops == map[] && |r| < topK {
      ShortIsAll(r, hits, merged, graph, q, base, topK);
    }
  }

  lemma WiderBeam(hits: seq<Hit>, graph: AnnIndex<Id>, q: Vec, base: nat, fetch: nat, beam: nat)
    requires graph.Valid()
    ensures |q| == graph.Dim() && FromBeam(hits, graph, q, base, fetch, Wider(fetch, beam)) ==>
              FromBeam(hits, graph, q, base, fetch, beam)
  {
    hide Spread;
  }

  lemma LiveHitsFit(hits: seq<Hit>, graph: map<Id, Vec>, fetch: nat)
    requires LiveHits(hits, graph, fetch)
    ensures ByScore(hits) && |hits| <= fetch
  {
  }

  /**
   * `dense_blocking`. With the vectors of the graph and the overlay taken at one moment, what they fold to is
   * the truth; `merged` is the answer before rescoring.
   */
  method DenseBlocking(graph: AnnIndex<Id>, p: Pending<Id, Vec>, vecs: map<Id, Vec>, q: Vec, topK: nat)
    returns (r: seq<Hit>, ghost hits: seq<Hit>, ghost merged: seq<Hit>, ghost base: nat)
    requires graph.Valid()
    ensures graph.live < 1024 ==> IsTop(r, Items(vecs, Similarity(q)), topK)
    ensures graph.live >= 1024 ==>
              var ops := p.Now().Overlay();
              && (graph.store.Full? ==> ReadOk(graph, ops, vecs, q, topK, topK, 64, r, hits, merged, base))
              && (graph.store.Sq8? ==> ReadOk(graph, ops, vecs, q, topK, 2 * topK, 64, r, hits, merged, base))
              && (graph.store.Bq? ==> ReadOk(graph, ops, vecs, q, topK, 8 * topK, 200, r, hits, merged, base))
              && (graph.store.Pq? ==> ReadOk(graph, ops, vecs, q, topK, 6 * topK, 200, r, hits, merged, base))
              && ReadFills(graph, ops, q, topK, r, hits, merged, base)
  {
    hide ReadOk, ReadFills, IsTop, Items;
    if graph.live < ANN_MIN_CORPUS {
      hits, merged, base := [], [], 0;
      r := ExactScan(vecs, q, topK);
    } else {
      r, hits, merged, base := GraphRead(graph, p.Now().Overlay(), vecs, q, topK);
    }
  }

  /**
   * Read your writes, through a search: in any run of the pending set, a search holding the read lock
   * that merges its exactly scored hits with the overlay shows only what the pushes fold to, and every pushed upsert not
   * yet in the graph unless enough answers at least as good crowd it out.
   */
  lemma SearchReadsWrites(ys: seq<Sys<Id, Vec>>, steps: seq<PendingSet.Step<Id, Vec>>, i: nat, reader: nat, q: Vec,
                          hits: seq<Hit>, fetch: nat, r: seq<Hit>)
    requires PendingSet.IsRun(ys, steps) && i < |ys| && reader in ys[i].readers
    requires GraphHits(hits, ys[i].readers[reader], Similarity(q), fetch)
    requires TopByScore(r, Pool(hits, ys[i].s.Overlay(), Similarity(q)), fetch)
    ensures forall h :: h in r ==> h in Items(ys[i].pushed, Similarity(q))
    ensures forall id :: id in ys[i].s.Overlay() && ys[i].s.Overlay()[id].Some? ==>
              id in ys[i].pushed
              && var h := (id, Dot(ys[i].pushed[id], q)); h in r || (|r| == fetch && forall g :: g in r ==> g.1 >= h.1)
  {
    ReadYourWrites(ys, steps, i, reader);
    OverlayShowsTruth(hits, ys[i].readers[reader], ys[i].s.Overlay(), Similarity(q), fetch, r);
  }
}
