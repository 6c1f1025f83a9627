/**
 * The ANN index.
 */
module Ann {
  import opened Arith
  import opened Quant
  import opened VectorStore
  import opened Wrappers
  import opened GraphSearch
  import opened Diversity
  import opened GraphLinks

  // An HNSW-style layered graph with soft deletes.
  // The vector passed to `Insert` and to the searches is already normalized, and the level drawn
  // for a new node is a parameter. Distances are `1 - dot` over whatever the vector store holds.

  datatype Entry = Entry(node: nat, top: nat)

  /** Live (non-tombstoned) nodes. */
  function CountLive(deleted: seq<bool>): nat {
    if deleted == [] then 0
    else CountLive(deleted[..|deleted| - 1]) + if deleted[|deleted| - 1] then 0 else 1
  }

  lemma {:induction false} CountLiveUpdate(deleted: seq<bool>, i: nat)
    requires i < |deleted| && !deleted[i]
    ensures CountLive(deleted) == CountLive(deleted[i := true]) + 1
    decreases |deleted|
  {
    var k := |deleted| - 1;
    if i == k {
      assert deleted[i := true][..k] == deleted[..k];
    } else {
      CountLiveUpdate(deleted[..k], i);
      assert deleted[i := true][..k] == deleted[..k][i := true];
    }
  }

  lemma CountLivePush(deleted: seq<bool>)
    ensures CountLive(deleted + [false]) == CountLive(deleted) + 1
  {
    assert (deleted + [false])[..|deleted|] == deleted;
  }

  /** Mark the node `byId` names for `id`, if it has one. */
  function Tombstoned<Id(==)>(deleted: seq<bool>, byId: map<Id, nat>, id: Id): (d: seq<bool>)
    requires id in byId ==> byId[id] < |deleted|
    ensures |d| == |deleted|
  {
    if id in byId then deleted[byId[id] := true] else deleted
  }

  /** `byId` names the newest node of every id, and only that node can be live. */
  ghost predicate IdsOk<Id>(ids: seq<Id>, byId: map<Id, nat>, deleted: seq<bool>) {
    && |deleted| == |ids|
    && (forall id :: id in byId ==> byId[id] < |ids| && ids[byId[id]] == id)
    && (forall x: nat :: x < |ids| ==> ids[x] in byId && x <= byId[ids[x]])
    && (forall x: nat :: x < |ids| && !deleted[x] ==> byId[ids[x]] == x)
  }

  /** The entry is a node of maximal level; there is one unless the graph is empty. */
  ghost predicate EntryOk(entry: Option<Entry>, links: Links) {
    match entry
    case None => links == []
    case Some(e) =>
      && e.node < |links| && |links[e.node]| == e.top + 1
      && forall x: nat :: x < |links| ==> |links[x]| <= e.top + 1
  }

  /** Where a search's descent from the entry ends: at the entry node when there is no layer above 0, otherwise after
      a greedy walk at each, no farther than the entry node. */
  ghost predicate DescentEnd(e: Entry, links: Links, dist: nat -> real, base: nat) {
    DescendsTo(links, dist, e.top, 0, e.node, base) && dist(base) <= dist(e.node)
  }

  lemma EntryInRange(entry: Option<Entry>, links: Links)
    requires EntryOk(entry, links) && entry.Some?
    ensures entry.value.node < |links|
  {
  }

  lemma Walked(links: Links, dist: nat -> real, layer: nat, a: nat, b: nat)
    requires b < |links| && Reachable(links, layer, a, b) && dist(b) <= dist(a)
    requires forall nb :: nb in Nbrs(links, b, layer) ==> dist(b) <= dist(nb)
    ensures WalksTo(links, dist, layer, a, b)
  {
  }

  /** The live ids, each with the vector it was last inserted with. */
  ghost function LiveMap<Id(!new)>(byId: map<Id, nat>, deleted: seq<bool>, vecs: seq<Vec>): map<Id, Vec>
  {
    map id | id in byId && byId[id] < |deleted| && byId[id] < |vecs| && !deleted[byId[id]] :: vecs[byId[id]]
  }

  /** Tombstoning an id takes exactly that id out of the live map. */
  lemma TombstoneOk<Id(!new)>(ids: seq<Id>, byId: map<Id, nat>, deleted: seq<bool>, vecs: seq<Vec>, id: Id)
    requires IdsOk(ids, byId, deleted) && |vecs| == |ids|
    ensures id in byId ==> byId[id] < |deleted|
    ensures var d := Tombstoned(deleted, byId, id);
            && IdsOk(ids, byId, d)
            && CountLive(d) == CountLive(deleted) - (if id in byId && !deleted[byId[id]] then 1 else 0)
            && LiveMap(byId, d, vecs) == LiveMap(byId, deleted, vecs) - {id}
  {
    var d := Tombstoned(deleted, byId, id);
    TombstonedCount(deleted, byId, id);
    TombstonedIds(ids, byId, deleted, id);
    hide CountLive, LiveMap, Tombstoned;
    TombstonedMap(byId, deleted, d, vecs, id);
  }

  lemma TombstonedIds<Id>(ids: seq<Id>, byId: map<Id, nat>, deleted: seq<bool>, id: Id)
    requires IdsOk(ids, byId, deleted)
    ensures id in byId ==> byId[id] < |deleted|
    ensures var d := Tombstoned(deleted, byId, id);
            && IdsOk(ids, byId, d)
            && (forall other :: other in byId && other != id ==> byId[other] < |d| && d[byId[other]] == deleted[byId[other]])
            && (id in byId ==> d[byId[id]])
  {
    var d := Tombstoned(deleted, byId, id);
    forall other | other in byId && other != id ensures d[byId[other]] == deleted[byId[other]] {
      assert id in byId ==> ids[byId[id]] == id && ids[byId[other]] == other;
    }
  }

  lemma TombstonedCount<Id>(deleted: seq<bool>, byId: map<Id, nat>, id: Id)
    requires id in byId ==> byId[id] < |deleted|
    ensures CountLive(Tombstoned(deleted, byId, id))
         == CountLive(deleted) - (if id in byId && !deleted[byId[id]] then 1 else 0)
  {
    if id in byId {
      if deleted[byId[id]] {
        assert deleted[byId[id] := true] == deleted;
      } else {
        CountLiveUpdate(deleted, byId[id]);
      }
    }
  }

  lemma TombstonedMap<Id(!new)>(byId: map<Id, nat>, deleted: seq<bool>, d: seq<bool>, vecs: seq<Vec>, id: Id)
    requires forall other :: other in byId ==> byId[other] < |deleted| == |d| == |vecs|
    requires forall other :: other in byId && other != id ==> d[byId[other]] == deleted[byId[other]]
    requires id in byId ==> d[byId[id]]
    ensures LiveMap(byId, d, vecs) == LiveMap(byId, deleted, vecs) - {id}
  {
  }

  lemma EmptyHolds(store: Store, dim: nat)
    requires store == Empty(store.Kind())
    ensures store.Holds(dim, []) && store.TrainedWhenDue(dim, 0)
  {
  }

  lemma RetiredNotLive<Id(!new)>(ids: seq<Id>, byId: map<Id, nat>, deleted: seq<bool>, id: Id)
    requires IdsOk(ids, byId, deleted)
    ensures id in byId ==> byId[id] < |deleted| && Tombstoned(deleted, byId, id)[byId[id]]
  {
  }

  /** A fresh node for an id that is not live puts exactly that id into the live map. */
  lemma GrowOk<Id(!new)>(ids: seq<Id>, byId: map<Id, nat>, deleted: seq<bool>, vecs: seq<Vec>, id: Id, v: Vec)
    requires IdsOk(ids, byId, deleted) && |vecs| == |ids|
    requires id in byId ==> deleted[byId[id]]
    ensures IdsOk(ids + [id], byId[id := |ids|], deleted + [false])
    ensures CountLive(deleted + [false]) == CountLive(deleted) + 1 && |deleted| == |ids|
    ensures LiveMap(byId[id := |ids|], deleted + [false], vecs + [v]) == LiveMap(byId, deleted, vecs)[id := v]
  {
    hide CountLive, LiveMap;
    CountLivePush(deleted);
    GrowIds(ids, byId, deleted, id);
    GrowMap(ids, byId, deleted, vecs, id, v);
  }

  lemma GrowIds<Id>(ids: seq<Id>, byId: map<Id, nat>, deleted: seq<bool>, id: Id)
    requires IdsOk(ids, byId, deleted)
    requires id in byId ==> byId[id] < |deleted| && deleted[byId[id]]
    ensures IdsOk(ids + [id], byId[id := |ids|], deleted + [false]) && |deleted| == |ids|
  {
    forall x: nat | x < |ids| && !deleted[x] ensures ids[x] != id {
      assert ids[x] in byId;
    }
  }

  lemma GrowMap<Id(!new)>(ids: seq<Id>, byId: map<Id, nat>, deleted: seq<bool>, vecs: seq<Vec>, id: Id, v: Vec)
    requires |deleted| == |ids| == |vecs| && forall x :: x in byId ==> byId[x] < |ids|
    ensures LiveMap(byId[id := |ids|], deleted + [false], vecs + [v]) == LiveMap(byId, deleted, vecs)[id := v]
  {
    var a, b := LiveMap(byId[id := |ids|], deleted + [false], vecs + [v]), LiveMap(byId, deleted, vecs)[id := v];
    forall x ensures x in a <==> x in b
             ensures x in a ==> a[x] == b[x]
    {
      if x in byId && x != id {
        assert (deleted + [false])[byId[x]] == deleted[byId[x]] && (vecs + [v])[byId[x]] == vecs[byId[x]];
      }
    }
  }

  /** `1 - dot` of every node with a query, as a total function of the node. */
  function QueryDist(store: Store, n: nat, dim: nat, q: Vec, qsum: real, ghost vecs: seq<Vec>): (f: nat -> real)
    requires store.Holds(dim, vecs) && n == |vecs|
  {
    (x: nat) => if x < n then 1.0 - store.DotQuery(x, dim, q, qsum, vecs) else 0.0
  }

  /** `1 - dot` of two nodes. */
  function PairDist(store: Store, n: nat, dim: nat, ghost vecs: seq<Vec>): (f: (nat, nat) -> real)
    requires store.Holds(dim, vecs) && n == |vecs|
  {
    (a: nat, b: nat) => if a < n && b < n then 1.0 - store.DotNodes(a, b, dim, vecs) else 0.0
  }

  /** Distances from a node's own (materialized) vector, as pruning measures them. */
  function FromDist(store: Store, n: nat, dim: nat, unit: real, ghost vecs: seq<Vec>): (f: nat -> nat -> real)
    requires store.Holds(dim, vecs) && n == |vecs|
  {
    (nb: nat) =>
      if nb < n then
        var q := store.Materialize(nb, dim, unit, vecs);
        QueryDist(store, n, dim, q, Sum(q), vecs)
      else (x: nat) => 0.0
  }

  /**
   * What the three distances measure, whatever the store: one minus the dot of the stored vector with the query, with
   * another node's stored vector, and with a node's own materialized vector.
   */
  lemma DistMeaning(store: Store, n: nat, dim: nat, unit: real, vecs: seq<Vec>, q: Vec, a: nat, b: nat)
    requires store.Holds(dim, vecs) && n == |vecs| && |q| == dim && a < n && b < n
    ensures QueryDist(store, n, dim, q, Sum(q), vecs)(a) == 1.0 - Dot(store.Materialize(a, dim, 1.0, vecs), q)
    ensures (store.Sq8? ==> dim <= MAX_DIMS) ==>
              PairDist(store, n, dim, vecs)(a, b)
              == 1.0 - Dot(store.Materialize(a, dim, 1.0, vecs), store.Materialize(b, dim, 1.0, vecs))
    ensures FromDist(store, n, dim, unit, vecs)(b)(a)
         == 1.0 - Dot(store.Materialize(a, dim, 1.0, vecs), store.Materialize(b, dim, unit, vecs))
  {
    hide Store.Holds, Store.Materialize, Store.DotQuery, Store.DotNodes, Dot;
    StoredDotQuery(store, a, dim, q, vecs);
    StoredDotQuery(store, a, dim, store.Materialize(b, dim, unit, vecs), vecs);
    if store.Sq8? ==> dim <= MAX_DIMS {
      StoredDotNodes(store, a, b, dim, vecs);
    }
  }

  class AnnIndex<Id(==, !new)> {
    // Tuning, fixed at construction.
    const m: nat
    const efConstruction: nat
    const efSearch: nat
    const train: Trainer
    const unit: nat -> real

    var dim: Option<nat>
    var store: Store
    var ids: seq<Id>
    var byId: map<Id, nat>
    var deleted: seq<bool>
    var links: Links
    var entry: Option<Entry>
    var live: nat

    /** The vector each node was inserted with. */
    ghost var vecs: seq<Vec>

    function Dim(): nat
      reads this
    {
      if dim.Some? then dim.value else 0
    }

    ghost predicate Valid()
      reads this
    {
      && |links| == |ids| == |vecs|
      && (dim.None? <==> ids == []) && (ids == [] ==> store == Empty(store.Kind()))
      && store.Holds(Dim(), vecs) && store.TrainedWhenDue(Dim(), |ids|)
      && LinksOk(links, m) && (forall x: nat :: x < |links| ==> |links[x]| > 0)
      && EntryOk(entry, links)
      && IdsOk(ids, byId, deleted)
      && live == CountLive(deleted)
    }

    ghost function Contents(): map<Id, Vec>
      requires Valid()
      reads this
    {
      LiveMap(byId, deleted, vecs)
    }

    constructor (m: nat, efConstruction: nat, efSearch: nat, quantizer: Quantizer, train: Trainer, unit: nat -> real)
      ensures Valid() && Contents() == map[] && store.Kind() == quantizer
      ensures dim == None && ids == [] && byId == map[] && live == 0
      ensures this.m == m && this.efConstruction == efConstruction && this.efSearch == efSearch && this.train == train
    {
      this.m, this.efConstruction, this.efSearch := m, efConstruction, efSearch;
      this.train, this.unit := train, unit;
      dim := None;
      store := Empty(quantizer);
      ids, byId, deleted, links := [], map[], [], [];
      entry := None;
      live := 0;
      vecs := [];
    }

    /** Insert (or overwrite) an id with its vector, as a new node of the given level. */
    method Insert(id: Id, v: Vec, level: nat)
      requires Valid()
      requires dim.Some? ==> |v| == dim.value
      requires store.Pq? ==> TrainsFor(train, |v|, store.m)
      modifies this
      ensures Valid() && store.Kind() == old(store.Kind())
      ensures dim == Some(|v|) && ids == old(ids) + [id] && vecs == old(vecs) + [v]
      ensures byId == old(byId)[id := |old(ids)|]
      ensures deleted == Tombstoned(old(deleted), old(byId), id) + [false]
      ensures |links| == |old(links)| + 1 && |links[|old(links)|]| == level + 1
      ensures forall x: nat :: x < |old(links)| ==> |links[x]| == |old(links[x])|
      ensures forall x: nat, l: nat, y :: x < |old(links)| && l < |links[x]| && y in links[x][l]
                ==> y == |old(links)| || y in old(links)[x][l]
      ensures entry == if old(entry).None? || level > old(entry).value.top then Some(Entry(|old(ids)|, level)) else old(entry)
      ensures Contents() == old(Contents())[id := v]
      ensures old(entry).None? ==> links == [NoLinks(level)]
      ensures old(entry).Some? ==>
                var e := old(entry).value;
                Attached(old(links) + [NoLinks(level)], links, BuildFor(v), |old(links)|, e.node, e.top, level)
      ensures old(entry).Some? && m > 0 ==>
                forall l: nat :: l <= level && l <= old(entry).value.top ==>
                  Joins(old(links), links, BuildFor(v), m, |old(links)|, level, l)
    {
      hide IdsOk, LiveMap, LinksOk, EntryOk, CountLive, Unlinked, SameShape, Attached, Joins;
      // Overwrite: tombstone the old node, insert fresh.
      Remove(id);
      RetiredNotLive(ids, byId, old(deleted), id);
      AppendNode(id, v);
      LinkNode(v, level);
    }

    /** Give the newest node its empty lists, connect it, and raise the entry if it is the tallest. */
    method LinkNode(v: Vec, level: nat)
      requires |ids| == |vecs| == |links| + 1 == |deleted| && store.Holds(Dim(), vecs)
      requires LinksOk(links, m) && EntryOk(entry, links)
      modifies this`links, this`entry
      ensures old(entry).None? ==> links == [NoLinks(level)]
      ensures old(entry).Some? ==>
                var e := old(entry).value;
                Attached(old(links) + [NoLinks(level)], links, BuildFor(v), |old(links)|, e.node, e.top, level)
      ensures old(entry).Some? && m > 0 ==>
                forall l: nat :: l <= level && l <= old(entry).value.top ==>
                  Joins(old(links), links, BuildFor(v), m, |old(links)|, level, l)
      ensures LinksOk(links, m) && EntryOk(entry, links)
      ensures |links| == |old(links)| + 1 && |links[|old(links)|]| == level + 1
      ensures forall x: nat :: x < |old(links)| ==> |links[x]| == |old(links[x])|
      ensures forall x: nat, l: nat, y :: x < |old(links)| && l < |links[x]| && y in links[x][l]
                ==> y == |old(links)| || y in old(links)[x][l]
      ensures entry == if old(entry).None? || level > old(entry).value.top then Some(Entry(|old(links)|, level)) else old(entry)
    {
      hide LinksOk, EntryOk, Unlinked, SameShape, Attached, GainsOnly, Joins;
      var node := |links|;
      var grown := links + [NoLinks(level)];
      GrownOk(links, m, level);
      GrownEntry(entry, links, level);
      if entry.None? {
        links := grown;
        entry := Some(Entry(node, level));
        return;
      }
      var top := entry.value.top;
      links := Attach(grown, node, entry.value, level, v);
      SameShapeAt(grown, links, node);
      GainsAt(old(links), links, level);
      if m > 0 {
        AttachedJoins(old(links), links, BuildFor(v), node, entry.value.node, top, level);
      }
      if level > top {
        entry := Some(Entry(node, level));
      }
      ShapeKeepsEntry(entry, grown, links);
    }

    /** Append the node's vector, id, and liveness; its links come after. */
    method AppendNode(id: Id, v: Vec)
      requires |ids| == |vecs| && (dim.None? ==> ids == [] && store == Empty(store.Kind()))
      requires store.Holds(Dim(), vecs) && store.TrainedWhenDue(Dim(), |ids|)
      requires dim.Some? ==> |v| == dim.value
      requires store.Pq? ==> TrainsFor(train, |v|, store.m)
      requires IdsOk(ids, byId, deleted) && (id in byId ==> deleted[byId[id]]) && live == CountLive(deleted)
      modifies this`dim, this`store, this`ids, this`byId, this`deleted, this`live, this`vecs
      ensures dim == Some(|v|) && ids == old(ids) + [id] && vecs == old(vecs) + [v]
      ensures byId == old(byId)[id := |old(ids)|] && deleted == old(deleted) + [false]
      ensures store.Kind() == old(store.Kind()) && store.Holds(|v|, vecs) && store.TrainedWhenDue(|v|, |ids|)
      ensures IdsOk(ids, byId, deleted) && |deleted| == |ids| && live == CountLive(deleted)
      ensures LiveMap(byId, deleted, vecs) == old(LiveMap(byId, deleted, vecs))[id := v]
    {
      hide IdsOk, LiveMap, CountLive, Store.Holds, Store.TrainedWhenDue, Empty, TrainsFor;
      GrowOk(ids, byId, deleted, vecs, id, v);
      if dim.None? {
        EmptyHolds(store, |v|);
        dim := Some(|v|);
      }
      store := Push(store, v, train, vecs);
      ids, byId, deleted, vecs := ids + [id], byId[id := |ids|], deleted + [false], vecs + [v];
      live := live + 1;
    }

    /** What linking a node with vector `v` goes by, once its vector is stored. */
    ghost function BuildFor(v: Vec): (b: Build)
      requires store.Holds(Dim(), vecs)
      reads this
    {
      Build(m, efConstruction, deleted, QueryDist(store, |vecs|, Dim(), v, Sum(v), vecs),
            FromDist(store, |vecs|, Dim(), unit(Dim()), vecs), PairDist(store, |vecs|, Dim(), vecs))
    }

    /** Descend to the new node's level, then beam-connect it at every shared layer. */
    method Attach(grown: Links, node: nat, e: Entry, level: nat, v: Vec) returns (ls: Links)
      requires LinksOk(grown, m) && |grown| == node + 1 == |vecs| == |deleted|
      requires store.Holds(Dim(), vecs)
      requires e.node < node && |grown[e.node]| == e.top + 1 && grown[node] == NoLinks(level)
      requires forall l: nat :: Unlinked(grown, node, l)
      ensures LinksOk(ls, m) && SameShape(grown, ls) && Attached(grown, ls, BuildFor(v), node, e.node, e.top, level)
      ensures GainsOnly(grown, ls, node)
    {
      hide LinkedTo, LinksOk, Unlinked, Attached, Store.Holds, DescendsTo, SameShape, GainsOnly;
      ls := grown;
      var n := |grown|;
      var dist := QueryDist(store, n, Dim(), v, Sum(v), vecs);
      var pair := PairDist(store, n, Dim(), vecs);
      var from := FromDist(store, n, Dim(), unit(Dim()), vecs);
      ghost var b := BuildFor(v);
      var cur: nat, layer: nat := DescendAbove(grown, node, e, level, dist);
      NothingLinked(grown, b, node, e, level, layer, cur);
      layer := layer + 1;
      while layer > 0
        invariant LinkedTo(grown, ls, b, node, e, level, layer, cur)
        decreases layer
      {
        layer := layer - 1;
        ls, cur := AttachLayer(grown, ls, node, e, level, layer, cur, b, dist, from, pair);
      }
      AllLinked(grown, ls, b, node, e, level, cur);
    }

    /** Greedy descent through the layers above the new node's level. */
    method DescendAbove(grown: Links, node: nat, e: Entry, level: nat, dist: nat -> real) returns (cur: nat, layer: nat)
      requires LinksOk(grown, m) && |grown| == node + 1 && e.node < node && |grown[e.node]| == e.top + 1
      requires forall l: nat :: Unlinked(grown, node, l)
      ensures layer <= level && layer <= e.top && (layer == e.top || layer == level)
      ensures cur < node && |grown[cur]| > layer && DescendsTo(grown, dist, e.top, layer, e.node, cur)
    {
      hide LinksOk, DescendsTo, WalksTo, Unlinked, Reachable;
      cur, layer := e.node, e.top;
      Undescended(grown, dist, e);
      while layer > level
        invariant layer <= e.top && cur < node && |grown[cur]| > layer
        invariant layer == e.top || layer >= level
        invariant DescendsTo(grown, dist, e.top, layer, e.node, cur)
        decreases layer
      {
        LinksInRange(grown, m, layer);
        var next := GreedyAt(grown, dist, cur, layer);
        Walked(grown, dist, layer, cur, next);
        Descended(grown, dist, e, layer, cur, next);
        WalkAvoids(grown, m, node, layer, cur, next);
        cur, layer := next, layer - 1;
      }
    }

    /** Beam-connect the new node at one layer, and start the next layer's beam at its nearest neighbour. */
    method AttachLayer(ghost grown: Links, before: Links, node: nat, ghost e: Entry, ghost level: nat, layer: nat, start: nat,
                       ghost b: Build, dist: nat -> real, from: nat -> nat -> real, pair: (nat, nat) -> real)
      returns (ls: Links, cur: nat)
      requires |grown| == node + 1 == |deleted| && grown[node] == NoLinks(level) && Unlinked(grown, node, layer)
      requires b == Build(m, efConstruction, deleted, dist, from, pair)
      requires LinkedTo(grown, before, b, node, e, level, layer + 1, start)
      ensures LinkedTo(grown, ls, b, node, e, level, layer, cur)
    {
      LayerReady(grown, before, b, node, e, level, layer, start);
      hide LinkedTo, LinksOk, Unlinked, Connected, LinkedBack, BeamResult, SelectDiverse, NoRepeats, Owns;
      var chosen;
      ghost var found, seen;
      chosen, found, seen := ChooseAt(before, node, layer, start, dist, pair);
      ls := Connect(before, m, node, layer, chosen, from, pair);
      cur := if chosen != [] then chosen[0] else start;
      LayerLinked(grown, before, ls, b, node, e, level, layer, start, found, seen, chosen);
    }

    /** The diverse neighbours the beam finds for the new node at one layer. */
    method ChooseAt(ls: Links, node: nat, layer: nat, cur: nat, dist: nat -> real, pair: (nat, nat) -> real)
      returns (chosen: seq<nat>, ghost found: seq<Scored>, ghost seen: set<nat>)
      requires LinksOk(ls, m) && |ls| == node + 1 == |deleted| && Owns(ls, cur, layer) && cur != node
      requires Unlinked(ls, node, layer)
      ensures BeamResult(ls, deleted, dist, cur, layer, efConstruction, true, Anyone, found, seen)
      ensures chosen == Nodes(SelectDiverse(found, m, pair)) && |chosen| <= m && NoRepeats(chosen)
      ensures forall y :: y in chosen ==> y != node && Owns(ls, y, layer)
    {
      LinksInRange(ls, m, layer);
      var out;
      out, seen := BeamAdmit(ls, deleted, dist, cur, layer, efConstruction, true, Anyone);
      found := out;
      var kept := Select(out, m, pair);
      SelectFills(found, m, pair);
      chosen := Nodes(kept);
      forall y | y in chosen ensures y != node && Owns(ls, y, layer) {
        var i: nat :| i < |kept| && kept[i].node == y;
        assert kept[i] in found;
        WalkAvoids(ls, m, node, layer, cur, y);
      }
    }

    /** The distance every search measures. */
    ghost function DistOf(q: Vec): nat -> real
      requires Valid() && |q| == Dim()
      reads this
    {
      QueryDist(store, |ids|, |q|, q, Sum(q), vecs)
    }

    /** Greedy descent through the layers above 0: a walk at each, from the entry node. */
    method Descend(dist: nat -> real) returns (cur: nat)
      requires Valid() && entry.Some?
      ensures cur < |links| && DescentEnd(entry.value, links, dist, cur)
    {
      hide WalksTo, LinksOk, IdsOk, EntryOk, Reachable;
      EntryInRange(entry, links);
      cur := entry.value.node;
      var layer: nat := entry.value.top;
      while layer > 0
        invariant cur < |links| && layer <= entry.value.top && dist(cur) <= dist(entry.value.node)
        invariant DescendsTo(links, dist, entry.value.top, layer, entry.value.node, cur)
        decreases layer
      {
        LinksInRange(links, m, layer);
        var next := GreedyAt(links, dist, cur, layer);
        Walked(links, dist, layer, cur, next);
        cur, layer := next, layer - 1;
      }
    }

    /** Up to `k` live nearest ids with their similarity, best first. */
    method Search(q: Vec, k: nat, ef: nat) returns (hits: seq<(Id, real)>, ghost base: nat)
      requires Valid()
      ensures entry.None? || k == 0 || dim != Some(|q|) ==> hits == []
      ensures entry.Some? && k > 0 && dim == Some(|q|) ==>
                && base < |links| && DescentEnd(entry.value, links, DistOf(q), base)
                && HitsOk(hits, ids, byId, deleted, DistOf(q), k, Anyone)
                && (exists w: nat :: w in {ef, efSearch, k} && w >= ef && w >= efSearch && w >= k
                                     && Spread(hits, ids, links, deleted, DistOf(q), base, w, k, Anyone))
                && (|hits| < k || ef >= |ids| || efSearch >= |ids| || k >= |ids| ==>
                      BestReachable(hits, ids, links, deleted, DistOf(q), k, base))
                && (!deleted[base] ==> ShownOrBeaten(hits, ids[base], 1.0 - DistOf(q)(base), k))
    {
      hide DescentEnd, HitsOk, Spread, BestAdmitted, LinksOk, IdsOk, EntryOk, Store.Holds, Store.TrainedWhenDue, CountLive;
      base := 0;
      if entry.None? || k == 0 || dim != Some(|q|) {
        return [], 0;
      }
      var dist := QueryDist(store, |ids|, |q|, q, Sum(q), vecs);
      var start := Descend(dist);
      base := start;
      LengthsAgree(ids, byId, deleted);
      hits := Beam(dist, start, Widest(ef, efSearch, k), k, Anyone);
      if BestAdmitted(hits, ids, links, deleted, dist, k, Anyone, base) {
        BestOfAll(hits, ids, links, deleted, dist, k, base);
      }
    }

    /**
     * Nearest `k` among the ids `allow` holds. The beam is widened by the inverse
     * selectivity of the filter, at most to the node count.
     */
    method SearchFiltered(q: Vec, k: nat, ef: nat, allow: set<Id>) returns (hits: seq<(Id, real)>, ghost base: nat)
      requires Valid()
      ensures entry.None? || k == 0 || dim != Some(|q|) || allow == {} ==> hits == []
      ensures forall h :: h in hits ==> h.0 in allow
      ensures entry.Some? && k > 0 && dim == Some(|q|) && allow != {} ==>
                && base < |links| && DescentEnd(entry.value, links, DistOf(q), base)
                && HitsOk(hits, ids, byId, deleted, DistOf(q), k, Allowed(ids, allow))
                && Spread(hits, ids, links, deleted, DistOf(q), base, Widened(Widest(ef, efSearch, k), |allow|, |ids|), k,
                          Allowed(ids, allow))
                && (|hits| < k && |allow| <= |ids| ==>
                      BestAllowed(hits, ids, links, deleted, DistOf(q), k, base, allow))
                && (forall w: nat :: w in {ef, efSearch, k} && w >= |allow| && 4096 * w >= |ids| ==>
                      BestAllowed(hits, ids, links, deleted, DistOf(q), k, base, allow))
                && (!deleted[base] && ids[base] in allow ==>
                      && hits != [] && hits[0].1 >= 1.0 - DistOf(q)(base)
                      && (|allow| <= |ids| ==> ShownOrBeaten(hits, ids[base], 1.0 - DistOf(q)(base), k)))
    {
      hide DescentEnd, HitsOk, Spread, BestAdmitted, LinksOk, IdsOk, EntryOk, Store.Holds, Store.TrainedWhenDue, CountLive,
           Widened;
      base := 0;
      if entry.None? || k == 0 || dim != Some(|q|) || allow == {} {
        return [], 0;
      }
      var dist := QueryDist(store, |ids|, |q|, q, Sum(q), vecs);
      var start := Descend(dist);
      base := start;
      LengthsAgree(ids, byId, deleted);
      AllowedNonempty(allow);
      WidenedReaches(Widest(ef, efSearch, k), |allow|, |ids|);
      hits := Beam(dist, start, Widened(Widest(ef, efSearch, k), |allow|, |ids|), k, Allowed(ids, allow));
      HitsAllowed(hits, ids, byId, deleted, dist, k, allow);
      if BestAdmitted(hits, ids, links, deleted, dist, k, Allowed(ids, allow), base) {
        BestOfAllowed(hits, ids, links, deleted, dist, k, base, allow);
      }
    }

    /** Beam over layer 0, tombstones skipped, the first `k` turned into ids and similarities. */
    method Beam(dist: nat -> real, base: nat, ef: nat, k: nat, admit: nat -> bool) returns (hits: seq<(Id, real)>)
      requires Valid() && base < |links|
      ensures HitsOk(hits, ids, byId, deleted, dist, k, admit)
      ensures Spread(hits, ids, links, deleted, dist, base, ef, k, admit)
      ensures ef >= |ids| || (ef >= k && |hits| < k) ==> BestAdmitted(hits, ids, links, deleted, dist, k, admit, base)
      ensures |deleted| == |ids| && (ef > 0 && k > 0 && !deleted[base] && admit(base) ==>
                && hits != [] && hits[0].1 >= 1.0 - dist(base)
                && (ef >= k || ef >= |ids| ==> ShownOrBeaten(hits, ids[base], 1.0 - dist(base), k)))
    {
      hide BeamResult, HitsOk, BestAdmitted, TakeHits, ShownOrBeaten, LinksOk, EntryOk, Admits, CountLive, Store.Holds,
           Store.TrainedWhenDue;
      LinksInRange(links, m, 0);
      LengthsAgree(ids, byId, deleted);
      var found, seen := BeamAdmit(links, deleted, dist, base, 0, ef, false, admit);
      FoundInRange(links, deleted, dist, base, ef, admit, found, seen);
      hits := TakeHits(found, ids, k);
      TakenOk(links, found, seen, ids, byId, deleted, dist, ef, k, admit, base);
      ShortIsBest(hits, ids, links, deleted, dist, base, ef, k, admit, found, seen);
      if ef > 0 && k > 0 && AdmittedAt(deleted, admit, base) {
        BaseShown(hits, ids, links, deleted, dist, base, ef, k, admit, found, seen);
      }
    }

    /** Tombstone an id (no-op if absent). */
    method Remove(id: Id)
      requires Valid()
      modifies this`deleted, this`live
      ensures Valid() && deleted == Tombstoned(old(deleted), byId, id)
      ensures Contents() == old(Contents()) - {id}
    {
      hide IdsOk, LiveMap, LinksOk, EntryOk, CountLive;
      TombstoneOk(ids, byId, deleted, vecs, id);
      if id in byId {
        var node := byId[id];
        if !deleted[node] {
          deleted := deleted[node := true];
          live := live - 1;
        } else {
          assert deleted[node := true] == deleted;
        }
      }
    }
  }

  /** The node is linked at the shared layers from `layer` up, and not yet below; the next beam starts at `cur`. */
  ghost predicate LinkedTo(grown: Links, ls: Links, b: Build, node: nat, e: Entry, level: nat, layer: nat, cur: nat) {
    && node < |grown| && layer <= level + 1 && layer <= e.top + 1
    && LinksOk(ls, b.m) && SameShape(grown, ls) && SameBelow(grown, ls, layer)
    && SameOutside(grown, ls, level, e.top) && GainsOnly(grown, ls, node)
    && cur < node && cur < |ls| && |ls[cur]| >= layer
    && (layer > 0 ==> StartsAt(grown, ls, b, node, e.node, e.top, level, layer - 1, cur))
    && forall l: nat :: layer <= l <= level && l <= e.top ==> AttachedAt(grown, ls, b, node, e.node, e.top, level, l)
  }

  /** Nothing is linked yet when the descent reaches the first shared layer. */
  lemma NothingLinked(grown: Links, b: Build, node: nat, e: Entry, level: nat, layer: nat, cur: nat)
    requires LinksOk(grown, b.m) && cur < node < |grown| && |grown[cur]| > layer
    requires layer <= level && layer <= e.top && (layer == level || layer == e.top)
    requires DescendsTo(grown, b.dist, e.top, layer, e.node, cur)
    ensures LinkedTo(grown, grown, b, node, e, level, layer + 1, cur)
  {
    hide LinksOk, DescendsTo, AttachedAt;
  }

  lemma AllLinked(grown: Links, ls: Links, b: Build, node: nat, e: Entry, level: nat, cur: nat)
    requires LinkedTo(grown, ls, b, node, e, level, 0, cur)
    ensures LinksOk(ls, b.m) && SameShape(grown, ls) && Attached(grown, ls, b, node, e.node, e.top, level)
    ensures GainsOnly(grown, ls, node)
  {
    hide LinksOk, AttachedAt;
  }

  lemma LayerReady(grown: Links, ls: Links, b: Build, node: nat, e: Entry, level: nat, layer: nat, cur: nat)
    requires LinkedTo(grown, ls, b, node, e, level, layer + 1, cur) && Unlinked(grown, node, layer)
    requires node < |grown| && grown[node] == NoLinks(level)
    ensures LinksOk(ls, b.m) && |ls| == |grown| && Owns(ls, cur, layer) && cur < node
    ensures Unlinked(ls, node, layer) && Owns(ls, node, layer) && ls[node][layer] == []
  {
    hide LinksOk, AttachedAt, StartsAt, Unlinked;
    StillUnlinked(grown, ls, node, level, layer);
  }

  lemma StillUnlinked(grown: Links, ls: Links, node: nat, level: nat, layer: nat)
    requires SameBelow(grown, ls, layer + 1) && Unlinked(grown, node, layer) && layer <= level
    requires node < |grown| && grown[node] == NoLinks(level)
    ensures Unlinked(ls, node, layer) && Owns(ls, node, layer) && ls[node][layer] == []
  {
    SameLists(grown, ls, layer);
    assert Owns(grown, node, layer);
  }

  /** One layer linked: the layers above stay as they are, the ones below are still untouched. */
  lemma LayerLinked(grown: Links, before: Links, ls: Links, b: Build, node: nat, e: Entry, level: nat, layer: nat,
                    start: nat, found: seq<Scored>, seen: set<nat>, chosen: seq<nat>)
    requires LinkedTo(grown, before, b, node, e, level, layer + 1, start) && |b.deleted| == |grown| == node + 1
    requires BeamResult(before, b.deleted, b.dist, start, layer, b.ef, true, Anyone, found, seen)
    requires chosen == Nodes(SelectDiverse(found, b.m, b.pair))
    requires forall y :: y in chosen ==> y != node && Owns(before, y, layer)
    requires LinksOk(ls, b.m) && Connected(before, ls, node, layer, chosen)
    requires LinkedBack(before, ls, b.m, node, layer, chosen, b.from, b.pair)
    ensures LinkedTo(grown, ls, b, node, e, level, layer, if chosen != [] then chosen[0] else start)
  {
    hide LinksOk, StartsAt, AttachedAt, LinkedAt, BeamResult, LinkedBack, SelectDiverse, Connected, SameShape,
         SameBelow, SameFrom, SameOutside, GainsOnly;
    ConnectedLayers(grown, before, ls, node, layer, chosen);
    ConnectedMembers(grown, before, ls, node, layer, chosen, level, e.top);
    LinkedNow(grown, before, ls, b, node, layer, start, found, seen, chosen);
    StartsStay(grown, before, ls, b, node, e.node, e.top, level, layer, start);
    AttachedNow(grown, ls, b, node, e.node, e.top, level, layer, start, found, seen);
    if layer > 0 {
      NextStart(grown, ls, b, node, e.node, e.top, level, layer, start);
    }
    var cur := if chosen != [] then chosen[0] else start;
    assert chosen != [] ==> chosen[0] in chosen;
    SameShapeAt(before, ls, cur);
    forall l: nat | layer < l <= level && l <= e.top ensures AttachedAt(grown, ls, b, node, e.node, e.top, level, l) {
      HigherSame(before, ls, layer + 1, l);
      AttachedStays(grown, before, ls, b, node, e.node, e.top, level, l);
    }
  }

  lemma HigherSame(links: Links, links': Links, layer: nat, above: nat)
    requires SameFrom(links, links', layer) && layer <= above
    ensures SameFrom(links, links', above)
  {
  }

  lemma ConnectedLayers(grown: Links, before: Links, ls: Links, node: nat, layer: nat, chosen: seq<nat>)
    requires SameBelow(grown, before, layer + 1) && Connected(before, ls, node, layer, chosen)
    ensures SameShape(grown, ls) && SameShape(before, ls) && SameBelow(grown, ls, layer) && SameFrom(before, ls, layer + 1)
    ensures node < |ls| && Nbrs(ls, node, layer) == chosen
  {
    assert Owns(before, node, layer);
    forall x: nat, l: nat | Owns(grown, x, l) && l < layer ensures ls[x][l] == grown[x][l] {
      assert Owns(before, x, l);
    }
  }

  lemma AttachedNow(grown: Links, ls: Links, b: Build, node: nat, entry: nat, top: nat, level: nat, layer: nat,
                    start: nat, found: seq<Scored>, seen: set<nat>)
    requires layer <= level && layer <= top && node < |ls| && StartsAt(grown, ls, b, node, entry, top, level, layer, start)
    requires LinkedAt(grown, ls, b, node, layer, start, found, seen)
    ensures AttachedAt(grown, ls, b, node, entry, top, level, layer)
  {
    hide StartsAt, LinkedAt;
  }

  lemma NextStart(grown: Links, ls: Links, b: Build, node: nat, entry: nat, top: nat, level: nat, layer: nat, start: nat)
    requires 0 < layer <= level && layer <= top && node < |ls| && StartsAt(grown, ls, b, node, entry, top, level, layer, start)
    ensures StartsAt(grown, ls, b, node, entry, top, level, layer - 1,
                     if Nbrs(ls, node, layer) != [] then Nbrs(ls, node, layer)[0] else start)
  {
  }

  lemma ConnectedMembers(grown: Links, before: Links, ls: Links, node: nat, layer: nat, chosen: seq<nat>, level: nat, top: nat)
    requires Connected(before, ls, node, layer, chosen) && layer <= level && layer <= top
    requires SameOutside(grown, before, level, top) && GainsOnly(grown, before, node)
    ensures SameShape(before, ls) && |ls| == |before| == |grown|
    ensures SameOutside(grown, ls, level, top) && GainsOnly(grown, ls, node)
  {
    forall x: nat, l: nat | Owns(grown, x, l) ensures Owns(before, x, l) && (l != layer ==> ls[x][l] == before[x][l]) {
    }
  }

  lemma Undescended(links: Links, dist: nat -> real, e: Entry)
    ensures DescendsTo(links, dist, e.top, e.top, e.node, e.node)
  {
  }

  /** One more greedy walk takes the descent one layer down. */
  lemma Descended(links: Links, dist: nat -> real, e: Entry, layer: nat, cur: nat, next: nat)
    requires 0 < layer <= e.top && DescendsTo(links, dist, e.top, layer, e.node, cur) && WalksTo(links, dist, layer, cur, next)
    ensures DescendsTo(links, dist, e.top, layer - 1, e.node, next)
  {
  }

  /** `ef.max(ef_search).max(k)`. */
  function Widest(ef: nat, efSearch: nat, k: nat): nat {
    var w := if ef < efSearch then efSearch else ef;
    if w < k then k else w
  }

  function Ceil(x: real): int { if x.Floor as real == x then x.Floor else x.Floor + 1 }

  /** The beam width under a filter: divided by its selectivity (floored at 1/4096), at most the node count. */
  function Widened(ef: nat, allowed: nat, n: nat): nat {
    var w := Widening(ef, allowed, n);
    if w < 0 then 0 else if w > n then n else w
  }

  lemma CeilAtLeast(x: real, m: int)
    ensures Ceil(x) >= m <==> x > (m - 1) as real
  {
  }

  /** Dividing by a share is multiplying by its inverse. */
  lemma ByShare(w: real, a: real, n: real, m: real)
    requires a > 0.0 && n > 0.0
    ensures a / n > 0.0 && (w / (a / n) > m <==> w * n > a * m)
  {
    var share := a / n;
    assert share * n == a;
    var x := w / share;
    assert x * share == w;
    assert x * a == w * n by {
      assert x * a == x * (share * n) == (x * share) * n;
    }
    if x > m {
      Scales(a, x, m);
    } else {
      Scales(a, m, x);
    }
  }

  lemma Scales(a: real, x: real, m: real)
    requires a > 0.0 && x >= m
    ensures x * a >= m * a == a * m && (x > m ==> x * a > m * a)
  {
    if x > m {
      assert (x - m) * a > 0.0;
    }
  }

  lemma ShareBelow(allowed: nat, n: nat)
    requires n > 0
    ensures allowed as real / n as real < 1.0 / 4096.0 <==> 4096 * allowed < n
  {
    var share, nn := allowed as real / n as real, n as real;
    assert share * nn == allowed as real;
    if share < 1.0 / 4096.0 {
      Scales(nn, 1.0 / 4096.0, share);
    } else {
      Scales(nn, share, 1.0 / 4096.0);
    }
  }

  lemma RealProduct(a: int, b: int)
    ensures a as real * b as real == (a * b) as real
  {
  }

  /** The width before it is cut to the node count. */
  function Widening(ef: nat, allowed: nat, n: nat): int {
    var share := allowed as real / (if n == 0 then 1 else n) as real;
    var selectivity := if share < 1.0 / 4096.0 then 1.0 / 4096.0 else share;
    Ceil(ef as real / selectivity)
  }

  lemma WideningAtLeast(w: nat, allowed: nat, n: nat, m: nat)
    requires allowed > 0 && 0 < m <= n
    ensures Widening(w, allowed, n) >= m <==>
            if 4096 * allowed < n then 4096 * w >= m else w * n > allowed * (m - 1)
  {
    hide Ceil;
    ShareBelow(allowed, n);
    if 4096 * allowed < n {
      CeilAtLeast(w as real / (1.0 / 4096.0), m);
    } else {
      ByShare(w as real, allowed as real, n as real, (m - 1) as real);
      CeilAtLeast(w as real / (allowed as real / n as real), m);
      RealProduct(w, n);
      RealProduct(allowed, m - 1);
    }
  }

  /** When the widened beam still holds `m` nodes. */
  lemma WidenedHolds(w: nat, allowed: nat, n: nat, m: nat)
    requires allowed > 0 && 0 < m <= n
    ensures Widened(w, allowed, n) <= n
    ensures Widened(w, allowed, n) >= m <==>
            if 4096 * allowed < n then 4096 * w >= m else w * n > allowed * (m - 1)
  {
    hide Widening;
    WideningAtLeast(w, allowed, n, m);
  }

  /** The widened beam is at least as wide as asked (or as the graph) exactly when the filter allows not many more ids
      than there are nodes; with no more ids than nodes it always is. */
  lemma WidenedIff(w: nat, allowed: nat, n: nat)
    requires w > 0 && allowed > 0 && n > 0
    ensures Widened(w, allowed, n) >= Min(w, n) <==> w * n > allowed * (Min(w, n) - 1)
    ensures allowed <= n ==> Widened(w, allowed, n) >= Min(w, n)
  {
    hide Widened;
    var m := Min(w, n);
    WidenedHolds(w, allowed, n, m);
    if allowed <= n {
      Outweighs(w, n, allowed, m);
    }
  }

  lemma Outweighs(w: nat, n: nat, a: nat, m: nat)
    requires 0 < m <= w && 0 < a <= n
    ensures w * n > a * (m - 1)
  {
    assert w * n >= w * a >= m * a > (m - 1) * a;
  }

  /** 100 nodes, 200 allowed ids, 10 hits wanted: the beam is 5 wide. */
  lemma NarrowedBelowAsked()
    ensures Widened(10, 200, 100) == 5
  {
    hide Widened;
    WidenedHolds(10, 200, 100, 5);
    WidenedHolds(10, 200, 100, 6);
  }

  lemma WidenedReaches(w: nat, allowed: nat, n: nat)
    requires allowed > 0 && n > 0 && w > 0
    ensures Widened(w, allowed, n) > 0
    ensures allowed <= n ==> Widened(w, allowed, n) >= Min(w, n)
    ensures w >= allowed && 4096 * w >= n ==> Widened(w, allowed, n) >= n
  {
    hide Widened;
    if allowed <= n {
      WidenedIff(w, allowed, n);
    }
    WidenedHolds(w, allowed, n, 1);
    Positive(w, n);
    if w >= allowed {
      WidenedHolds(w, allowed, n, n);
      Outweighs(n, w, allowed, n);
    }
  }

  lemma Positive(w: nat, n: nat)
    requires w > 0 && n > 0
    ensures w * n > 0
  {
  }

  function Allowed<Id(==)>(ids: seq<Id>, allow: set<Id>): nat -> bool {
    (x: nat) => x < |ids| && ids[x] in allow
  }

  /** Every hit is a live, admitted id with its own similarity; hits are distinct, best first, at most `k`. */
  ghost predicate HitsOk<Id>(hits: seq<(Id, real)>, ids: seq<Id>, byId: map<Id, nat>, deleted: seq<bool>,
                             dist: nat -> real, k: nat, admit: nat -> bool)
  {
    && |hits| <= k
    && (forall i: nat :: i < |hits| ==>
          && hits[i].0 in byId && byId[hits[i].0] < |deleted| && !deleted[byId[hits[i].0]]
          && admit(byId[hits[i].0]) && hits[i].1 == 1.0 - dist(byId[hits[i].0]))
    && (forall i: nat, j: nat :: i < j < |hits| ==> hits[i].0 != hits[j].0 && hits[i].1 >= hits[j].1)
  }

  /** A hit, or `k` hits are at least as near. */
  ghost predicate ShownOrBeaten<Id>(hits: seq<(Id, real)>, id: Id, similarity: real, k: nat) {
    (id, similarity) in hits || (|hits| == k && forall h :: h in hits ==> h.1 >= similarity)
  }

  /** Brute force on the component: a live admitted node reachable from `base` is a hit, or `k` hits beat it. */
  ghost predicate BestAdmitted<Id>(hits: seq<(Id, real)>, ids: seq<Id>, links: Links, deleted: seq<bool>,
                                   dist: nat -> real, k: nat, admit: nat -> bool, base: nat)
  {
    forall x: nat :: x < |links| && x < |deleted| && x < |ids| && !deleted[x] && admit(x) && Reachable(links, 0, base, x) ==>
      ShownOrBeaten(hits, ids[x], 1.0 - dist(x), k)
  }

  /** ... without a filter, */
  ghost predicate BestReachable<Id>(hits: seq<(Id, real)>, ids: seq<Id>, links: Links, deleted: seq<bool>,
                                    dist: nat -> real, k: nat, base: nat)
  {
    forall x: nat :: x < |links| && x < |deleted| && x < |ids| && !deleted[x] && Reachable(links, 0, base, x) ==>
      ShownOrBeaten(hits, ids[x], 1.0 - dist(x), k)
  }

  /** ... and under a filter by id. */
  ghost predicate BestAllowed<Id>(hits: seq<(Id, real)>, ids: seq<Id>, links: Links, deleted: seq<bool>,
                                  dist: nat -> real, k: nat, base: nat, allow: set<Id>)
  {
    forall x: nat :: x < |links| && x < |deleted| && x < |ids| && !deleted[x] && ids[x] in allow
                     && Reachable(links, 0, base, x) ==>
      ShownOrBeaten(hits, ids[x], 1.0 - dist(x), k)
  }

  lemma BestOfAll<Id>(hits: seq<(Id, real)>, ids: seq<Id>, links: Links, deleted: seq<bool>, dist: nat -> real, k: nat,
                      base: nat)
    requires BestAdmitted(hits, ids, links, deleted, dist, k, Anyone, base)
    ensures BestReachable(hits, ids, links, deleted, dist, k, base)
  {
    hide ShownOrBeaten, Reachable;
    assert forall x: nat :: Anyone(x);
  }

  lemma BestOfAllowed<Id(!new)>(hits: seq<(Id, real)>, ids: seq<Id>, links: Links, deleted: seq<bool>, dist: nat -> real,
                                k: nat, base: nat, allow: set<Id>)
    requires BestAdmitted(hits, ids, links, deleted, dist, k, Allowed(ids, allow), base)
    ensures BestAllowed(hits, ids, links, deleted, dist, k, base, allow)
  {
    hide ShownOrBeaten, Reachable;
  }

  lemma HitsAllowed<Id(!new)>(hits: seq<(Id, real)>, ids: seq<Id>, byId: map<Id, nat>, deleted: seq<bool>,
                              dist: nat -> real, k: nat, allow: set<Id>)
    requires IdsOk(ids, byId, deleted) && HitsOk(hits, ids, byId, deleted, dist, k, Allowed(ids, allow))
    ensures forall h :: h in hits ==> h.0 in allow
  {
    forall h | h in hits ensures h.0 in allow {
      var i: nat :| i < |hits| && hits[i] == h;
    }
  }

  lemma AllowedNonempty<Id>(allow: set<Id>)
    requires allow != {}
    ensures |allow| > 0
  {
  }

  predicate AdmittedAt(deleted: seq<bool>, admit: nat -> bool, x: nat)
    requires x < |deleted|
  {
    !deleted[x] && admit(x)
  }

  /** The hits are the first `k` of what a beam of width `ef` from `base` found over layer 0. */
  ghost predicate Spread<Id>(hits: seq<(Id, real)>, ids: seq<Id>, links: Links, deleted: seq<bool>, dist: nat -> real,
                             base: nat, ef: nat, k: nat, admit: nat -> bool)
  {
    |deleted| == |links| == |ids| &&
    exists found: seq<Scored>, seen ::
      && BeamResult(links, deleted, dist, base, 0, ef, false, admit, found, seen)
      && (forall s :: s in found ==> s.node < |ids|) && hits == TakeHits(found, ids, k)
  }

  lemma FoundInRange(links: Links, deleted: seq<bool>, dist: nat -> real, base: nat, ef: nat, admit: nat -> bool,
                     found: seq<Scored>, seen: set<nat>)
    requires |deleted| == |links| && BeamResult(links, deleted, dist, base, 0, ef, false, admit, found, seen)
    ensures forall s :: s in found ==> s.node < |links|
  {
  }

  /** A beam as wide as the graph, or an answer short of `k` from a beam of at least `k`, misses nothing reachable. */
  lemma ShortIsBest<Id>(hits: seq<(Id, real)>, ids: seq<Id>, links: Links, deleted: seq<bool>, dist: nat -> real,
                        base: nat, ef: nat, k: nat, admit: nat -> bool, found: seq<Scored>, seen: set<nat>)
    requires |links| == |ids| == |deleted| && base < |links|
    requires BeamResult(links, deleted, dist, base, 0, ef, false, admit, found, seen)
    requires (forall s :: s in found ==> s.node < |ids|) && hits == TakeHits(found, ids, k)
    ensures ef >= |ids| || (ef >= k && |hits| < k) ==> BestAdmitted(hits, ids, links, deleted, dist, k, admit, base)
  {
    if ef >= |ids| {
      BeamExhaustive(links, deleted, dist, base, 0, ef, false, admit, found, seen);
      TakenBest(links, found, ids, deleted, dist, k, admit, base);
    } else if ef >= k && |hits| < k {
      ShortBeamSawAll(links, deleted, dist, base, 0, ef, false, admit, found, seen);
      TakenBest(links, found, ids, deleted, dist, k, admit, base);
    }
  }

  /** A live admitted node the beam starts from is found, or beaten by as many nodes as the beam is wide. */
  lemma BaseShown<Id>(hits: seq<(Id, real)>, ids: seq<Id>, links: Links, deleted: seq<bool>, dist: nat -> real,
                      base: nat, ef: nat, k: nat, admit: nat -> bool, found: seq<Scored>, seen: set<nat>)
    requires |links| == |ids| == |deleted| && base < |links| && ef > 0 && k > 0 && AdmittedAt(deleted, admit, base)
    requires BeamResult(links, deleted, dist, base, 0, ef, false, admit, found, seen)
    requires (forall s :: s in found ==> s.node < |ids|) && hits == TakeHits(found, ids, k)
    ensures hits != [] && hits[0].1 >= 1.0 - dist(base)
    ensures ef >= k || ef >= |ids| ==> ShownOrBeaten(hits, ids[base], 1.0 - dist(base), k)
  {
    FoundOrFull(links, deleted, dist, base, ef, admit, found, seen);
    hide BeamResult;
    if |found| >= ef >= |ids| {
      FoundWhenWide(|ids|, found, dist, ef, base);
    }
    if Scored(dist(base), base) in found {
      var i: nat :| i < |found| && found[i] == Scored(dist(base), base);
      BeatenAfter(found, ids, k, i);
    } else {
      AllNearer(found, ids, k, ef, dist(base));
    }
  }

  lemma FoundOrFull(links: Links, deleted: seq<bool>, dist: nat -> real, base: nat, ef: nat, admit: nat -> bool,
                    found: seq<Scored>, seen: set<nat>)
    requires |deleted| == |links| && base < |links| && AdmittedAt(deleted, admit, base)
    requires BeamResult(links, deleted, dist, base, 0, ef, false, admit, found, seen)
    ensures Scored(dist(base), base) in found || (|found| >= ef && forall s :: s in found ==> s.dist <= dist(base))
    ensures Sorted(found) && DistinctNodes(found) && forall s :: s in found ==> s.dist == dist(s.node)
  {
    VisitedOrFull(links, deleted, dist, base, 0, ef, false, admit, found, seen, base);
  }

  /** Hits taken from nodes all at least as near are all at least as near. */
  lemma AllNearer<Id>(found: seq<Scored>, ids: seq<Id>, k: nat, ef: nat, d: real)
    requires |found| >= ef > 0 && k > 0 && forall s :: s in found ==> s.node < |ids| && s.dist <= d
    ensures var hits := TakeHits(found, ids, k);
            hits != [] && hits[0].1 >= 1.0 - d && (ef >= k ==> |hits| == k && forall h :: h in hits ==> h.1 >= 1.0 - d)
  {
    var hits := TakeHits(found, ids, k);
    forall j: nat | j < |hits| ensures hits[j].1 >= 1.0 - d {
      assert found[j] in found;
    }
  }

  /** A heap as full as a beam at least as wide as the graph misses no node. */
  lemma FoundWhenWide(n: nat, found: seq<Scored>, dist: nat -> real, ef: nat, x: nat)
    requires DistinctNodes(found) && (forall s :: s in found ==> s.node < n && s.dist == dist(s.node))
    requires |found| >= ef >= n > x
    ensures Scored(dist(x), x) in found
  {
    FullIsEverything(n, found, ef);
    assert x in NodeSet(found);
  }

  /** What `found` holds at `i` is taken, or follows everything that is. */
  lemma BeatenAfter<Id>(found: seq<Scored>, ids: seq<Id>, k: nat, i: nat)
    requires Sorted(found) && i < |found| && k > 0 && forall s :: s in found ==> s.node < |ids|
    ensures found[i].node < |ids|
    ensures var hits := TakeHits(found, ids, k);
            hits != [] && hits[0].1 >= 1.0 - found[i].dist && ShownOrBeaten(hits, ids[found[i].node], 1.0 - found[i].dist, k)
  {
    assert found[i] in found;
    var hits := TakeHits(found, ids, k);
    if i < |hits| {
      assert hits[i] == (ids[found[i].node], 1.0 - found[i].dist);
    }
  }

  function TakeHits<Id>(found: seq<Scored>, ids: seq<Id>, k: nat): (hits: seq<(Id, real)>)
    requires forall s :: s in found ==> s.node < |ids|
    ensures |hits| == if k < |found| then k else |found|
  {
    seq(if k < |found| then k else |found|,
        i requires 0 <= i < (if k < |found| then k else |found|) =>
          assert found[i] in found; (ids[found[i].node], 1.0 - found[i].dist))
  }

  lemma LengthsAgree<Id>(ids: seq<Id>, byId: map<Id, nat>, deleted: seq<bool>)
    requires IdsOk(ids, byId, deleted)
    ensures |deleted| == |ids|
  {
  }

  lemma TakenOk<Id>(links: Links, found: seq<Scored>, seen: set<nat>, ids: seq<Id>, byId: map<Id, nat>,
                    deleted: seq<bool>, dist: nat -> real, ef: nat, k: nat, admit: nat -> bool, base: nat)
    requires |links| == |ids| == |deleted| && IdsOk(ids, byId, deleted)
    requires BeamResult(links, deleted, dist, base, 0, ef, false, admit, found, seen)
    ensures forall s :: s in found ==> s.node < |ids|
    ensures HitsOk(TakeHits(found, ids, k), ids, byId, deleted, dist, k, admit)
  {
    var hits := TakeHits(found, ids, k);
    forall i: nat | i < |hits|
      ensures hits[i].0 in byId && byId[hits[i].0] == found[i].node && found[i] in found
    {
      assert found[i] in found;
    }
  }

  lemma TakenBest<Id>(links: Links, found: seq<Scored>, ids: seq<Id>, deleted: seq<bool>, dist: nat -> real,
                      k: nat, admit: nat -> bool, base: nat)
    requires |links| == |ids| == |deleted| && Sorted(found)
    requires forall s :: s in found ==> s.node < |ids|
    requires forall x: nat :: x < |links| ==>
               (Scored(dist(x), x) in found <==> Admits(deleted, false, admit, x) && Reachable(links, 0, base, x))
    ensures BestAdmitted(TakeHits(found, ids, k), ids, links, deleted, dist, k, admit, base)
  {
    hide Reachable;
    var hits := TakeHits(found, ids, k);
    forall x: nat | x < |links| && !deleted[x] && admit(x) && Reachable(links, 0, base, x)
      ensures ShownOrBeaten(hits, ids[x], 1.0 - dist(x), k)
    {
      assert Scored(dist(x), x) in found;
      var i: nat :| i < |found| && found[i] == Scored(dist(x), x);
      if k > 0 {
        BeatenAfter(found, ids, k, i);
      }
    }
  }

  /** The entry after growing by one node of the given level. */
  lemma GrownEntry(entry: Option<Entry>, links: Links, level: nat)
    requires EntryOk(entry, links)
    ensures entry.None? ==> links == []
    ensures entry.Some? ==> entry.value.node < |links| && |links[entry.value.node]| == entry.value.top + 1
    ensures var e := if entry.None? || level > entry.value.top then Some(Entry(|links|, level)) else entry;
            EntryOk(e, links + [NoLinks(level)])
  {
  }

  /**
   * At layer `l`, the new node got neighbours there: the nearest of what its construction beam visited first, each an owner
   * of the layer before, and each one's list took the node in, or was at its cap and stays there.
   */
  ghost predicate Joins(links: Links, links': Links, b: Build, m: nat, node: nat, level: nat, l: nat) {
    && Owns(links', node, l) && links'[node][l] != []
    && LedByNearest(links + [NoLinks(level)], links', b, node, l)
    && forall nb :: nb in links'[node][l] ==>
         && nb < node && Owns(links, nb, l) && Owns(links', nb, l)
         && var cap := if l == 0 then 2 * m else m;
            if |links[nb][l]| < cap then links'[nb][l] == links[nb][l] + [node] else |links'[nb][l]| == cap
  }

  lemma AttachedJoins(links: Links, links': Links, b: Build, node: nat, entry: nat, top: nat, level: nat)
    requires node == |links| && |b.deleted| == node + 1 && b.m > 0
    requires Attached(links + [NoLinks(level)], links', b, node, entry, top, level)
    ensures forall l: nat :: l <= level && l <= top ==> Joins(links, links', b, b.m, node, level, l)
  {
    hide AttachedAt, LedByNearest;
    var grown := links + [NoLinks(level)];
    forall l: nat | l <= level && l <= top ensures Joins(links, links', b, b.m, node, level, l) {
      AttachedReads(grown, links', b, node, entry, top, level, l);
      assert forall x: nat :: x < node ==> grown[x] == links[x];
    }
  }

  lemma GainsAt(links: Links, links': Links, level: nat)
    requires GainsOnly(links + [NoLinks(level)], links', |links|)
    ensures |links'| == |links| + 1 && forall x: nat :: x < |links| ==> |links'[x]| == |links[x]|
    ensures forall x: nat, l: nat, y :: x < |links| && l < |links'[x]| && y in links'[x][l]
              ==> y == |links| || y in links[x][l]
  {
    var grown := links + [NoLinks(level)];
    forall x: nat, l: nat, y | x < |links| && l < |links'[x]| && y in links'[x][l] ensures y == |links| || y in links[x][l] {
      assert Owns(grown, x, l) && grown[x] == links[x];
    }
  }

  lemma SameShapeAt(links: Links, links': Links, node: nat)
    requires SameShape(links, links') && node < |links|
    ensures |links'| == |links| && |links'[node]| == |links[node]|
    ensures forall x: nat :: x < |links| ==> |links'[x]| == |links[x]|
  {
  }

  lemma ShapeKeepsEntry(entry: Option<Entry>, links: Links, links': Links)
    requires EntryOk(entry, links) && SameShape(links, links')
    ensures EntryOk(entry, links')
  {
  }

  /** The empty neighbour lists of a fresh node: one per layer `0..=level`. */
  function NoLinks(level: nat): seq<seq<nat>> { seq(level + 1, _ => []) }

  /** The graph grown by one unlinked node. */
  lemma GrownOk(links: Links, m: nat, level: nat)
    requires LinksOk(links, m)
    ensures var grown := links + [NoLinks(level)];
            && LinksOk(grown, m)
            && forall l: nat :: Unlinked(grown, |links|, l)
  {
    var grown := links + [NoLinks(level)];
    forall x: nat, l: nat | Owns(grown, x, l) ensures ListOk(grown, m, x, l) {
      if x < |links| {
        assert Owns(links, x, l) && ListOk(links, m, x, l);
        assert forall y :: Owns(links, y, l) ==> Owns(grown, y, l);
      }
    }
    forall l: nat, x: nat | x < |grown| ensures |links| !in Nbrs(grown, x, l) {
      if x < |links| && l < |links[x]| {
        assert Owns(links, x, l) && ListOk(links, m, x, l);
      }
    }
  }
}
