/**
 * Whole runs of the ANN index.
 */
module AnnRuns {
  import opened Quant
  import opened VectorStore
  import opened GraphSearch
  import opened GraphLinks
  import opened Ann

  // Any sequence of inserts and removes keeps the graph well formed and its contents the fold of
  // the operations; a rebuild from the durable vectors has the same contents.

  datatype GraphOp<Id> = Upsert(id: Id, v: Vec, level: nat) | Delete(id: Id)

  ghost function Apply<Id>(contents: map<Id, Vec>, op: GraphOp<Id>): map<Id, Vec> {
    match op
    case Upsert(id, v, _) => contents[id := v]
    case Delete(id) => contents - {id}
  }

  /** The id-to-vector map after a sequence of operations. */
  ghost function Fold<Id>(start: map<Id, Vec>, ops: seq<GraphOp<Id>>): map<Id, Vec> {
    if ops == [] then start else Apply(Fold(start, ops[..|ops| - 1]), ops[|ops| - 1])
  }

  /** The graph is ready for vectors of dimension `dim`: none other so far, and PQ can train on them. */
  ghost predicate Ready<Id(!new)>(g: AnnIndex<Id>, dim: nat)
    reads g
  {
    && g.Valid() && (g.dim.Some? ==> g.dim.value == dim)
    && (g.store.Pq? ==> TrainsFor(g.train, dim, g.store.m))
  }

  method Step<Id(==, !new)>(g: AnnIndex<Id>, op: GraphOp<Id>, dim: nat)
    requires Ready(g, dim) && (op.Upsert? ==> |op.v| == dim)
    modifies g
    ensures Ready(g, dim) && g.store.Kind() == old(g.store.Kind())
    ensures g.Contents() == Apply(old(g.Contents()), op)
  {
    hide LinksOk, EntryOk, Attached, Joins, Store.Holds, LiveMap, TrainsFor;
    match op
    case Upsert(id, v, level) =>
      g.Insert(id, v, level);
      KindFixesM(old(g.store), g.store);
    case Delete(id) =>
      g.Remove(id);
  }

  /** Any run of inserts and removes keeps the graph valid and its contents the fold of the run. */
  method Run<Id(==, !new)>(g: AnnIndex<Id>, ops: seq<GraphOp<Id>>, dim: nat)
    requires Ready(g, dim) && forall op :: op in ops && op.Upsert? ==> |op.v| == dim
    modifies g
    ensures Ready(g, dim) && g.store.Kind() == old(g.store.Kind())
    ensures g.Contents() == Fold(old(g.Contents()), ops)
    ensures g.store.Elements() == |g.ids| * g.store.Unit(g.Dim())
  {
    ghost var start := g.Contents();
    StoredPerNode(g, dim);
    hide *;
    FoldStart(start, ops);
    for i := 0 to |ops|
      invariant Ready(g, dim) && g.store.Kind() == old(g.store.Kind())
      invariant g.Contents() == Fold(start, ops[..i])
      invariant g.store.Elements() == |g.ids| * g.store.Unit(g.Dim())
    {
      FoldStep(start, ops, i);
      assert ops[i] in ops;
      Step(g, ops[i], dim);
      StoredPerNode(g, dim);
    }
    assert ops[..|ops|] == ops;
  }

  /** A ready graph stores one unit per node, before and after PQ training. */
  lemma StoredPerNode<Id(!new)>(g: AnnIndex<Id>, dim: nat)
    requires Ready(g, dim)
    ensures g.store.Elements() == |g.ids| * g.store.Unit(g.Dim())
  {
    StorageMatchesNodes(g.store, g.Dim(), g.vecs);
  }

  lemma FoldStart<Id>(start: map<Id, Vec>, ops: seq<GraphOp<Id>>)
    ensures Fold(start, ops[..0]) == start
  {
  }

  lemma FoldStep<Id>(start: map<Id, Vec>, ops: seq<GraphOp<Id>>, i: nat)
    requires i < |ops|
    ensures Fold(start, ops[..i + 1]) == Apply(Fold(start, ops[..i]), ops[i])
  {
    assert ops[..i + 1][..i] == ops[..i];
  }

  lemma KindFixesM(a: Store, b: Store)
    requires a.Kind() == b.Kind()
    ensures a.Pq? <==> b.Pq?
    ensures a.Pq? ==> a.m == b.m
  {
  }

  // ---- live counts --------------------------------------------------------------

  ghost function LiveNodes(deleted: seq<bool>): set<nat> {
    set x | x in Below(|deleted|) && !deleted[x]
  }

  lemma LiveNodesLast(deleted: seq<bool>)
    requires deleted != []
    ensures var k := |deleted| - 1;
            var before := LiveNodes(deleted[..k]);
            k !in before && LiveNodes(deleted) == if deleted[k] then before else before + {k}
  {
  }

  lemma {:induction false} LiveNodesCount(deleted: seq<bool>)
    ensures |LiveNodes(deleted)| == CountLive(deleted)
    decreases |deleted|
  {
    if deleted == [] {
      assert LiveNodes(deleted) == {};
    } else {
      hide *;
      LiveNodesCount(deleted[..|deleted| - 1]);
      LiveNodesLast(deleted);
      CountLiveLast(deleted);
    }
  }

  lemma CountLiveLast(deleted: seq<bool>)
    requires deleted != []
    ensures CountLive(deleted) == CountLive(deleted[..|deleted| - 1]) + if deleted[|deleted| - 1] then 0 else 1
  {
  }

  ghost function IdsOf<Id(!new)>(s: set<nat>, ids: seq<Id>): set<Id> {
    set x | x in s && x < |ids| :: ids[x]
  }

  lemma {:induction false} ImageCard<Id(!new)>(s: set<nat>, ids: seq<Id>)
    requires forall x :: x in s ==> x < |ids|
    requires forall x, y :: x in s && y in s && ids[x] == ids[y] ==> x == y
    ensures |IdsOf(s, ids)| == |s|
  {
    if s == {} {
      assert IdsOf(s, ids) == {};
    } else {
      var x :| x in s;
      ImageCard(s - {x}, ids);
      assert IdsOf(s, ids) == IdsOf(s - {x}, ids) + {ids[x]};
    }
  }

  /** `live` is the number of distinct live ids: no id has two live nodes. */
  lemma LiveCountsIds<Id(!new)>(ids: seq<Id>, byId: map<Id, nat>, deleted: seq<bool>, vecs: seq<Vec>)
    requires IdsOk(ids, byId, deleted) && |vecs| == |ids|
    ensures |LiveMap(byId, deleted, vecs)| == CountLive(deleted)
  {
    var s := LiveNodes(deleted);
    LiveNodesCount(deleted);
    ImageCard(s, ids);
    forall id | id in LiveMap(byId, deleted, vecs) ensures id in IdsOf(s, ids) {
      assert byId[id] in s && ids[byId[id]] == id;
    }
    assert LiveMap(byId, deleted, vecs).Keys == IdsOf(s, ids);
  }

  // ---- rebuild ------------------------------------------------------------------

  ghost predicate DistinctRows<Id>(rows: seq<(Id, Vec)>) {
    forall i: nat, j: nat :: i < j < |rows| ==> rows[i].0 != rows[j].0
  }

  ghost function RowMap<Id>(rows: seq<(Id, Vec)>): map<Id, Vec> {
    if rows == [] then map[] else RowMap(rows[..|rows| - 1])[rows[|rows| - 1].0 := rows[|rows| - 1].1]
  }

  /** Inserting an id the graph has never seen adds one live node. */
  method InsertFresh<Id(==, !new)>(g: AnnIndex<Id>, id: Id, v: Vec, level: nat)
    requires Ready(g, |v|) && id !in g.byId
    modifies g
    ensures Ready(g, |v|) && g.store.Kind() == old(g.store.Kind())
    ensures g.Contents() == old(g.Contents())[id := v]
    ensures g.live == old(g.live) + 1 && |g.ids| == |old(g.ids)| + 1 && g.byId.Keys == old(g.byId.Keys) + {id}
  {
    hide AnnIndex.Valid, AnnIndex.Contents, Attached, Joins, CountLive, TrainsFor;
    ghost var deleted := g.deleted;
    LiveIsCount(g);
    g.Insert(id, v, level);
    KindFixesM(old(g.store), g.store);
    LiveIsCount(g);
    CountLivePush(deleted);
  }

  lemma LiveIsCount<Id(!new)>(g: AnnIndex<Id>)
    requires g.Valid()
    ensures g.live == CountLive(g.deleted)
  {
  }

  ghost function RowIds<Id(!new)>(rows: seq<(Id, Vec)>): set<Id> { set r | r in rows :: r.0 }

  /** Rebuild from the vector table: its rows become the contents, one node each, no tombstones. */
  method Rebuild<Id(==, !new)>(rows: seq<(Id, Vec)>, dim: nat, levels: seq<nat>, m: nat, efConstruction: nat,
                         efSearch: nat, quantizer: Quantizer, train: Trainer, unit: nat -> real)
    returns (g: AnnIndex<Id>)
    requires |levels| == |rows| && DistinctRows(rows)
    requires forall i: nat :: i < |rows| ==> |rows[i].1| == dim
    requires quantizer.ProductCodes? ==> TrainsFor(train, dim, quantizer.m)
    ensures fresh(g) && g.Valid() && g.store.Kind() == quantizer
    ensures g.Contents() == RowMap(rows)
    ensures g.live == |g.ids| == |rows|
  {
    g := new AnnIndex(m, efConstruction, efSearch, quantizer, train, unit);
    hide AnnIndex.Valid, AnnIndex.Contents, TrainsFor;
    for i := 0 to |rows|
      invariant fresh(g) && Ready(g, dim) && g.store.Kind() == quantizer
      invariant g.Contents() == RowMap(rows[..i])
      invariant g.live == |g.ids| == i && g.byId.Keys == RowIds(rows[..i])
    {
      assert rows[..i + 1] == rows[..i] + [rows[i]];
      assert rows[i].0 !in RowIds(rows[..i]) by {
        forall r | r in rows[..i] ensures r.0 != rows[i].0 {
          var j: nat :| j < i && rows[j] == r;
        }
      }
      InsertFresh(g, rows[i].0, rows[i].1, levels[i]);
      assert RowIds(rows[..i + 1]) == RowIds(rows[..i]) + {rows[i].0};
    }
    assert rows[..|rows|] == rows;
  }
}
