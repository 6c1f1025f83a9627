/**
 * One round of the applier thread.
 */
module Applier {
  import opened Wrappers
  import opened Quant
  import opened VectorStore
  import opened Ann
  import opened AnnRuns
  import opened PendingSet

  // Collect a batch, apply it to the graph in order, forget it. Levels of new nodes are drawn by `level`.

  /** Every operation on the way to the graph has the graph's dimension. */
  ghost predicate Fits<Id(!new)>(ops: map<Id, PendingSet.Op<Vec>>, dim: nat) {
    forall id :: id in ops && ops[id].Some? ==> |ops[id].value| == dim
  }

  ghost predicate BatchFits<Id(!new)>(batch: seq<(Id, PendingSet.Op<Vec>)>, dim: nat) {
    forall i: nat :: i < |batch| && batch[i].1.Some? ==> |batch[i].1.value| == dim
  }

  lemma CollectedFits<Id(!new)>(s: State<Id, Vec>, dim: nat)
    requires Fits(s.latest, dim)
    ensures BatchFits(Collected(s).batch, dim)
  {
    hide CollectFrom, MovedOut, Taken;
    CollectedIs(s);
    BatchOfLatest(s, Collected(s).s, Collected(s).batch);
  }

  lemma BatchOfLatest<Id(!new)>(s: State<Id, Vec>, s': State<Id, Vec>, batch: seq<(Id, PendingSet.Op<Vec>)>)
    requires Collects(s, s', batch)
    ensures forall i: nat :: i < |batch| ==> batch[i].0 in s.latest && batch[i].1 == s.latest[batch[i].0]
  {
  }

  /** Apply a batch under the graph's write lock. */
  method ApplyBatch<Id(==, !new)>(g: AnnIndex<Id>, batch: seq<(Id, PendingSet.Op<Vec>)>, dim: nat, level: nat -> nat)
    requires Ready(g, dim) && BatchFits(batch, dim)
    modifies g
    ensures Ready(g, dim) && g.Contents() == ApplyAll(old(g.Contents()), batch)
  {
    ghost var start := g.Contents();
    hide AnnIndex.Valid, AnnIndex.Contents, TrainsFor, ApplyAll, Ready, ApplyOp;
    ApplyNone(start, batch);
    for i := 0 to |batch|
      invariant Ready(g, dim) && g.Contents() == ApplyAll(start, batch[..i])
    {
      ApplySnoc(start, batch, i);
      ApplyOne(g, batch[i].0, batch[i].1, dim, level(i));
    }
    assert batch[..|batch|] == batch;
  }

  method ApplyOne<Id(==, !new)>(g: AnnIndex<Id>, id: Id, op: PendingSet.Op<Vec>, dim: nat, level: nat)
    requires Ready(g, dim) && (op.Some? ==> |op.value| == dim)
    modifies g
    ensures Ready(g, dim) && g.Contents() == ApplyOp(old(g.Contents()), id, op)
  {
    hide AnnIndex.Valid, AnnIndex.Contents, TrainsFor;
    match op
    case Some(v) => AnnRuns.Step(g, Upsert(id, v, level), dim);
    case None => AnnRuns.Step(g, Delete(id), dim);
  }

  lemma ApplyNone<Id, V>(graph: map<Id, V>, batch: seq<(Id, PendingSet.Op<V>)>)
    ensures ApplyAll(graph, batch[..0]) == graph
  {
  }

  lemma ApplySnoc<Id, V>(graph: map<Id, V>, batch: seq<(Id, PendingSet.Op<V>)>, i: nat)
    requires i < |batch|
    ensures ApplyAll(graph, batch[..i + 1]) == ApplyOp(ApplyAll(graph, batch[..i]), batch[i].0, batch[i].1)
  {
    assert batch[..i + 1][..i] == batch[..i];
  }

  /**
   * One round: the waiting operations reach the graph in batch order, nothing is in flight afterwards, and what the graph
   * shows under the overlay is what it showed before. It answers whether the thread goes on.
   */
  method Round<Id(==, !new)>(p: Pending<Id, Vec>, g: AnnIndex<Id>, dim: nat, level: nat -> nat) returns (goesOn: bool)
    requires Ready(g, dim) && Fits(p.latest, dim) && QueueCovers(p.Now())
    requires p.inflight == map[] && !p.applying && (p.queue != [] || p.stopped)
    modifies p, g
    ensures goesOn <==> !old(p.stopped)
    ensures Ready(g, dim) && Fits(p.latest, dim) && QueueCovers(p.Now()) && p.inflight == map[] && !p.applying
    ensures !goesOn ==> p.Now() == old(p.Now()) && g.Contents() == old(g.Contents())
    ensures goesOn ==> |p.queue| < |old(p.queue)|
    ensures View(g.Contents(), p.Now().Overlay()) == old(View(g.Contents(), p.Now().Overlay()))
    ensures goesOn && p.queue == [] ==> g.Contents() == old(View(g.Contents(), p.Now().Overlay()))
  {
    hide AnnIndex.Valid, AnnIndex.Contents, TrainsFor, CollectFrom, Collects, View, ApplyAll, BatchFits;
    ghost var s, before := p.Now(), g.Contents();
    CollectedFits(s, dim);
    CollectedOverlay(s, dim);
    var batch := p.CollectBatch();
    if batch == None {
      return false;
    }
    ApplyBatch(g, batch.value, dim, level);
    RoundView(s, before, batch.value);
    p.FinishBatch();
    assert p.Now().Overlay() == p.latest;
    if p.queue == [] {
      assert p.latest == map[] by {
        forall id ensures id !in p.latest {
          assert QueueCovers(p.Now());
        }
      }
      ViewNothing(g.Contents());
    }
    goesOn := true;
  }

  lemma CollectedOverlay<Id(!new)>(s: State<Id, Vec>, dim: nat)
    requires QueueCovers(s) && s.inflight == map[] && Fits(s.latest, dim)
    ensures var c := Collected(s);
            && QueueCovers(c.s) && c.s.Overlay() == s.Overlay() && c.s.inflight == OpsOf(c.batch) && Fits(c.s.latest, dim)
            && (s.queue != [] ==> |c.s.queue| < |s.queue|)
  {
    assert OpsOf<Id, Vec>([]) == map[];
    CollectKeeps(Collecting(s, []));
    CollectedIs(s);
    LatestShrinks(s, Collected(s).s, Collected(s).batch);
  }

  lemma LatestShrinks<Id(!new)>(s: State<Id, Vec>, s': State<Id, Vec>, batch: seq<(Id, PendingSet.Op<Vec>)>)
    requires Collects(s, s', batch)
    ensures forall id :: id in s'.latest ==> id in s.latest && s'.latest[id] == s.latest[id]
    ensures s.queue != [] ==> |s'.queue| < |s.queue|
  {
    forall id | id in s'.latest ensures id in s.latest && s'.latest[id] == s.latest[id] {
      assert MovedAt(s, |s.queue| - |s'.queue|, s', id);
    }
  }

  /** What the batch put into the graph is what the overlay showed of it. */
  lemma RoundView<Id(!new)>(s: State<Id, Vec>, before: map<Id, Vec>, batch: seq<(Id, PendingSet.Op<Vec>)>)
    requires batch == Collected(s).batch && QueueCovers(s) && s.inflight == map[]
    ensures View(ApplyAll(before, batch), Collected(s).s.latest) == View(before, s.Overlay())
  {
    hide View, ApplyAll, CollectFrom;
    var c := Collected(s);
    assert OpsOf<Id, Vec>([]) == map[];
    CollectKeeps(Collecting(s, []));
    ApplyIsView(before, batch);
    ViewCompose(before, c.s.inflight, c.s.latest);
  }
}
