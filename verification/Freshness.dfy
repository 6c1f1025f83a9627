/**
 * The persisted graph, and when it is fresh.
 */
module Freshness {
  import opened Wrappers
  import opened PendingSet

  // A blob is tagged with the changefeed sequence it was captured at, and trusted on open only when
  // the tag equals the live sequence. The system adds to the pending-set system the durable vector
  // table, the feed sequence, the committed operations a writer has not pushed yet, and the blob.

  /** A graph's contents with the feed sequence they were taken at. */
  datatype Blob<Id, V> = Blob(tag: nat, contents: map<Id, V>)

  /** `captured` is a structure on its way to disk, `rebuilt` a compacted graph waiting to be swapped in. */
  datatype Estate<Id, V> = Estate(y: Sys<Id, V>, vecs: map<Id, V>, feedSeq: nat, unpushed: seq<(Id, Op<V>)>,
                                  blob: Option<Blob<Id, V>>, captured: Option<Blob<Id, V>>, rebuilt: Option<Blob<Id, V>>)

  datatype EStep<Id, V> =
    | Commit(ops: seq<(Id, Op<V>)>, rows: nat)
    | PushNext
    | PushAgain(id: Id)
    | Thread(step: Step<Id, V>)
    | Capture
    | Persist
    | Rebuild(since: nat, contents: map<Id, V>)
    | Swap
    | Reopen

  /** `load_persisted_graph`, else the rebuild from the vector table. */
  ghost function Loaded<Id, V>(blob: Option<Blob<Id, V>>, vecs: map<Id, V>, feedSeq: nat): map<Id, V> {
    if blob.Some? && blob.value.tag == feedSeq then blob.value.contents else vecs
  }

  /** A freshly opened pending set over a loaded graph. */
  ghost function Opened<Id, V>(graph: map<Id, V>): Sys<Id, V> {
    Sys(State([], map[], map[], false, false), graph, Idle, map[], graph)
  }

  /** Every id a writer has queued already stands in the graph as its last queued operation leaves it. */
  ghost predicate AlreadyThere<Id(!new), V>(graph: map<Id, V>, queued: seq<(Id, Op<V>)>) {
    forall id :: id in OpsOf(queued) ==> OpsOf(queued)[id] == if id in graph then Some(graph[id]) else None
  }

  ghost predicate EInit<Id, V>(e: Estate<Id, V>) {
    e == Estate(Opened(map[]), map[], 0, [], None, None, None)
  }

  ghost predicate ENext<Id(!new), V>(e: Estate<Id, V>, step: EStep<Id, V>, f: Estate<Id, V>) {
    match step
    case Commit(ops, rows) => // the durable batch lands; a batch that changes a vector has a feed row
      && e.unpushed == [] && (ApplyAll(e.vecs, ops) != e.vecs ==> rows > 0)
      && f == e.(vecs := ApplyAll(e.vecs, ops), feedSeq := e.feedSeq + rows, unpushed := ops)
    case PushNext =>
      && e.unpushed != []
      && var (id, op) := e.unpushed[0];
         && Next(e.y, PushStep(id, op), f.y)
         && f == e.(y := f.y, unpushed := e.unpushed[1..])
    case PushAgain(id) => // a removal pushed outside any commit
      Harmless(e, id) && PushedAgain(e, id, f)
    case Thread(step) =>
      !step.PushStep? && Next(e.y, step, f.y) && f == e.(y := f.y)
    case Capture => // under the graph read lock, with no backlog and no write still to be pushed
      && e.y.s.Backlog() == 0 && AlreadyThere(e.y.graph, e.unpushed)
      && f == e.(captured := Some(Blob(e.feedSeq, e.y.graph)))
    case Persist => // the blob reaches the disk at any later time
      e.captured.Some? && f == e.(blob := e.captured, captured := None)
    case Rebuild(since, contents) => // read lock-free from the vector table, which writers may have moved meanwhile
      && since <= e.feedSeq && (since == e.feedSeq ==> contents == e.vecs)
      && f == e.(rebuilt := Some(Blob(since, contents)))
    case Swap => // under the graph write lock, if the feed stands where the rebuild began and nothing is pending
      && e.rebuilt.Some? && e.rebuilt.value.tag == e.feedSeq && e.y.s.Backlog() == 0 && e.y.readers == map[]
      && f == e.(y := e.y.(graph := e.rebuilt.value.contents, pushed := e.rebuilt.value.contents), rebuilt := None)
    case Reopen => // a crash or a clean restart: in-memory state is lost
      f == e.(y := Opened(Loaded(e.blob, e.vecs, e.feedSeq)), unpushed := [], captured := None, rebuilt := None)
  }

  ghost predicate PushedAgain<Id(!new), V>(e: Estate<Id, V>, id: Id, f: Estate<Id, V>) {
    Next(e.y, PushStep(id, None), f.y) && f == e.(y := f.y)
  }

  /** The id has no row in the vector table, or the writer that gave it one has still to push it. */
  ghost predicate Harmless<Id(!new), V>(e: Estate<Id, V>, id: Id) {
    id !in e.vecs || id in OpsOf(e.unpushed)
  }

  /** What a tagged copy of the contents is good for while its tag is the current sequence. */
  ghost predicate TagOk<Id(!new), V>(b: Option<Blob<Id, V>>, vecs: map<Id, V>, feedSeq: nat) {
    b.Some? ==> b.value.tag <= feedSeq && (b.value.tag == feedSeq ==> b.value.contents == vecs)
  }

  ghost predicate EInv<Id(!new), V>(e: Estate<Id, V>) {
    && Inv(e.y)
    && ApplyAll(e.y.pushed, e.unpushed) == e.vecs
    && TagOk(e.blob, e.vecs, e.feedSeq) && TagOk(e.captured, e.vecs, e.feedSeq) && TagOk(e.rebuilt, e.vecs, e.feedSeq)
  }

  lemma OpenedInv<Id(!new), V>(graph: map<Id, V>)
    ensures Inv(Opened(graph))
  {
    ViewNothing(graph);
  }

  /** Pushing the first of a batch first: the rest still leads to the same map. */
  lemma {:induction false} ApplyHead<Id, V>(graph: map<Id, V>, ops: seq<(Id, Op<V>)>)
    requires ops != []
    ensures ApplyAll(graph, ops) == ApplyAll(ApplyOp(graph, ops[0].0, ops[0].1), ops[1..])
    decreases |ops|
  {
    var k := |ops| - 1;
    if k == 0 {
      assert ops[..k] == [] && ops[1..] == [];
    } else {
      ApplyHead(graph, ops[..k]);
      assert ops[..k][1..] == ops[1..][..k - 1];
      assert ops[1..][k - 1] == ops[k];
    }
  }

  /** With no backlog the graph is what the pushes fold to. */
  lemma NoBacklog<Id(!new), V>(y: Sys<Id, V>)
    requires Inv(y) && y.s.Backlog() == 0
    ensures y.graph == y.pushed && y.s.Overlay() == map[]
  {
    assert y.s.latest == map[] by {
      forall id ensures id !in y.s.latest {
      }
    }
    ViewNothing(y.graph);
  }

  /** Applying a batch to what it already led to changes nothing. */
  lemma ApplyTwice<Id(!new), V>(graph: map<Id, V>, ops: seq<(Id, Op<V>)>)
    ensures ApplyAll(ApplyAll(graph, ops), ops) == ApplyAll(graph, ops)
  {
    ApplyIsView(graph, ops);
    ApplyIsView(ApplyAll(graph, ops), ops);
    ViewTwice(graph, OpsOf(ops));
  }

  lemma AlreadyThereIff<Id(!new), V>(graph: map<Id, V>, queued: seq<(Id, Op<V>)>)
    ensures ApplyAll(graph, queued) == graph <==> AlreadyThere(graph, queued)
  {
    ApplyIsView(graph, queued);
    var ops := OpsOf(queued);
    var seen := View(graph, ops);
    assert forall id :: id in ops ==> (id in seen <==> ops[id].Some?) && (id in seen ==> seen[id] == ops[id].value);
    assert forall id :: id !in ops ==> (id in seen <==> id in graph) && (id in seen ==> seen[id] == graph[id]);
    if AlreadyThere(graph, queued) {
      assert forall id :: id in seen <==> id in graph;
      assert seen == graph;
    }
  }

  lemma SwapInv<Id(!new), V>(e: Estate<Id, V>, f: Estate<Id, V>)
    requires EInv(e) && ENext(e, EStep.Swap, f)
    ensures EInv(f) && f.y.graph == e.vecs
  {
    NoBacklog(e.y);
    ViewNothing(f.y.graph);
    ApplyTwice(e.y.pushed, e.unpushed);
    SwappedInv(e.y, f.y);
  }

  lemma SwappedInv<Id(!new), V>(y: Sys<Id, V>, z: Sys<Id, V>)
    requires Inv(y) && y.s.Backlog() == 0 && y.readers == map[] && y.s.Overlay() == map[]
    requires z == y.(graph := z.graph, pushed := z.graph)
    ensures Inv(z)
  {
    ViewNothing(z.graph);
  }

  /** The second push of a removal keeps the graph on its way to the vector table exactly when it is harmless. */
  lemma PushAgainIff<Id(!new), V>(e: Estate<Id, V>, id: Id, f: Estate<Id, V>)
    requires EInv(e) && PushedAgain(e, id, f)
    ensures EInv(f) <==> Harmless(e, id)
    ensures !Harmless(e, id) ==> id in f.vecs && id !in ApplyAll(f.y.pushed, f.unpushed)
  {
    hide Inv, Next;
    NextInv(e.y, PushStep(id, None), f.y);
    assert f.y.pushed == e.y.pushed - {id} by {
      PushedFold(e.y, id, f.y);
    }
    var ops := OpsOf(e.unpushed);
    ApplyIsView(e.y.pushed, e.unpushed);
    ApplyIsView(f.y.pushed, e.unpushed);
    var was, now := View(e.y.pushed, ops), View(f.y.pushed, ops);
    assert forall x :: x != id || x in ops ==> (x in was <==> x in now) && (x in was ==> was[x] == now[x]);
    assert id !in ops ==> id !in now;
    if Harmless(e, id) {
      assert forall x :: x in was <==> x in now;
      assert was == now;
    }
  }

  lemma PushedFold<Id(!new), V>(y: Sys<Id, V>, id: Id, z: Sys<Id, V>)
    requires Next(y, PushStep(id, None), z)
    ensures z.pushed == y.pushed - {id}
  {
  }

  lemma ENextInv<Id(!new), V>(e: Estate<Id, V>, step: EStep<Id, V>, f: Estate<Id, V>)
    requires EInv(e) && ENext(e, step, f)
    ensures EInv(f)
  {
    hide Inv, View, OpsOf;
    match step
    case Commit(ops, rows) =>
      assert e.y.pushed == e.vecs;
    case PushNext =>
      var (id, op) := e.unpushed[0];
      NextInv(e.y, PushStep(id, op), f.y);
      ApplyHead(e.y.pushed, e.unpushed);
    case PushAgain(id) =>
      PushAgainIff(e, id, f);
    case Thread(inner) =>
      NextInv(e.y, inner, f.y);
      assert f.y.pushed == e.y.pushed;
    case Capture =>
      NoBacklog(e.y);
      AlreadyThereIff(e.y.graph, e.unpushed);
    case Persist =>
    case Rebuild(since, contents) =>
    case Swap =>
      SwapInv(e, f);
    case Reopen =>
      OpenedInv(Loaded(e.blob, e.vecs, e.feedSeq));
  }

  ghost predicate EIsRun<Id(!new), V>(es: seq<Estate<Id, V>>, steps: seq<EStep<Id, V>>) {
    && |es| == |steps| + 1 && EInit(es[0])
    && forall i: nat :: i < |steps| ==> ENext(es[i], steps[i], es[i + 1])
  }

  lemma {:induction false} ERunInv<Id(!new), V>(es: seq<Estate<Id, V>>, steps: seq<EStep<Id, V>>, i: nat)
    requires EIsRun(es, steps) && i < |es|
    ensures EInv(es[i])
  {
    if i == 0 {
      OpenedInv<Id, V>(map[]);
    } else {
      ERunInv(es, steps, i - 1);
      ENextInv(es[i - 1], steps[i - 1], es[i]);
    }
  }

  /**
   * A loaded graph is never stale: over every run of commits, pushes, applier steps, payload edits,
   * captures and later persists, lock-free rebuilds and swaps, crashes and reopens, the graph an
   * open starts from holds exactly the id-to-vector map of the vector table.
   */
  lemma LoadedIsFresh<Id(!new), V>(es: seq<Estate<Id, V>>, steps: seq<EStep<Id, V>>, i: nat)
    requires EIsRun(es, steps) && i < |es|
    ensures Loaded(es[i].blob, es[i].vecs, es[i].feedSeq) == es[i].vecs
    ensures es[i].blob.Some? && es[i].blob.value.tag == es[i].feedSeq ==> es[i].blob.value.contents == es[i].vecs
  {
    ERunInv(es, steps, i);
  }

  /** A compaction that finds the feed where its rebuild began swaps in exactly the vector table, writers between
      their commit and their pushes included; without one the contents are what they were. */
  lemma CompactionKeepsContents<Id(!new), V>(e: Estate<Id, V>, f: Estate<Id, V>)
    requires EInv(e) && ENext(e, EStep.Swap, f)
    ensures f.y.graph == e.vecs && EInv(f)
    ensures e.unpushed == [] ==> f.y.graph == e.y.graph
  {
    SwapInv(e, f);
    NoBacklog(e.y);
  }

  /**
   * Capturing when the backlog reads zero but a writer has committed and not yet pushed is right exactly
   * when every id the writer queued already stands in the graph as its last queued operation leaves it.
   */
  lemma PersistWithWriterIff<Id(!new), V>(e: Estate<Id, V>)
    requires EInv(e) && e.y.s.Backlog() == 0
    ensures Loaded(Some(Blob(e.feedSeq, e.y.graph)), e.vecs, e.feedSeq) == e.vecs <==> AlreadyThere(e.y.graph, e.unpushed)
  {
    NoBacklog(e.y);
    AlreadyThereIff(e.y.graph, e.unpushed);
  }

  /**
   * The quiescence a capture needs is real: one commit caught between its durable
   * write and its push leaves backlog zero and a graph that is not the vector table,
   * so a blob tagged with the new sequence would be trusted and stale.
   */
  lemma RacingPersistIsStale(v: int)
    ensures exists e: Estate<int, int>, f: Estate<int, int>, step ::
              && EInit(e) && ENext(e, step, f)
              && f.y.s.Backlog() == 0
              && Loaded(Some(Blob(f.feedSeq, f.y.graph)), f.vecs, f.feedSeq) != f.vecs
  {
    var e: Estate<int, int> := Estate(Opened(map[]), map[], 0, [], None, None, None);
    var ops: seq<(int, Op<int>)> := [(0, Some(v))];
    var f := e.(vecs := ApplyAll(e.vecs, ops), feedSeq := 1, unpushed := ops);
    assert ops[..0] == [];
    assert ApplyAll(e.vecs, ops) == map[0 := v];
    assert ENext(e, Commit(ops, 1), f);
    assert 0 in f.vecs && 0 !in f.y.graph;
  }
}
