/**
 * The pending set.
 */
module PendingSet {
  import opened Wrappers

  // Out-of-band graph apply: what lies between the durable write and the graph. The class holds the
  // mutex-guarded state and its operations. The step system interleaves pushes, the applier's three
  // phases, and searches that hold the graph read lock.

  /** Backpressure cap and applier batch size. */
  const PENDING_CAP: nat := 200_000
  const APPLY_BATCH: nat := 512

  /** A pending operation: `Some` upserts a vector, `None` removes. */
  type Op<V> = Option<V>

  /** What a graph holding `graph` answers once the operations in `ops` are applied. */
  ghost function View<Id(!new), V>(graph: map<Id, V>, ops: map<Id, Op<V>>): map<Id, V> {
    map id | id in graph.Keys + ops.Keys && (id in ops ==> ops[id].Some?) ::
      if id in ops then ops[id].value else graph[id]
  }

  /** One operation applied to a graph. */
  function ApplyOp<Id, V>(graph: map<Id, V>, id: Id, op: Op<V>): map<Id, V> {
    match op
    case Some(v) => graph[id := v]
    case None => graph - {id}
  }

  function ApplyAll<Id, V>(graph: map<Id, V>, batch: seq<(Id, Op<V>)>): map<Id, V> {
    if batch == [] then graph
    else
      var last := batch[|batch| - 1];
      ApplyOp(ApplyAll(graph, batch[..|batch| - 1]), last.0, last.1)
  }

  /** The last operation of a batch on each id. */
  function OpsOf<Id, V>(batch: seq<(Id, Op<V>)>): map<Id, Op<V>> {
    if batch == [] then map[]
    else OpsOf(batch[..|batch| - 1])[batch[|batch| - 1].0 := batch[|batch| - 1].1]
  }

  /** Applying a batch in order is overriding the graph with its operations. */
  lemma {:induction false} ApplyIsView<Id(!new), V>(graph: map<Id, V>, batch: seq<(Id, Op<V>)>)
    ensures ApplyAll(graph, batch) == View(graph, OpsOf(batch))
    decreases |batch|
  {
    if batch == [] {
      assert View(graph, OpsOf(batch)) == graph;
    } else {
      ApplyIsView(graph, batch[..|batch| - 1]);
      ViewPush(graph, OpsOf(batch[..|batch| - 1]), batch[|batch| - 1].0, batch[|batch| - 1].1);
    }
  }

  /** A newer operation on one id is an operation on the answer. */
  lemma ViewPush<Id(!new), V>(graph: map<Id, V>, ops: map<Id, Op<V>>, id: Id, op: Op<V>)
    ensures View(graph, ops[id := op]) == ApplyOp(View(graph, ops), id, op)
  {
  }

  /** Layered overlays compose: the later one wins. */
  lemma ViewCompose<Id(!new), V>(graph: map<Id, V>, older: map<Id, Op<V>>, newer: map<Id, Op<V>>)
    ensures View(View(graph, older), newer) == View(graph, older + newer)
  {
  }

  // ---- the guarded state --------------------------------------------------------

  datatype State<Id, V> = State(queue: seq<Id>, latest: map<Id, Op<V>>, inflight: map<Id, Op<V>>,
                                applying: bool, stopped: bool)
  {
    /** What the overlay shows: `latest` wins over `inflight`. */
    function Overlay(): map<Id, Op<V>> { inflight + latest }

    function Push(id: Id, op: Op<V>): State<Id, V> {
      this.(queue := queue + [id], latest := latest[id := op])
    }

    /** The guard a blocked upsert waits for. */
    predicate MayPushUpsert() { |queue| < PENDING_CAP || stopped }

    predicate Settled() { queue == [] && !applying && inflight == map[] }

    function Backlog(): nat { |queue| + if applying then 1 else 0 }
  }

  /** A collection in progress: the state and the batch moved out so far. */
  datatype Collecting<Id, V> = Collecting(s: State<Id, V>, batch: seq<(Id, Op<V>)>)

  /** Pop queue entries until the batch is full; a repeated entry finds nothing the second time. */
  function CollectFrom<Id, V>(c: Collecting<Id, V>): Collecting<Id, V>
    decreases |c.s.queue|
  {
    if |c.batch| >= APPLY_BATCH || c.s.queue == [] then c
    else
      var id := c.s.queue[0];
      var s := c.s.(queue := c.s.queue[1..]);
      if id in s.latest then
        var op := s.latest[id];
        CollectFrom(Collecting(s.(latest := s.latest - {id}, inflight := s.inflight[id := op]), c.batch + [(id, op)]))
      else CollectFrom(Collecting(s, c.batch))
  }

  function Collected<Id, V>(s: State<Id, V>): Collecting<Id, V> {
    var c := CollectFrom(Collecting(s, []));
    c.(s := c.s.(applying := true))
  }

  /** Every latest operation has a queue entry, so a drained queue means nothing is waiting. */
  ghost predicate QueueCovers<Id(!new), V>(s: State<Id, V>) {
    forall id :: id in s.latest ==> id in s.queue
  }

  /** One operation moved out of `latest`. */
  function Moved<Id, V>(s: State<Id, V>, id: Id): State<Id, V>
    requires id in s.latest
  {
    s.(latest := s.latest - {id}, inflight := s.inflight[id := s.latest[id]])
  }

  lemma MovedOk<Id(!new), V>(s: State<Id, V>, id: Id, batch: seq<(Id, Op<V>)>)
    requires id in s.latest && s.inflight == OpsOf(batch)
    requires forall x :: x in s.latest ==> x == id || x in s.queue
    ensures QueueCovers(Moved(s, id)) && Moved(s, id).Overlay() == s.Overlay()
    ensures Moved(s, id).inflight == OpsOf(batch + [(id, s.latest[id])])
  {
    assert (batch + [(id, s.latest[id])])[..|batch|] == batch;
  }

  /** Collecting moves operations from `latest` to `inflight` without changing what the overlay shows. */
  lemma {:induction false} CollectKeeps<Id(!new), V>(c: Collecting<Id, V>)
    requires QueueCovers(c.s) && c.s.inflight == OpsOf(c.batch)
    ensures var d := CollectFrom(c);
            && QueueCovers(d.s) && d.s.inflight == OpsOf(d.batch)
            && d.s.Overlay() == c.s.Overlay()
            && d.s.applying == c.s.applying && d.s.stopped == c.s.stopped
            && |d.batch| <= (if |c.batch| < APPLY_BATCH then APPLY_BATCH else |c.batch|)
    decreases |c.s.queue|
  {
    hide OpsOf;
    if |c.batch| >= APPLY_BATCH || c.s.queue == [] {
    } else {
      var id := c.s.queue[0];
      var s := c.s.(queue := c.s.queue[1..]);
      assert c.s.queue == [id] + s.queue;
      if id in s.latest {
        var op := s.latest[id];
        var moved := Collecting(Moved(s, id), c.batch + [(id, op)]);
        MovedOk(s, id, c.batch);
        assert s.Overlay() == c.s.Overlay();
        CollectKeeps(moved);
      } else {
        assert s.Overlay() == c.s.Overlay();
        CollectKeeps(Collecting(s, c.batch));
      }
    }
  }

  // ---- what a collected batch is ---------------------------------------------------

  /** The position of the first entry for `id`. */
  function FirstAt<Id(==)>(queue: seq<Id>, id: Id): (i: nat)
    ensures i <= |queue| && (i < |queue| ==> queue[i] == id)
    ensures forall j: nat :: j < i ==> queue[j] != id
  {
    if queue == [] || queue[0] == id then 0
    else
      var i := FirstAt(queue[1..], id);
      assert forall j: nat :: 0 < j < i + 1 ==> queue[j] == queue[1..][j - 1];
      i + 1
  }

  ghost predicate InBatch<Id, V>(batch: seq<(Id, Op<V>)>, id: Id) {
    exists i: nat :: i < |batch| && batch[i].0 == id
  }

  /** An operation waits on `id`, and the first `n` queue entries name it. */
  ghost predicate Taken<Id(!new), V>(s: State<Id, V>, n: nat, id: Id) {
    id in s.latest && FirstAt(s.queue, id) < n
  }

  /** The batch is exactly the operations waiting on the first `n` entries, each once, in the order of those entries. */
  ghost predicate BatchIs<Id(!new), V>(s: State<Id, V>, n: nat, batch: seq<(Id, Op<V>)>) {
    && (forall i: nat :: i < |batch| ==> Taken(s, n, batch[i].0) && batch[i].1 == s.latest[batch[i].0])
    && (forall i: nat, j: nat :: i < j < |batch| ==> FirstAt(s.queue, batch[i].0) < FirstAt(s.queue, batch[j].0))
    && (forall id :: Taken(s, n, id) ==> InBatch(batch, id))
  }

  /** `latest` loses exactly the operations taken, and they are in flight. */
  ghost predicate MovedOut<Id(!new), V>(s: State<Id, V>, n: nat, s': State<Id, V>) {
    && n <= |s.queue| && s'.queue == s.queue[n..] && s'.stopped == s.stopped
    && forall id :: MovedAt(s, n, s', id)
  }

  ghost predicate MovedAt<Id(!new), V>(s: State<Id, V>, n: nat, s': State<Id, V>, id: Id) {
    && (id in s'.latest <==> id in s.latest && !Taken(s, n, id))
    && (id in s'.latest ==> s'.latest[id] == s.latest[id])
    && (id in s'.inflight <==> id in s.inflight || Taken(s, n, id))
    && (id in s'.inflight ==> s'.inflight[id] == if Taken(s, n, id) then s.latest[id] else s.inflight[id])
  }

  /** A whole collection: as many entries as it takes to fill a batch of 512, or all there are. */
  ghost predicate Collects<Id(!new), V>(s: State<Id, V>, s': State<Id, V>, batch: seq<(Id, Op<V>)>) {
    && s'.applying && |batch| <= 512 && (|batch| == 512 || s'.queue == [])
    && |s'.queue| <= |s.queue| && (s.queue != [] ==> |s'.queue| < |s.queue|)
    && var n := |s.queue| - |s'.queue|;
       && MovedOut(s, n, s') && BatchIs(s, n, batch)
       && (|batch| == 512 ==> n > 0 && s.queue[n - 1] == batch[511].0)
  }

  /** One more entry takes the operation waiting on it, if it is the first to name it. */
  lemma TakenNext<Id(!new), V>(s: State<Id, V>, n: nat)
    requires n < |s.queue|
    ensures forall id :: Taken(s, n + 1, id) <==> Taken(s, n, id) || (id == s.queue[n] && id in s.latest)
    ensures s.queue[n] in s.latest && !Taken(s, n, s.queue[n]) ==> FirstAt(s.queue, s.queue[n]) == n
  {
  }

  lemma BatchSkip<Id(!new), V>(s: State<Id, V>, n: nat, batch: seq<(Id, Op<V>)>)
    requires n < |s.queue| && BatchIs(s, n, batch) && (s.queue[n] in s.latest ==> Taken(s, n, s.queue[n]))
    ensures BatchIs(s, n + 1, batch)
  {
    TakenNext(s, n);
    hide Taken, InBatch;
  }

  lemma BatchTakes<Id(!new), V>(s: State<Id, V>, n: nat, batch: seq<(Id, Op<V>)>)
    requires n < |s.queue| && BatchIs(s, n, batch) && s.queue[n] in s.latest && !Taken(s, n, s.queue[n])
    ensures BatchIs(s, n + 1, batch + [(s.queue[n], s.latest[s.queue[n]])])
  {
    var last := (s.queue[n], s.latest[s.queue[n]]);
    TakenNext(s, n);
    forall id | Taken(s, n + 1, id) ensures InBatch(batch + [last], id) {
      InBatchSnoc(batch, last, id);
    }
  }

  lemma MovedNext<Id(!new), V>(s: State<Id, V>, n: nat, c: Collecting<Id, V>)
    requires MovedOut(s, n, c.s) && c.s.queue != []
    ensures n < |s.queue| && c.s.queue[0] == s.queue[n] && MovedOut(s, n + 1, PopOne(c).s)
    ensures c.s.queue[0] in c.s.latest <==> s.queue[n] in s.latest && !Taken(s, n, s.queue[n])
    ensures c.s.queue[0] in c.s.latest ==> c.s.latest[c.s.queue[0]] == s.latest[s.queue[n]]
  {
    hide MovedAt, Taken;
    var d := PopOne(c).s;
    assert c.s.queue[0] == s.queue[n] && d.queue == s.queue[n + 1..] && d.stopped == s.stopped;
    assert MovedAt(s, n, c.s, s.queue[n]);
    MovedWaits(s, n, c.s, s.queue[n]);
    var next := n + 1;
    forall x: Id ensures MovedAt(s, next, d, x) {
      assert MovedAt(s, n, c.s, x);
      MovedAtNext(s, n, c, x);
    }
  }

  lemma MovedWaits<Id(!new), V>(s: State<Id, V>, n: nat, c: State<Id, V>, id: Id)
    requires MovedAt(s, n, c, id)
    ensures id in c.latest <==> id in s.latest && !Taken(s, n, id)
    ensures id in c.latest ==> c.latest[id] == s.latest[id]
  {
  }

  lemma MovedAtNext<Id(!new), V>(s: State<Id, V>, n: nat, c: Collecting<Id, V>, x: Id)
    requires n < |s.queue| && c.s.queue != [] && c.s.queue[0] == s.queue[n]
    requires MovedAt(s, n, c.s, x) && MovedAt(s, n, c.s, s.queue[n])
    ensures MovedAt(s, n + 1, PopOne(c).s, x)
  {
    TakenNext(s, n);
    hide Taken;
  }

  lemma InBatchSnoc<Id, V>(batch: seq<(Id, Op<V>)>, last: (Id, Op<V>), x: Id)
    ensures InBatch(batch + [last], x) <==> InBatch(batch, x) || x == last.0
  {
    if InBatch(batch, x) {
      var i: nat :| i < |batch| && batch[i].0 == x;
      assert (batch + [last])[i].0 == x;
    }
    assert (batch + [last])[|batch|] == last;
  }

  /** A collection under way, all its queue entries so far accounted for. */
  ghost predicate Popping<Id(!new), V>(s: State<Id, V>, c: Collecting<Id, V>) {
    && |c.batch| <= 512 && |c.s.queue| <= |s.queue|
    && var n := |s.queue| - |c.s.queue|;
       && MovedOut(s, n, c.s) && BatchIs(s, n, c.batch)
       && (|c.batch| == 512 ==> n > 0 && s.queue[n - 1] == c.batch[511].0)
  }

  /** The next queue entry, and its operation if one is waiting. */
  function PopOne<Id, V>(c: Collecting<Id, V>): (d: Collecting<Id, V>)
    requires c.s.queue != []
    ensures |d.s.queue| == |c.s.queue| - 1
  {
    var id, s := c.s.queue[0], c.s.(queue := c.s.queue[1..]);
    if id in s.latest then Collecting(Moved(s, id), c.batch + [(id, s.latest[id])]) else Collecting(s, c.batch)
  }

  lemma PopOneOk<Id(!new), V>(s: State<Id, V>, c: Collecting<Id, V>)
    requires Popping(s, c) && |c.batch| < 512 && c.s.queue != []
    ensures Popping(s, PopOne(c))
  {
    hide MovedOut, BatchIs, Taken;
    var n: nat := |s.queue| - |c.s.queue|;
    MovedNext(s, n, c);
    if c.s.queue[0] in c.s.latest {
      BatchTakes(s, n, c.batch);
    } else {
      BatchSkip(s, n, c.batch);
    }
  }

  lemma {:induction false} CollectPops<Id(!new), V>(s: State<Id, V>, c: Collecting<Id, V>)
    requires Popping(s, c)
    ensures var d := CollectFrom(c);
            && Popping(s, d) && (|d.batch| == 512 || d.s.queue == [])
            && (|c.batch| < 512 && c.s.queue != [] ==> |d.s.queue| < |c.s.queue|) && |d.s.queue| <= |c.s.queue|
    decreases |c.s.queue|
  {
    if |c.batch| < 512 && c.s.queue != [] {
      PopOneOk(s, c);
      CollectIsPop(c);
      BatchFits(s, c);
      hide Popping, CollectFrom;
      CollectPops(s, PopOne(c));
    } else {
      BatchFits(s, c);
    }
  }

  lemma BatchFits<Id(!new), V>(s: State<Id, V>, c: Collecting<Id, V>)
    requires Popping(s, c)
    ensures |c.batch| <= 512
  {
  }

  lemma CollectIsPop<Id, V>(c: Collecting<Id, V>)
    requires |c.batch| < APPLY_BATCH && c.s.queue != []
    ensures CollectFrom(c) == CollectFrom(PopOne(c))
  {
  }

  /** A collection takes the first waiting operations, and at least one if any is waiting. */
  lemma CollectedIs<Id(!new), V>(s: State<Id, V>)
    ensures Collects(s, Collected(s).s, Collected(s).batch)
    ensures QueueCovers(s) && s.latest != map[] ==> Collected(s).batch != []
  {
    hide CollectFrom;
    var c := Collecting(s, []);
    NothingPopped(s);
    CollectPops(s, c);
    var d := CollectFrom(c);
    CollectsWhole(s, d);
    if QueueCovers(s) && s.latest != map[] {
      SomethingWaiting(s, d.s, d.batch);
    }
  }

  lemma CollectsWhole<Id(!new), V>(s: State<Id, V>, d: Collecting<Id, V>)
    requires Popping(s, d) && (|d.batch| == 512 || d.s.queue == [])
    requires s.queue != [] ==> |d.s.queue| < |s.queue|
    ensures Collects(s, d.s.(applying := true), d.batch)
    ensures BatchIs(s, |s.queue| - |d.s.queue|, d.batch)
  {
    hide BatchIs, Taken;
    var n, s' := |s.queue| - |d.s.queue|, d.s.(applying := true);
    forall x ensures MovedAt(s, n, s', x) {
      assert MovedAt(s, n, d.s, x);
    }
  }

  lemma NothingPopped<Id(!new), V>(s: State<Id, V>)
    ensures Popping(s, Collecting(s, []))
  {
  }

  lemma SomethingWaiting<Id(!new), V>(s: State<Id, V>, d: State<Id, V>, batch: seq<(Id, Op<V>)>)
    requires |d.queue| <= |s.queue| && BatchIs(s, |s.queue| - |d.queue|, batch) && QueueCovers(s) && s.latest != map[]
    requires |batch| == 512 || d.queue == []
    ensures batch != []
  {
    var id :| id in s.latest;
    if d.queue == [] {
      assert FirstAt(s.queue, id) < |s.queue|;
      assert InBatch(batch, id);
    }
  }

  class Pending<Id(==, !new), V> {
    // Apply order; ids may repeat, the map holds the latest operation.
    var queue: seq<Id>
    var latest: map<Id, Op<V>>
    // The batch being written into the graph, still visible to the overlay.
    var inflight: map<Id, Op<V>>
    var applying: bool
    var stopped: bool

    function Now(): State<Id, V>
      reads this
    {
      State(queue, latest, inflight, applying, stopped)
    }

    constructor ()
      ensures Now() == State([], map[], map[], false, false)
    {
      queue, latest, inflight, applying, stopped := [], map[], map[], false, false;
    }

    /** Enqueue an upsert; callers are held back at the cap until there is space or a stop. */
    method PushUpsert(id: Id, v: V)
      requires Now().MayPushUpsert()
      modifies this
      ensures Now() == old(Now()).Push(id, Some(v))
    {
      queue := queue + [id];
      latest := latest[id := Some(v)];
    }

    method PushRemove(id: Id)
      modifies this
      ensures Now() == old(Now()).Push(id, None)
    {
      queue := queue + [id];
      latest := latest[id := None];
    }

    /** Collect the next batch; `None` on shutdown. Callers wait for work or a stop. */
    method CollectBatch() returns (batch: Option<seq<(Id, Op<V>)>>)
      requires queue != [] || stopped
      modifies this
      ensures old(stopped) ==> batch == None && Now() == old(Now())
      ensures !old(stopped) ==> batch == Some(Collected(old(Now())).batch) && Now() == Collected(old(Now())).s
      ensures !old(stopped) ==> batch.Some? && Collects(old(Now()), Now(), batch.value)
      ensures !old(stopped) && old(QueueCovers(Now())) && old(latest) != map[] ==> batch.value != []
    {
      if stopped {
        return None;
      }
      CollectedIs(Now());
      hide Collects, QueueCovers;
      ghost var start := Now();
      var out: seq<(Id, Op<V>)> := [];
      while |out| < APPLY_BATCH && queue != []
        invariant !stopped && applying == start.applying
        invariant CollectFrom(Collecting(Now(), out)) == CollectFrom(Collecting(start, []))
        decreases |queue|
      {
        var id := queue[0];
        queue := queue[1..];
        if id in latest {
          var op := latest[id];
          latest := latest - {id};
          inflight := inflight[id := op];
          out := out + [(id, op)];
        }
      }
      applying := true;
      batch := Some(out);
    }

    /** The applied batch is in the graph: forget it. */
    method FinishBatch()
      modifies this`inflight, this`applying
      ensures Now() == old(Now()).(inflight := map[], applying := false)
    {
      inflight := map[];
      applying := false;
    }

    method Stop()
      modifies this`stopped
      ensures Now() == old(Now()).(stopped := true)
    {
      stopped := true;
    }
  }

  // ---- the system of threads ------------------------------------------------------

  /** Where the applier thread is. */
  datatype Phase<Id, V> = Idle | Holding(batch: seq<(Id, Op<V>)>) | Written | Exited

  /**
   * The pending state, the graph, the applier's phase, the searches holding the graph
   * read lock (each with the graph it sees), and the fold of every push so far.
   */
  datatype Sys<Id, V> = Sys(s: State<Id, V>, graph: map<Id, V>, phase: Phase<Id, V>,
                            readers: map<nat, map<Id, V>>, pushed: map<Id, V>)

  ghost predicate Init<Id, V>(y: Sys<Id, V>) {
    && y.s == State([], map[], map[], false, false)
    && y.phase == Idle && y.readers == map[] && y.pushed == y.graph
  }

  datatype Step<Id, V> =
    | PushStep(id: Id, op: Op<V>)
    | CollectStep
    | ApplyStep
    | FinishStep
    | StopStep
    | ExitStep
    | LockStep(reader: nat)
    | UnlockStep(reader: nat)

  ghost predicate Next<Id(!new), V>(y: Sys<Id, V>, step: Step<Id, V>, z: Sys<Id, V>) {
    match step
    case PushStep(id, op) =>
      && (op.Some? ==> y.s.MayPushUpsert())
      && z == y.(s := y.s.Push(id, op), pushed := ApplyOp(y.pushed, id, op))
    case CollectStep =>
      && y.phase == Idle && y.s.queue != [] && !y.s.stopped
      && var c := Collected(y.s); z == y.(s := c.s, phase := Holding(c.batch))
    case ApplyStep => // under the graph write lock: no reader holds the graph
      && y.phase.Holding? && y.readers == map[]
      && z == y.(graph := ApplyAll(y.graph, y.phase.batch), phase := Written)
    case FinishStep =>
      && y.phase == Written
      && z == y.(s := y.s.(inflight := map[], applying := false), phase := Idle)
    case StopStep => z == y.(s := y.s.(stopped := true))
    case ExitStep => y.phase == Idle && y.s.stopped && z == y.(phase := Exited)
    case LockStep(r) => r !in y.readers && z == y.(readers := y.readers[r := y.graph])
    case UnlockStep(r) => z == y.(readers := y.readers - {r})
  }

  ghost predicate Inv<Id(!new), V>(y: Sys<Id, V>) {
    && QueueCovers(y.s)
    && View(y.graph, y.s.Overlay()) == y.pushed
    && (forall r :: r in y.readers ==> y.readers[r] == y.graph)
    && match y.phase
       case Idle => y.s.inflight == map[] && !y.s.applying
       case Holding(batch) => y.s.inflight == OpsOf(batch) && y.s.applying
       case Written => View(y.graph, y.s.inflight) == y.graph && y.s.applying
       case Exited => y.s.inflight == map[] && !y.s.applying && y.s.stopped
  }

  lemma InitInv<Id(!new), V>(y: Sys<Id, V>)
    requires Init(y)
    ensures Inv(y)
  {
    ViewNothing(y.graph);
  }

  lemma ViewNothing<Id(!new), V>(graph: map<Id, V>)
    ensures View(graph, map[]) == graph
  {
  }

  lemma ViewTwice<Id(!new), V>(graph: map<Id, V>, ops: map<Id, Op<V>>)
    ensures View(View(graph, ops), ops) == View(graph, ops)
  {
  }

  lemma NextInv<Id(!new), V>(y: Sys<Id, V>, step: Step<Id, V>, z: Sys<Id, V>)
    requires Inv(y) && Next(y, step, z)
    ensures Inv(z)
  {
    hide View, CollectFrom, ApplyAll;
    match step
    case PushStep(id, op) =>
      assert z.s.Overlay() == y.s.Overlay()[id := op];
      ViewPush(y.graph, y.s.Overlay(), id, op);
    case CollectStep =>
      assert OpsOf<Id, V>([]) == map[];
      CollectKeeps(Collecting(y.s, []));
    case ApplyStep =>
      ApplyIsView(y.graph, y.phase.batch);
      ViewTwice(y.graph, y.s.inflight);
      ViewCompose(y.graph, y.s.inflight, y.s.latest);
      ViewCompose(z.graph, y.s.inflight, y.s.latest);
    case FinishStep =>
      ViewCompose(y.graph, y.s.inflight, y.s.latest);
      assert z.s.Overlay() == y.s.latest;
    case StopStep =>
    case ExitStep =>
    case LockStep(r) =>
    case UnlockStep(r) =>
  }

  /** States joined by steps. */
  ghost predicate Follows<Id(!new), V>(ys: seq<Sys<Id, V>>, steps: seq<Step<Id, V>>) {
    |ys| == |steps| + 1 && forall i: nat :: i < |steps| ==> Next(ys[i], steps[i], ys[i + 1])
  }

  /** A run: states joined by steps, from an initial state. */
  ghost predicate IsRun<Id(!new), V>(ys: seq<Sys<Id, V>>, steps: seq<Step<Id, V>>) {
    Follows(ys, steps) && Init(ys[0])
  }

  lemma {:induction false} RunInv<Id(!new), V>(ys: seq<Sys<Id, V>>, steps: seq<Step<Id, V>>, i: nat)
    requires IsRun(ys, steps) && i < |ys|
    ensures Inv(ys[i])
  {
    if i == 0 {
      InitInv(ys[0]);
    } else {
      RunInv(ys, steps, i - 1);
      NextInv(ys[i - 1], steps[i - 1], ys[i]);
    }
  }

  /**
   * Read your writes: whenever a search that holds the graph read lock takes the
   * overlay, the graph it sees overridden by the overlay is the fold of every push
   * made up to that moment, whatever the applier is doing.
   */
  lemma ReadYourWrites<Id(!new), V>(ys: seq<Sys<Id, V>>, steps: seq<Step<Id, V>>, i: nat, reader: nat)
    requires IsRun(ys, steps) && i < |ys| && reader in ys[i].readers
    ensures View(ys[i].readers[reader], ys[i].s.Overlay()) == ys[i].pushed
  {
    RunInv(ys, steps, i);
  }

  /** Once settled (or once the backlog reads zero) the graph alone is the fold of every push. */
  lemma QuiescentGraph<Id(!new), V>(ys: seq<Sys<Id, V>>, steps: seq<Step<Id, V>>, i: nat)
    requires IsRun(ys, steps) && i < |ys|
    requires ys[i].s.Settled() || ys[i].s.Backlog() == 0
    ensures ys[i].graph == ys[i].pushed
  {
    RunInv(ys, steps, i);
    SettledGraph(ys[i]);
  }

  /** Until a stop, an upsert is taken only while fewer than 200000 entries wait; removals are never held back. */
  lemma Backpressure<Id(!new), V>(y: Sys<Id, V>, id: Id, op: Op<V>)
    ensures (exists z :: Next(y, PushStep(id, op), z)) <==> op.None? || |y.s.queue| < 200_000 || y.s.stopped
  {
    if op.None? || |y.s.queue| < 200_000 || y.s.stopped {
      assert Next(y, PushStep(id, op), y.(s := y.s.Push(id, op), pushed := ApplyOp(y.pushed, id, op)));
    }
  }

  // ---- progress -----------------------------------------------------------------------

  /** The applier steps still to come if nothing more is pushed: three a round, one round at most for each queue entry. */
  function Remaining<Id, V>(y: Sys<Id, V>): nat {
    3 * |y.s.queue| + match y.phase case Idle => 0 case Holding(_) => 2 case Written => 1 case Exited => 0
  }

  predicate ByApplier<Id, V>(step: Step<Id, V>) { step.CollectStep? || step.ApplyStep? || step.FinishStep? }

  function ApplierSteps<Id, V>(steps: seq<Step<Id, V>>): nat {
    if steps == [] then 0 else ApplierSteps(steps[..|steps| - 1]) + if ByApplier(steps[|steps| - 1]) then 1 else 0
  }

  function Rounds<Id, V>(steps: seq<Step<Id, V>>): nat {
    if steps == [] then 0 else Rounds(steps[..|steps| - 1]) + if steps[|steps| - 1].CollectStep? then 1 else 0
  }

  ghost predicate NoPush<Id(!new), V(!new)>(steps: seq<Step<Id, V>>) {
    forall step :: step in steps ==> !step.PushStep?
  }

  lemma StepRemaining<Id(!new), V>(y: Sys<Id, V>, step: Step<Id, V>, z: Sys<Id, V>)
    requires Next(y, step, z) && !step.PushStep?
    ensures Remaining(z) + (if ByApplier(step) then 1 else 0) <= Remaining(y)
    ensures |z.s.queue| + (if step.CollectStep? then 1 else 0) <= |y.s.queue|
  {
    hide Collected, ApplyAll;
    if step.CollectStep? {
      CollectShrinks(y.s);
    }
  }

  lemma CollectShrinks<Id(!new), V>(s: State<Id, V>)
    requires s.queue != []
    ensures |Collected(s).s.queue| < |s.queue| && Collected(s).s.stopped == s.stopped
  {
    hide CollectFrom, BatchIs, MovedAt;
    CollectedIs(s);
  }

  /** However searches, a stop and the applier interleave, once pushing stops every applier step counts down. */
  lemma {:induction false} CountsDown<Id(!new), V(!new)>(ys: seq<Sys<Id, V>>, steps: seq<Step<Id, V>>)
    requires Follows(ys, steps) && NoPush(steps)
    ensures ApplierSteps(steps) + Remaining(ys[|steps|]) <= Remaining(ys[0])
    ensures Rounds(steps) + |ys[|steps|].s.queue| <= |ys[0].s.queue|
    decreases |steps|
  {
    if steps != [] {
      hide Next;
      var k := |steps| - 1;
      assert steps == steps[..k] + [steps[k]];
      CountsDown(ys[..|ys| - 1], steps[..k]);
      StepRemaining(ys[k], steps[k], ys[k + 1]);
    }
  }

  /** With nothing left to do, a quiesce returns. */
  lemma DoneIsSettled<Id(!new), V>(y: Sys<Id, V>)
    requires Inv(y) && Remaining(y) == 0
    ensures y.s.Settled()
  {
  }

  /** With something left, no stop, and no search holding the graph, the applier can take its next step. */
  lemma NotStuck<Id(!new), V>(y: Sys<Id, V>) returns (step: Step<Id, V>, z: Sys<Id, V>)
    requires Inv(y) && !y.s.stopped && y.readers == map[] && Remaining(y) > 0
    ensures ByApplier(step) && Next(y, step, z) && !z.s.stopped && z.readers == map[] && z.pushed == y.pushed
  {
    match y.phase
    case Idle =>
      CollectShrinks(y.s);
      step := CollectStep;
      z := y.(s := Collected(y.s).s, phase := Holding(Collected(y.s).batch));
      hide Collected;
    case Holding(batch) =>
      step, z := ApplyStep, y.(graph := ApplyAll(y.graph, batch), phase := Written);
    case Written =>
      step, z := FinishStep, y.(s := y.s.(inflight := map[], applying := false), phase := Idle);
    case Exited =>
      assert false;
  }

  /**
   * The backlog drains: from any state of a run that is not stopping, with no search holding the graph, applier steps
   * alone settle it, in at most one round for each queue entry, and the graph is then the fold of every push.
   */
  lemma {:induction false} Drains<Id(!new), V(!new)>(y: Sys<Id, V>) returns (ys: seq<Sys<Id, V>>, steps: seq<Step<Id, V>>)
    requires Inv(y) && !y.s.stopped && y.readers == map[]
    ensures Follows(ys, steps) && ys[0] == y && (forall step :: step in steps ==> ByApplier(step))
    ensures Rounds(steps) <= |y.s.queue| && |steps| <= Remaining(y)
    ensures ys[|steps|].s.Settled() && ys[|steps|].pushed == y.pushed && ys[|steps|].graph == y.pushed
    decreases Remaining(y)
  {
    if Remaining(y) == 0 {
      ys, steps := [y], [];
      DoneIsSettled(y);
      SettledGraph(y);
    } else {
      var step, z := NotStuck(y);
      NextInv(y, step, z);
      StepRemaining(y, step, z);
      hide Next, Inv, Remaining;
      var zs, rest := Drains(z);
      ys, steps := [y] + zs, [step] + rest;
      forall i: nat | i < |steps| ensures Next(ys[i], steps[i], ys[i + 1]) {
        if i > 0 {
          assert ys[i] == zs[i - 1] && steps[i] == rest[i - 1];
        }
      }
      RoundsCons(step, rest);
    }
  }

  lemma {:induction false} RoundsCons<Id, V>(step: Step<Id, V>, rest: seq<Step<Id, V>>)
    ensures Rounds([step] + rest) == Rounds(rest) + if step.CollectStep? then 1 else 0
    decreases |rest|
  {
    var all := [step] + rest;
    if rest == [] {
      assert all[..0] == [];
    } else {
      var k := |rest| - 1;
      assert all[..|all| - 1] == [step] + rest[..k];
      RoundsCons(step, rest[..k]);
    }
  }

  lemma SettledGraph<Id(!new), V>(y: Sys<Id, V>)
    requires Inv(y) && (y.s.Settled() || y.s.Backlog() == 0)
    ensures y.graph == y.pushed
  {
    assert y.s.latest == map[] by {
      forall id ensures id !in y.s.latest {
      }
    }
    assert y.s.inflight == map[];
    ViewNothing(y.graph);
  }
}
