/**
 * Connector sync as a crash-and-resume system.
 */
module ConnectorSync {
  import opened Wrappers

  // Each batch is ingested, then mapped, and only then is the cursor saved. A crash loses what is
  // in memory; the next run resumes from the saved cursor. The gate blocks any documents of a batch
  // it likes, and may decide differently when a batch is pulled again.

  type Cursor = string
  type DocId = string

  datatype Batch = Batch(docs: seq<DocId>, next: Option<Cursor>)

  /** The source: what each cursor pulls. */
  datatype Driver = Driver(pull: Option<Cursor> -> Batch)

  function Docs(batch: Batch): set<DocId> { set x | x in batch.docs }

  /** The cursor before batch `n` of a pass from the beginning, while the pass lasts. */
  function CursorAt(d: Driver, n: nat): Option<Cursor> {
    if n == 0 then None else d.pull(CursorAt(d, n - 1)).next
  }

  function BatchAt(d: Driver, n: nat): Batch { d.pull(CursorAt(d, n)) }

  /** A pass is still going before batch `n`: no earlier batch was empty or the last. */
  ghost predicate Reaches(d: Driver, n: nat) {
    n == 0 || (Reaches(d, n - 1) && BatchAt(d, n - 1).docs != [] && BatchAt(d, n - 1).next.Some?)
  }

  /** The pass ends with batch `n`: it is empty, or it is the last. */
  ghost predicate EndsAt(d: Driver, n: nat) {
    Reaches(d, n) && (BatchAt(d, n).docs == [] || BatchAt(d, n).next.None?)
  }

  /** Every document of the first `n` batches. */
  ghost function Due(d: Driver, n: nat): set<DocId> {
    if n == 0 then {} else Due(d, n - 1) + Docs(BatchAt(d, n - 1))
  }

  // ---- the system ---------------------------------------------------------------------

  /** What survives a crash: the saved cursor, the ingested documents, those related and tagged, and, as history,
      those the gate has ever refused. */
  datatype Disk = Disk(cursor: Option<Cursor>, ingested: set<DocId>, mapped: set<DocId>, refused: set<DocId>)

  datatype Run =
    | Idle
    | Pulling(cursor: Option<Cursor>)
    | Ingesting(batch: Batch, kept: set<DocId>)
    | Mapping(batch: Batch, kept: set<DocId>)
    | Saving(batch: Batch)
    | Finishing(cursor: Option<Cursor>)

  datatype State = State(disk: Disk, run: Run, finished: bool)

  datatype Step = Start | Pull(blocked: set<DocId>) | Ingest | MapOne(doc: DocId) | MapDone | Save | Finish | Crash

  ghost predicate Init(s: State) {
    s.disk == Disk(None, {}, {}, {}) && s.run == Idle && !s.finished
  }

  ghost predicate Next(d: Driver, s: State, step: Step, s': State) {
    match step
    case Start =>
      s.run.Idle? && s' == s.(run := Pulling(s.disk.cursor), finished := false)
    case Pull(blocked) => // gate first, on what is known by now: an all-blocked batch only moves the cursor in memory
      && s.run.Pulling?
      && var batch := d.pull(s.run.cursor);
         var kept := Docs(batch) - blocked;
         s' == s.(disk := s.disk.(refused := s.disk.refused + Docs(batch) * blocked),
                  run := if batch.docs == [] then Finishing(s.run.cursor)
                         else if kept != {} then Ingesting(batch, kept)
                         else if batch.next.Some? then Pulling(batch.next)
                         else Finishing(batch.next))
    case Ingest => // the durable upsert
      && s.run.Ingesting?
      && s' == s.(disk := s.disk.(ingested := s.disk.ingested + s.run.kept), run := Mapping(s.run.batch, s.run.kept))
    case MapOne(doc) => // one document's edge and tags
      && s.run.Mapping? && doc in s.run.kept
      && s' == s.(disk := s.disk.(mapped := s.disk.mapped + {doc}))
    case MapDone =>
      && s.run.Mapping? && s.run.kept <= s.disk.mapped
      && s' == s.(run := Saving(s.run.batch))
    case Save => // only now the cursor
      && s.run.Saving?
      && s' == s.(disk := s.disk.(cursor := s.run.batch.next),
                  run := if s.run.batch.next.Some? then Pulling(s.run.batch.next) else Finishing(None))
    case Finish =>
      s.run.Finishing? && s' == s.(disk := s.disk.(cursor := s.run.cursor), run := Idle, finished := true)
    case Crash =>
      s' == s.(run := Idle, finished := false)
  }

  /** Each of these documents is ingested and mapped, or the gate has refused it. */
  ghost predicate Dealt(disk: Disk, docs: set<DocId>) {
    docs <= disk.ingested + disk.refused && docs <= disk.mapped + disk.refused
  }

  /** The first `n` batches are dealt with. */
  ghost predicate Behind(d: Driver, disk: Disk, n: nat) {
    Reaches(d, n) && Dealt(disk, Due(d, n))
  }

  /** Everything in one whole pass is dealt with. */
  ghost predicate WholePass(d: Driver, disk: Disk) {
    exists n: nat :: EndsAt(d, n) && Dealt(disk, Due(d, n + 1))
  }

  /** A saved cursor has everything before it behind it. */
  ghost predicate DiskOk(d: Driver, disk: Disk) {
    exists n: nat :: CursorAt(d, n) == disk.cursor && Behind(d, disk, n)
  }

  ghost predicate RunOk(d: Driver, disk: Disk, run: Run) {
    match run
    case Idle => true
    case Pulling(c) => exists n: nat :: CursorAt(d, n) == c && Behind(d, disk, n)
    case Ingesting(b, kept) =>
      exists n: nat :: BatchAt(d, n) == b && b.docs != [] && Behind(d, disk, n) && Docs(b) <= kept + disk.refused
    case Mapping(b, kept) =>
      exists n: nat :: BatchAt(d, n) == b && b.docs != [] && Behind(d, disk, n) && Docs(b) <= kept + disk.refused
                       && kept <= disk.ingested
    case Saving(b) =>
      exists n: nat :: BatchAt(d, n) == b && b.docs != [] && Behind(d, disk, n) && Dealt(disk, Docs(b))
    case Finishing(c) => WholePass(d, disk) && DiskOk(d, disk.(cursor := c))
  }

  ghost predicate Inv(d: Driver, s: State) {
    && DiskOk(d, s.disk) && RunOk(d, s.disk, s.run)
    && (s.finished ==> WholePass(d, s.disk))
  }

  lemma BehindNext(d: Driver, disk: Disk, n: nat)
    requires Behind(d, disk, n) && BatchAt(d, n).docs != [] && Dealt(disk, Docs(BatchAt(d, n)))
    ensures BatchAt(d, n).next.Some? ==> Behind(d, disk, n + 1) && CursorAt(d, n + 1) == BatchAt(d, n).next
    ensures BatchAt(d, n).next.None? ==> WholePass(d, disk)
  {
    assert Due(d, n + 1) == Due(d, n) + Docs(BatchAt(d, n));
    if BatchAt(d, n).next.None? {
      assert EndsAt(d, n) && Dealt(disk, Due(d, n + 1));
    }
  }

  /** An empty batch ends the pass with everything before it done. */
  lemma Drained(d: Driver, disk: Disk, n: nat)
    requires Behind(d, disk, n) && BatchAt(d, n).docs == []
    ensures WholePass(d, disk)
  {
    assert Due(d, n + 1) == Due(d, n) + {};
    assert EndsAt(d, n) && Dealt(disk, Due(d, n + 1));
  }

  /** What is on disk only grows, so what was behind stays behind. */
  lemma DiskGrows(d: Driver, disk: Disk, disk': Disk)
    requires disk.ingested <= disk'.ingested && disk.mapped <= disk'.mapped && disk.refused <= disk'.refused
    ensures forall n: nat :: Behind(d, disk, n) ==> Behind(d, disk', n)
    ensures WholePass(d, disk) ==> WholePass(d, disk')
  {
    if WholePass(d, disk) {
      var n: nat :| EndsAt(d, n) && Dealt(disk, Due(d, n + 1));
      assert Dealt(disk', Due(d, n + 1));
    }
  }

  /** No batch is skipped: every step, crashes included, keeps everything before the saved cursor ingested
      and mapped. */
  lemma NextInv(d: Driver, s: State, step: Step, s': State)
    requires Inv(d, s) && Next(d, s, step, s')
    ensures Inv(d, s')
  {
    hide Due, Reaches, CursorAt;
    DiskGrows(d, s.disk, s'.disk);
    match step {
      case Pull(blocked) => PullInv(d, s, blocked, s');
      case Ingest =>
      case MapOne(_) =>
      case Save => SaveInv(d, s, s');
      case _ =>
    }
  }

  lemma NothingKept(docs: set<DocId>, blocked: set<DocId>)
    requires docs - blocked == {}
    ensures docs * blocked == docs
  {
    forall x | x in docs ensures x in blocked {
      assert x in blocked || x in docs - blocked;
    }
  }

  lemma KeptOrRefused(docs: set<DocId>, blocked: set<DocId>, refused: set<DocId>)
    ensures docs <= docs - blocked + (refused + docs * blocked)
  {
    forall x | x in docs ensures x in docs - blocked + (refused + docs * blocked) {
    }
  }

  lemma PullInv(d: Driver, s: State, blocked: set<DocId>, s': State)
    requires Inv(d, s) && Next(d, s, Pull(blocked), s')
    ensures Inv(d, s')
  {
    hide Due, Reaches, CursorAt;
    DiskGrows(d, s.disk, s'.disk);
    var n: nat :| CursorAt(d, n) == s.run.cursor && Behind(d, s.disk, n);
    var batch := BatchAt(d, n);
    if batch.docs == [] {
      Drained(d, s'.disk, n);
      SameBehind(d, s'.disk, s.run.cursor, n);
    } else if Docs(batch) - blocked == {} {
      NothingKept(Docs(batch), blocked);
      BehindNext(d, s'.disk, n);
      if batch.next.None? {
        FromStart(d, s'.disk);
      }
    } else {
      KeptOrRefused(Docs(batch), blocked, s.disk.refused);
    }
  }

  lemma SaveInv(d: Driver, s: State, s': State)
    requires Inv(d, s) && Next(d, s, Save, s')
    ensures Inv(d, s')
  {
    hide Due, Reaches, CursorAt;
    var batch := s.run.batch;
    var n: nat :| BatchAt(d, n) == batch && batch.docs != [] && Behind(d, s.disk, n) && Dealt(s.disk, Docs(batch));
    BehindNext(d, s.disk, n);
    DiskGrows(d, s.disk, s'.disk);
    if batch.next.None? {
      FromStart(d, s.disk);
      FromStart(d, s'.disk);
    } else {
      SameBehind(d, s.disk, batch.next, n + 1);
    }
  }

  lemma SameBehind(d: Driver, disk: Disk, c: Option<Cursor>, n: nat)
    requires Behind(d, disk, n) && CursorAt(d, n) == c
    ensures DiskOk(d, disk.(cursor := c))
  {
    assert Behind(d, disk.(cursor := c), n);
  }

  /** Nothing precedes the beginning. */
  lemma FromStart(d: Driver, disk: Disk)
    ensures DiskOk(d, disk.(cursor := None))
  {
    assert CursorAt(d, 0) == None && Behind(d, disk.(cursor := None), 0);
  }

  lemma InitInv(d: Driver, s: State)
    requires Init(s)
    ensures Inv(d, s)
  {
    FromStart(d, s.disk);
  }

  ghost predicate IsRun(d: Driver, states: seq<State>, steps: seq<Step>) {
    && |states| == |steps| + 1 && Init(states[0])
    && forall i :: 0 <= i < |steps| ==> Next(d, states[i], steps[i], states[i + 1])
  }

  /** After any run, however often it crashed and however the gate changed its mind, a finished pass has ingested and
      mapped every document of the source but those the gate refused. */
  lemma {:induction false} RunInv(d: Driver, states: seq<State>, steps: seq<Step>, i: nat)
    requires IsRun(d, states, steps) && i < |states|
    ensures Inv(d, states[i])
    ensures states[i].finished ==> WholePass(d, states[i].disk)
  {
    if i == 0 {
      InitInv(d, states[0]);
    } else {
      RunInv(d, states, steps, i - 1);
      NextInv(d, states[i - 1], steps[i - 1], states[i]);
    }
  }
}
