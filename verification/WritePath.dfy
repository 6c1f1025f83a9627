/**
 * The write path: statements accumulate a batch, threaded counters and deferred graph operations
 * in a `Transaction`; commit writes the batch atomically and then queues the graph operations.
 */
module WritePath {
  import opened Wrappers
  import opened Tables
  import opened Statements

  datatype Stmt = UpsertStmt(records: seq<Record>) | RemoveStmt(id: Id)

  datatype Error = EmptyUpsert | DimMismatch | SchemaViolation | RaggedMulti | KeyTooLong | NoSuchDocument | NotIndexed

  /** The estate's schema declarations: written at once, not through the batch. */
  datatype Info = Info(dim: Option<nat>, named: map<string, nat>, registry: set<string>)

  type Schema = map<string, map<string, string>>

  // ---- which statements are accepted ----------------------------------------------

  function DimOf(info: Info, records: seq<Record>): nat
    requires records != []
  {
    if info.dim.Some? then info.dim.value else |records[0].embedding|
  }

  predicate Conforms(env: Env, schema: Schema, r: Record) {
    r.coll.Some? && r.coll.value in schema ==>
      forall f :: f in schema[r.coll.value] && f in r.meta ==> env.conforms(r.meta[f], schema[r.coll.value][f])
  }

  predicate NamedFits(named: map<string, nat>, r: Record) {
    forall s :: s in r.named && s in named ==> named[s] == |r.named[s]|
  }

  function Learn(named: map<string, nat>, r: Record): map<string, nat> {
    map s | s in named.Keys + r.named.Keys :: if s in named then named[s] else |r.named[s]|
  }

  predicate EvenMulti(r: Record) {
    forall i :: 0 <= i < |r.multi| ==> |r.multi[i]| == |r.multi[0]|
  }

  predicate KeysFit(env: Env, fields: seq<string>, r: Record) {
    && |r.id| <= MAX_KEY_LEN
    && forall f :: f in fields && f in r.meta ==> |f| + 1 + |env.code(r.meta[f])| + 1 + |r.id| <= MAX_KEY_LEN
  }

  /** The named-space dimensions once every record's spaces are learned; `None` on a mismatch. */
  function LearnAll(named: map<string, nat>, records: seq<Record>): Option<map<string, nat>> {
    if records == [] then Some(named)
    else
      var r := records[|records| - 1];
      match LearnAll(named, records[..|records| - 1])
      case None => None
      case Some(m) => if NamedFits(m, r) && EvenMulti(r) then Some(Learn(m, r)) else None
  }

  function Colls(records: seq<Record>): set<string> {
    set r | r in records && r.coll.Some? :: r.coll.value
  }

  /** The declarations once an upsert's dimension, schema, collection and named-space checks pass. */
  function Declared(env: Env, schema: Schema, info: Info, records: seq<Record>): Option<Info> {
    if records == [] || (exists r :: r in records && |r.embedding| != DimOf(info, records)) then None
    else if exists r :: r in records && !Conforms(env, schema, r) then None
    else
      match LearnAll(info.named, records)
      case None => None
      case Some(named) => Some(Info(Some(DimOf(info, records)), named, info.registry + Colls(records)))
  }

  lemma DeclaredOrRefused(env: Env, schema: Schema, info: Info, records: seq<Record>)
    ensures Declared(env, schema, info, records).Some? ==> Refusal(env, schema, info, records) == KeyTooLong
  {
  }

  predicate AllKeysFit(env: Env, fields: seq<string>, records: seq<Record>) {
    forall r :: r in records ==> KeysFit(env, fields, r)
  }

  /** The declarations after an upsert of `records`, `None` when it is rejected. */
  function Admit(env: Env, schema: Schema, fields: seq<string>, info: Info, records: seq<Record>): Option<Info> {
    if AllKeysFit(env, fields, records) then Declared(env, schema, info, records) else None
  }

  lemma AdmitParts(env: Env, schema: Schema, fields: seq<string>, info: Info, records: seq<Record>)
    ensures Declared(env, schema, info, records).None? ==> Admit(env, schema, fields, info, records).None?
    ensures (exists j :: 0 <= j < |records| && !KeysFit(env, fields, records[j])) ==>
              Admit(env, schema, fields, info, records).None?
    ensures (forall j :: 0 <= j < |records| ==> KeysFit(env, fields, records[j])) ==>
              Admit(env, schema, fields, info, records) == Declared(env, schema, info, records)
  {
    hide Declared, KeysFit;
    if j :| 0 <= j < |records| && !KeysFit(env, fields, records[j]) {
      assert records[j] in records;
    }
  }

  function AdmitStmt(env: Env, schema: Schema, fields: seq<string>, info: Info, s: Stmt): Option<Info> {
    match s
    case UpsertStmt(records) => Admit(env, schema, fields, info, records)
    case RemoveStmt(_) => Some(info)
  }

  function AdmitAll(env: Env, schema: Schema, fields: seq<string>, info: Info, stmts: seq<Stmt>): Option<Info> {
    if stmts == [] then Some(info)
    else
      match AdmitAll(env, schema, fields, info, stmts[..|stmts| - 1])
      case None => None
      case Some(i) => AdmitStmt(env, schema, fields, i, stmts[|stmts| - 1])
  }

  /** Why the first record that does not fit the spaces learned so far does not: its named spaces are checked first. */
  function LearnRefusal(named: map<string, nat>, records: seq<Record>): Error
    requires LearnAll(named, records).None?
  {
    var rest, r := records[..|records| - 1], records[|records| - 1];
    match LearnAll(named, rest)
    case None => LearnRefusal(named, rest)
    case Some(m) => if NamedFits(m, r) then RaggedMulti else DimMismatch
  }

  /** Why an upsert is refused, in the order of the checks. */
  function Refusal(env: Env, schema: Schema, info: Info, records: seq<Record>): Error {
    if records == [] then EmptyUpsert
    else if exists r :: r in records && |r.embedding| != DimOf(info, records) then DimMismatch
    else if exists r :: r in records && !Conforms(env, schema, r) then SchemaViolation
    else if LearnAll(info.named, records).None? then LearnRefusal(info.named, records)
    else KeyTooLong
  }

  /** A rejected statement may still have learned a dimension or registered a name, never changed one. */
  ghost predicate Grew(old_: Info, now: Info) {
    && (old_.dim.Some? ==> now.dim == old_.dim)
    && (forall s :: s in old_.named ==> s in now.named && now.named[s] == old_.named[s])
    && old_.registry <= now.registry
  }

  lemma {:induction false} LearnFails(named: map<string, nat>, records: seq<Record>, n: nat)
    requires n <= |records| && LearnAll(named, records[..n]).None?
    ensures LearnAll(named, records).None? && LearnRefusal(named, records) == LearnRefusal(named, records[..n])
    decreases |records| - n
  {
    if n == |records| {
      assert records[..n] == records;
    } else {
      assert records[..n + 1][..n] == records[..n];
      LearnFails(named, records, n + 1);
    }
  }

  lemma {:induction false} LearnKeeps(named: map<string, nat>, records: seq<Record>)
    ensures var m := LearnAll(named, records);
            m.Some? ==> forall s :: s in named ==> s in m.value && m.value[s] == named[s]
  {
    if records != [] {
      LearnKeeps(named, records[..|records| - 1]);
    }
  }

  function Upserts(records: seq<Record>): seq<Edit> {
    seq(|records|, i requires 0 <= i < |records| => Upsert(records[i]))
  }

  lemma UpsertsSnoc(records: seq<Record>, i: nat)
    requires i < |records|
    ensures Upserts(records[..i + 1]) == Upserts(records[..i]) + [Upsert(records[i])]
  {
  }

  function EditsOf(s: Stmt): seq<Edit> {
    match s
    case UpsertStmt(records) => Upserts(records)
    case RemoveStmt(id) => [Remove(id)]
  }

  function Edits(stmts: seq<Stmt>): seq<Edit> {
    if stmts == [] then [] else Edits(stmts[..|stmts| - 1]) + EditsOf(stmts[|stmts| - 1])
  }

  lemma EmptyImage(env: Env, fields: seq<string>, stats: bool)
    ensures Image(env, fields, map[], [], map[], map[], Counters(0, 0, 0, map[]), stats)
  {
    assert forall p: Record -> bool :: Having(map[], p) == {};
  }

  // ---- the estate -------------------------------------------------------------------

  class Estate {
    const env: Env
    const stats: bool // whether per-term document frequencies are maintained
    var rows: map<Key, Cell>
    var df: map<string, int>
    var counters: Counters
    var fields: seq<string>
    var schema: Schema
    var info: Info
    var pushed: seq<GraphOp> // handed to the out-of-band applier so far
    ghost var docs: map<Id, Record>
    ghost var feed: seq<Change>

    /** Every table is the image of the documents and the history. */
    ghost predicate Valid()
      reads this
    {
      Image(env, fields, docs, feed, rows, df, counters, stats)
    }

    /** A newly created estate holds nothing. */
    constructor (env: Env, stats: bool)
      ensures Valid() && docs == map[] && feed == [] && info == Info(None, map[], {}) && this.env == env && this.stats == stats
    {
      this.env, this.stats := env, stats;
      rows, df, counters, fields, schema, info, pushed := map[], map[], Counters(0, 0, 0, map[]), [], map[],
        Info(None, map[], {}), [];
      docs, feed := map[], [];
      new;
      EmptyImage(env, fields, stats);
    }

    /** Read a stored document from the committed rows. */
    method Lookup(id: Id) returns (stored: Option<StoredDoc>)
      ensures stored == Committed(rows, id)
    {
      stored := if Doc(id) in rows && rows[Doc(id)].DocCell? then Some(rows[Doc(id)].doc) else None;
    }

    /** The checks of an upsert, declaring dimensions and collections on the way. */
    method Declare(records: seq<Record>) returns (res: Result<(), Error>)
      modifies this`info
      ensures res.Ok? <==> Declared(env, schema, old(info), records).Some?
      ensures res.Ok? ==> info == Declared(env, schema, old(info), records).value
      ensures res.Err? ==> res.error == Refusal(env, schema, old(info), records)
      ensures Grew(old(info), info)
    {
      if records == [] {
        return Err(EmptyUpsert); // `records[0]` panics and the join reports the failure
      }
      var dim := |records[0].embedding|;
      if info.dim.None? {
        info := info.(dim := Some(dim));
      } else if info.dim.value != dim {
        assert records[0] in records;
        return Err(DimMismatch);
      }
      for i := 0 to |records|
        invariant forall j :: 0 <= j < i ==> |records[j].embedding| == dim
      {
        if |records[i].embedding| != dim {
          return Err(DimMismatch);
        }
      }
      for i := 0 to |records|
        invariant forall j :: 0 <= j < i ==> Conforms(env, schema, records[j])
      {
        if !Conforms(env, schema, records[i]) {
          return Err(SchemaViolation);
        }
      }
      Register(records);
      var learned := LearnSpaces(info.named, records);
      if learned.Err? {
        return Err(learned.error);
      }
      LearnKeeps(info.named, records);
      info := info.(named := learned.value);
      res := Ok(());
    }

    method Register(records: seq<Record>)
      modifies this`info
      ensures info == old(info).(registry := old(info).registry + Colls(records))
    {
      for i := 0 to |records|
        invariant info == old(info).(registry := old(info).registry + Colls(records[..i]))
      {
        assert records[..i + 1] == records[..i] + [records[i]];
        assert Colls(records[..i + 1]) == Colls(records[..i])
               + if records[i].coll.Some? then {records[i].coll.value} else {};
        if records[i].coll.Some? {
          info := info.(registry := info.registry + {records[i].coll.value});
        }
      }
      assert records[..|records|] == records;
    }

    /** Fix each named space's dimension by its first vector; `None` on a mismatch. */
    method LearnSpaces(named: map<string, nat>, records: seq<Record>) returns (res: Result<map<string, nat>, Error>)
      ensures res.Ok? <==> LearnAll(named, records).Some?
      ensures res == if res.Ok? then Ok(LearnAll(named, records).value) else Err(LearnRefusal(named, records))
    {
      var known := named;
      for i := 0 to |records|
        invariant LearnAll(named, records[..i]) == Some(known)
      {
        assert records[..i + 1][..i] == records[..i];
        if !NamedFits(known, records[i]) {
          LearnFails(named, records, i + 1);
          return Err(DimMismatch);
        }
        if !EvenMulti(records[i]) {
          LearnFails(named, records, i + 1);
          return Err(RaggedMulti);
        }
        known := Learn(known, records[i]);
      }
      assert records[..|records|] == records;
      res := Ok(known);
    }

    /** `Db::write`: puts and deletes in batch order, df operands composed and folded in once; the
        counters, when given, are four more puts of the same batch. */
    method Write(batch: seq<BatchOp>, c: Option<Counters>)
      modifies this`rows, this`df, this`counters
      ensures forall k :: Get(rows, k) == After(old(rows), batch, k)
      ensures forall t :: Net(df, t) == Net(old(df), t) + Merged(batch, t)
      ensures counters == if c.Some? then c.value else old(counters)
    {
      var rows' := rows;
      var deltas: map<string, int> := map[];
      for i := 0 to |batch|
        invariant forall k :: Get(rows', k) == After(old(rows), batch[..i], k)
        invariant forall t :: Net(deltas, t) == Merged(batch[..i], t)
      {
        assert batch[..i + 1][..i] == batch[..i];
        match batch[i] {
          case Put(key, cell) => rows' := rows'[key := cell];
          case Delete(key) => rows' := rows' - {key};
          case MergeDf(term, delta) => deltas := deltas[term := Net(deltas, term) + delta];
        }
      }
      assert batch[..|batch|] == batch;
      rows := rows';
      FoldDf(deltas);
      if c.Some? {
        counters := c.value;
      }
    }

    /** Read-modify-write of each composed df operand. */
    method FoldDf(deltas: map<string, int>)
      modifies this`df
      ensures forall t :: Net(df, t) == Net(old(df), t) + Net(deltas, t)
    {
      var todo := deltas.Keys;
      while todo != {}
        invariant todo <= deltas.Keys
        invariant forall t :: Net(df, t) == Net(old(df), t) + if t in todo then 0 else Net(deltas, t)
        decreases |todo|
      {
        var t :| t in todo;
        df := df[t := Net(df, t) + deltas[t]];
        todo := todo - {t};
      }
    }
  }

  // ---- the transaction ----------------------------------------------------------------

  class Transaction {
    const estate: Estate
    var batch: seq<BatchOp>
    var counters: Counters
    var dirty: bool
    var ops: seq<GraphOp>
    ghost var edits: seq<Edit> // the record-level effects accumulated so far

    ghost function At(k: Key): Option<Cell>
      reads this`batch, estate`rows
    {
      After(estate.rows, batch, k)
    }

    /** The rows, counters and graph operations are those of `edits` over the committed tables. */
    ghost predicate Drafted()
      reads this`batch, this`counters, this`ops, this`edits, this`dirty, estate`rows, estate`fields, estate`counters
    {
      && (forall k :: At(k) == TxRow(estate.env, estate.fields, estate.rows, edits, estate.counters, k))
      && counters == TxCounters(estate.env, estate.rows, edits, estate.counters)
      && ops == TxOps(estate.rows, edits)
      && (!dirty ==> counters == estate.counters)
    }

    /** The df operands of the batch, with `delta` still to be merged, are those of `edits`. */
    ghost predicate DfDrafted(delta: map<string, int>)
      reads this`batch, this`edits, estate`rows
    {
      estate.stats ==>
        forall t :: Merged(batch, t) + Net(delta, t) == TxDf(estate.env, estate.rows, edits, t)
    }

    /** Open a transaction: snapshot the counters. */
    constructor Begin(e: Estate)
      ensures estate == e && batch == [] && edits == [] && Drafted() && DfDrafted(map[])
    {
      estate, batch, counters, dirty, ops, edits := e, [], e.counters, false, [], [];
    }

    method Put(k: Key, cell: Cell)
      modifies this`batch
      ensures forall j :: At(j) == if j == k then Some(cell) else old(At(j))
      ensures forall t :: Merged(batch, t) == old(Merged(batch, t))
    {
      assert (batch + [BatchOp.Put(k, cell)])[..|batch|] == batch;
      batch := batch + [BatchOp.Put(k, cell)];
    }

    method Delete(k: Key)
      modifies this`batch
      ensures forall j :: At(j) == if j == k then None else old(At(j))
      ensures forall t :: Merged(batch, t) == old(Merged(batch, t))
    {
      assert (batch + [BatchOp.Delete(k)])[..|batch|] == batch;
      batch := batch + [BatchOp.Delete(k)];
    }

    method Merge(term: string, delta: int)
      modifies this`batch
      ensures forall j :: At(j) == old(At(j))
      ensures forall t :: Merged(batch, t) == old(Merged(batch, t)) + if t == term then delta else 0
    {
      assert (batch + [MergeDf(term, delta)])[..|batch|] == batch;
      batch := batch + [MergeDf(term, delta)];
    }

    // ---- retracting a stored version ---------------------------------------------

    method DeletePostings(tokens: seq<string>, id: Id, delta: map<string, int>) returns (delta': map<string, int>)
      modifies this`batch
      ensures forall j :: At(j) == if j.Posting? && j.id == id && j.term in tokens then None else old(At(j))
      ensures forall t :: Net(delta', t) == Net(delta, t) - if t in tokens then 1 else 0
      ensures forall t :: Merged(batch, t) == old(Merged(batch, t))
    {
      var seen: set<string> := {};
      delta' := delta;
      for i := 0 to |tokens|
        invariant forall t :: t in seen <==> t in tokens[..i]
        invariant forall j :: At(j) == if j.Posting? && j.id == id && j.term in seen then None else old(At(j))
        invariant forall t :: Net(delta', t) == Net(delta, t) - if t in seen then 1 else 0
        invariant forall t :: Merged(batch, t) == old(Merged(batch, t))
      {
        var t := tokens[i];
        assert tokens[..i + 1] == tokens[..i] + [t];
        Delete(Posting(t, id));
        if t !in seen {
          seen := seen + {t};
          delta' := delta'[t := Net(delta', t) - 1];
        }
      }
      assert tokens[..|tokens|] == tokens;
    }

    method DeletePayload(meta: Meta, id: Id)
      modifies this`batch
      ensures forall j :: At(j) == if j.Payload? && j.id == id && j.field in estate.fields && j.field in meta
                                      && estate.env.code(meta[j.field]) == j.code then None else old(At(j))
      ensures forall t :: Merged(batch, t) == old(Merged(batch, t))
    {
      for i := 0 to |estate.fields|
        invariant forall j :: At(j) == if j.Payload? && j.id == id && j.field in estate.fields[..i] && j.field in meta
                                          && estate.env.code(meta[j.field]) == j.code then None else old(At(j))
        invariant forall t :: Merged(batch, t) == old(Merged(batch, t))
      {
        var f := estate.fields[i];
        assert estate.fields[..i + 1] == estate.fields[..i] + [f];
        if f in meta {
          Delete(Payload(f, estate.env.code(meta[f]), id));
        }
      }
      assert estate.fields[..|estate.fields|] == estate.fields;
    }

    method DeleteSparse(dims: set<nat>, id: Id)
      modifies this`batch
      ensures forall j :: At(j) == if j.Sparse? && j.id == id && j.dim in dims then None else old(At(j))
      ensures forall t :: Merged(batch, t) == old(Merged(batch, t))
    {
      var todo := dims;
      while todo != {}
        invariant todo <= dims
        invariant forall j :: At(j) == if j.Sparse? && j.id == id && j.dim in dims - todo then None else old(At(j))
        invariant forall t :: Merged(batch, t) == old(Merged(batch, t))
        decreases |todo|
      {
        var d :| d in todo;
        Delete(Sparse(d, id));
        todo := todo - {d};
      }
    }

    method DeleteNamed(spaces: set<string>, id: Id)
      modifies this`batch
      ensures forall j :: At(j) == if j.Named? && j.id == id && j.space in spaces then None else old(At(j))
      ensures forall t :: Merged(batch, t) == old(Merged(batch, t))
    {
      var todo := spaces;
      while todo != {}
        invariant todo <= spaces
        invariant forall j :: At(j) == if j.Named? && j.id == id && j.space in spaces - todo then None else old(At(j))
        invariant forall t :: Merged(batch, t) == old(Merged(batch, t))
        decreases |todo|
      {
        var s :| s in todo;
        Delete(Named(s, id));
        todo := todo - {s};
      }
    }

    /** Delete every derived row of a stored version, and count its terms out of `delta`. */
    method Retract(old_: StoredDoc, id: Id, delta: map<string, int>) returns (delta': map<string, int>)
      modifies this`batch
      ensures forall j :: At(j) == if !j.Feed? && j.id == id && OldKey(estate.env, estate.fields, old_, j) then None
                                   else old(At(j))
      ensures forall t :: Net(delta', t) == Net(delta, t) - if t in estate.env.analyze(old_.text) then 1 else 0
      ensures forall t :: Merged(batch, t) == old(Merged(batch, t))
    {
      hide Merged, Net, Transaction.At;
      delta' := DeletePostings(estate.env.analyze(old_.text), id, delta);
      DeleteSparse(old_.sparseDims, id);
      DeleteNamed(old_.namedSpaces, id);
      if old_.multiLen > 0 {
        Delete(Multi(id));
      }
      if old_.coll.Some? {
        Delete(Member(old_.coll.value, id));
      }
      DeletePayload(old_.meta, id);
    }

    // ---- placing a record's rows -------------------------------------------------

    method PutPostings(tokens: seq<string>, id: Id, delta: map<string, int>) returns (delta': map<string, int>)
      modifies this`batch
      ensures forall j :: At(j) == if j.Posting? && j.id == id && j.term in tokens
                                   then Some(PostingCell(multiset(tokens)[j.term], |tokens|)) else old(At(j))
      ensures forall t :: Net(delta', t) == Net(delta, t) + if t in tokens then 1 else 0
      ensures forall t :: Merged(batch, t) == old(Merged(batch, t))
    {
      var tf: map<string, nat> := map[];
      for i := 0 to |tokens|
        invariant forall t :: Count(tf, t) == multiset(tokens[..i])[t]
        invariant forall t :: t in tf <==> t in tokens[..i]
      {
        assert tokens[..i + 1] == tokens[..i] + [tokens[i]];
        tf := tf[tokens[i] := Count(tf, tokens[i]) + 1];
      }
      assert tokens[..|tokens|] == tokens;
      var todo := tf.Keys;
      delta' := delta;
      while todo != {}
        invariant todo <= tf.Keys
        invariant forall j :: At(j) == if j.Posting? && j.id == id && j.term in tf.Keys - todo
                                       then Some(PostingCell(tf[j.term], |tokens|)) else old(At(j))
        invariant forall t :: Net(delta', t) == Net(delta, t) + if t in tf.Keys - todo then 1 else 0
        invariant forall t :: Merged(batch, t) == old(Merged(batch, t))
        decreases |todo|
      {
        var t :| t in todo;
        Put(Posting(t, id), PostingCell(tf[t], |tokens|));
        delta' := delta'[t := Net(delta', t) + 1];
        todo := todo - {t};
      }
    }

    /** Payload rows for the indexed fields; `false` when a composed key is over the limit. */
    method PutPayload(meta: Meta, id: Id) returns (ok: bool)
      modifies this`batch
      ensures ok <==> forall f :: f in estate.fields && f in meta ==>
                                    |f| + 1 + |estate.env.code(meta[f])| + 1 + |id| <= MAX_KEY_LEN
      ensures ok ==> forall j :: At(j) == if j.Payload? && j.id == id && j.field in estate.fields && j.field in meta
                                             && estate.env.code(meta[j.field]) == j.code then Some(Mark) else old(At(j))
      ensures forall t :: Merged(batch, t) == old(Merged(batch, t))
    {
      for i := 0 to |estate.fields|
        invariant forall f :: f in estate.fields[..i] && f in meta ==>
                                |f| + 1 + |estate.env.code(meta[f])| + 1 + |id| <= MAX_KEY_LEN
        invariant forall j :: At(j) == if j.Payload? && j.id == id && j.field in estate.fields[..i] && j.field in meta
                                          && estate.env.code(meta[j.field]) == j.code then Some(Mark) else old(At(j))
        invariant forall t :: Merged(batch, t) == old(Merged(batch, t))
      {
        var f := estate.fields[i];
        assert estate.fields[..i + 1] == estate.fields[..i] + [f];
        if f in meta {
          if |f| + 1 + |estate.env.code(meta[f])| + 1 + |id| > MAX_KEY_LEN {
            return false;
          }
          Put(Payload(f, estate.env.code(meta[f]), id), Mark);
        }
      }
      assert estate.fields[..|estate.fields|] == estate.fields;
      ok := true;
    }

    method PutSparse(weights: map<nat, real>, id: Id)
      modifies this`batch
      ensures forall j :: At(j) == if j.Sparse? && j.id == id && j.dim in weights then Some(WeightCell(weights[j.dim]))
                                   else old(At(j))
      ensures forall t :: Merged(batch, t) == old(Merged(batch, t))
    {
      var todo := weights.Keys;
      while todo != {}
        invariant todo <= weights.Keys
        invariant forall j :: At(j) == if j.Sparse? && j.id == id && j.dim in weights.Keys - todo
                                       then Some(WeightCell(weights[j.dim])) else old(At(j))
        invariant forall t :: Merged(batch, t) == old(Merged(batch, t))
        decreases |todo|
      {
        var d :| d in todo;
        Put(Sparse(d, id), WeightCell(weights[d]));
        todo := todo - {d};
      }
    }

    method PutNamed(named: map<string, Vec>, id: Id)
      modifies this`batch
      ensures forall j :: At(j) == if j.Named? && j.id == id && j.space in named then Some(VecCell(named[j.space]))
                                   else old(At(j))
      ensures forall t :: Merged(batch, t) == old(Merged(batch, t))
    {
      var todo := named.Keys;
      while todo != {}
        invariant todo <= named.Keys
        invariant forall j :: At(j) == if j.Named? && j.id == id && j.space in named.Keys - todo
                                       then Some(VecCell(named[j.space])) else old(At(j))
        invariant forall t :: Merged(batch, t) == old(Merged(batch, t))
        decreases |todo|
      {
        var s :| s in todo;
        Put(Named(s, id), VecCell(named[s]));
        todo := todo - {s};
      }
    }

    /** The rows a record has at most one of. */
    method PutSingles(r: Record)
      modifies this`batch
      ensures forall j :: At(j) == if !j.Feed? && j.id == r.id && (j.Multi? || j.Member? || j.Doc? || j.Vector?)
                                      && RowOf(estate.env, estate.fields, r, j).Some?
                                   then RowOf(estate.env, estate.fields, r, j) else old(At(j))
      ensures forall t :: Merged(batch, t) == old(Merged(batch, t))
    {
      hide Merged, Stored, Transaction.At;
      if |r.multi| > 0 {
        Put(Multi(r.id), TokensCell(r.multi));
      }
      if r.coll.Some? {
        Put(Member(r.coll.value, r.id), Mark);
      }
      Put(Doc(r.id), DocCell(Stored(estate.env, r)));
      Put(Vector(r.id), VecCell(r.embedding));
    }

    /** Put every row of a record, and count its terms into `delta`; `None` on an over-long key. */
    method Place(r: Record, delta: map<string, int>) returns (res: Option<map<string, int>>)
      modifies this`batch
      requires |r.id| <= MAX_KEY_LEN
      ensures res.Some? <==> KeysFit(estate.env, estate.fields, r)
      ensures res.Some? ==>
                && (forall j :: At(j) == if !j.Feed? && j.id == r.id && RowOf(estate.env, estate.fields, r, j).Some?
                                         then RowOf(estate.env, estate.fields, r, j) else old(At(j)))
                && (forall t :: Net(res.value, t) == Net(delta, t) + if t in estate.env.analyze(r.text) then 1 else 0)
      ensures forall t :: Merged(batch, t) == old(Merged(batch, t))
    {
      hide Merged, Net, Stored, Transaction.At;
      var delta' := PutPostings(estate.env.analyze(r.text), r.id, delta);
      var ok := PutPayload(r.meta, r.id);
      if !ok {
        return None;
      }
      PutSparse(r.sparse, r.id);
      PutNamed(r.named, r.id);
      PutSingles(r);
      res := Some(delta');
    }

    // ---- statements ----------------------------------------------------------------

    /** The rows of one upserted record: retract the committed version, put the new one, add the feed row. */
    method Rewrite(r: Record, stored: Option<StoredDoc>, feedSeq: nat, delta: map<string, int>)
      returns (res: Option<map<string, int>>)
      requires |r.id| <= MAX_KEY_LEN
      modifies this`batch
      ensures res.Some? <==> KeysFit(estate.env, estate.fields, r)
      ensures res.Some? ==>
                && (forall j :: At(j) == EditRow(estate.env, estate.fields, stored, Upsert(r), feedSeq, j, old(At(j))))
                && (forall t :: Net(res.value, t) == Net(delta, t) + EditDf(estate.env, stored, Upsert(r), t))
      ensures forall t :: Merged(batch, t) == old(Merged(batch, t))
    {
      hide KeysFit, Merged, Net, OldKey, RowOf, Transaction.At;
      var delta' := delta;
      if stored.Some? {
        delta' := Retract(stored.value, r.id, delta');
      }
      res := Place(r, delta');
      if res.None? {
        return;
      }
      Put(Feed(feedSeq), ChangeCell(Change(feedSeq, Upserted, r.id)));
    }

    /** One record of an upsert, with the counters and the graph operation threaded. */
    method UpsertOne(r: Record, delta: map<string, int>) returns (res: Option<map<string, int>>)
      requires Drafted() && DfDrafted(delta) && dirty
      modifies this
      ensures res.Some? <==> KeysFit(estate.env, estate.fields, r)
      ensures res.Some? ==> edits == old(edits) + [Upsert(r)] && Drafted() && DfDrafted(res.value) && dirty
    {
      hide Committed, EditDf, EditRow, Less, Merged, Net, ShapeIn, ShapeOut, Transaction.At, TxCounters, TxDf,
        TxOps, TxRow;
      if |r.id| > MAX_KEY_LEN {
        assert !KeysFit(estate.env, estate.fields, r);
        return None;
      }
      var stored := estate.Lookup(r.id);
      var c := counters;
      if stored.Some? {
        c := c.(docCount := Less(c.docCount, 1), tokens := Less(c.tokens, stored.value.tokenLen),
                shapes := ShapeOut(c.shapes, stored.value.shape));
      }
      var placed := Rewrite(r, stored, c.feedSeq, delta);
      if placed.None? {
        return None;
      }
      counters := Counters(c.docCount + 1, c.tokens + |estate.env.analyze(r.text)|, c.feedSeq + 1,
                           ShapeIn(c.shapes, estate.env.shape(r.meta)));
      ops := ops + [GraphUpsert(r.id, r.embedding)];
      Snoc(estate.env, estate.fields, estate.rows, edits, Upsert(r), estate.counters);
      edits := edits + [Upsert(r)];
      res := placed;
    }

    /** Apply an upsert statement. */
    method UpsertInto(records: seq<Record>) returns (res: Result<(), Error>)
      requires Drafted() && DfDrafted(map[])
      modifies this, estate`info
      ensures res.Ok? <==> Admit(estate.env, estate.schema, estate.fields, old(estate.info), records).Some?
      ensures res.Ok? ==>
                && estate.info == Admit(estate.env, estate.schema, estate.fields, old(estate.info), records).value
                && edits == old(edits) + Upserts(records) && Drafted() && DfDrafted(map[])
      ensures res.Err? ==> res.error == Refusal(estate.env, estate.schema, old(estate.info), records)
      ensures Grew(old(estate.info), estate.info)
    {
      DeclaredOrRefused(estate.env, estate.schema, estate.info, records);
      AdmitParts(estate.env, estate.schema, estate.fields, estate.info, records);
      hide Declared, Refusal, Admit, Grew, KeysFit, Transaction.DfDrafted, Transaction.Drafted;
      var declared := estate.Declare(records);
      if declared.Err? {
        return declared;
      }
      Touch();
      var delta := UpsertEach(records);
      if delta.None? {
        return Err(KeyTooLong);
      }
      FlushDf(delta.value);
      res := Ok(());
    }

    /** The records of an upsert, one after another, with the df delta threaded; `None` at the first key that does not fit. */
    method UpsertEach(records: seq<Record>) returns (res: Option<map<string, int>>)
      requires Drafted() && DfDrafted(map[]) && dirty
      modifies this
      ensures res.Some? <==> forall j :: 0 <= j < |records| ==> KeysFit(estate.env, estate.fields, records[j])
      ensures res.Some? ==> edits == old(edits) + Upserts(records) && Drafted() && DfDrafted(res.value)
    {
      hide KeysFit, Transaction.DfDrafted, Transaction.Drafted;
      var delta: map<string, int> := map[];
      assert Upserts(records[..0]) == [];
      for i := 0 to |records|
        invariant Drafted() && DfDrafted(delta) && dirty
        invariant edits == old(edits) + Upserts(records[..i])
        invariant forall j :: 0 <= j < i ==> KeysFit(estate.env, estate.fields, records[j])
      {
        var next := UpsertOne(records[i], delta);
        if next.None? {
          return None;
        }
        delta := next.value;
        UpsertsSnoc(records, i);
      }
      assert records[..|records|] == records;
      res := Some(delta);
    }

    /** Mark the counters as changed, so that commit writes them back. */
    method Touch()
      requires Drafted()
      modifies this`dirty
      ensures dirty && Drafted()
    {
      dirty := true;
    }

    /** One df operand per term of the statement, where its delta is not zero. */
    method FlushDf(delta: map<string, int>)
      requires Drafted() && DfDrafted(delta)
      modifies this`batch
      ensures Drafted() && DfDrafted(map[])
    {
      hide Merged, Transaction.At, TxCounters, TxDf, TxOps, TxRow;
      MergeAll(delta);
    }

    method MergeAll(delta: map<string, int>)
      modifies this`batch
      ensures forall j :: At(j) == old(At(j))
      ensures estate.stats ==> forall t :: Merged(batch, t) == old(Merged(batch, t)) + Net(delta, t)
    {
      hide Merged, Transaction.At;
      if estate.stats {
        var todo := delta.Keys;
        while todo != {}
          invariant todo <= delta.Keys
          invariant forall j :: At(j) == old(At(j))
          invariant forall t :: Merged(batch, t) == old(Merged(batch, t)) + if t in todo then 0 else Net(delta, t)
          decreases |todo|
        {
          var t :| t in todo;
          if delta[t] != 0 {
            Merge(t, delta[t]);
          }
          todo := todo - {t};
        }
      }
    }

    /** Apply a removal statement: nothing at all when no document is stored under the id. */
    method RemoveInto(id: Id)
      requires Drafted() && DfDrafted(map[])
      modifies this
      ensures edits == old(edits) + [Remove(id)] && Drafted() && DfDrafted(map[])
    {
      hide Committed, Length, Less, Merged, OldKey, RowOf, ShapeIn, ShapeOut, Transaction.At, TxCounters, TxDf,
        TxOps, TxRow;
      var stored := estate.Lookup(id);
      Snoc(estate.env, estate.fields, estate.rows, edits, Remove(id), estate.counters);
      if stored.Some? {
        Erase(id, stored.value, counters.feedSeq);
        counters := Counters(Less(counters.docCount, 1), Less(counters.tokens, stored.value.tokenLen),
                             counters.feedSeq + 1, ShapeOut(counters.shapes, stored.value.shape));
        dirty := true;
        ops := ops + [GraphRemove(id)];
      }
      edits := edits + [Remove(id)];
    }

    /** The rows of a removal, and its df operands. */
    method Erase(id: Id, old_: StoredDoc, feedSeq: nat)
      modifies this`batch
      ensures forall j :: At(j) == EditRow(estate.env, estate.fields, Some(old_), Remove(id), feedSeq, j, old(At(j)))
      ensures estate.stats ==>
                forall t :: Merged(batch, t) == old(Merged(batch, t)) + EditDf(estate.env, Some(old_), Remove(id), t)
    {
      hide Merged, OldKey, RowOf, Transaction.At;
      var gone := Retract(old_, id, map[]);
      MergeAll(gone);
      Delete(Doc(id));
      Delete(Vector(id));
      Put(Feed(feedSeq), ChangeCell(Change(feedSeq, Removed, id)));
    }

    /** Commit: the counters join the batch, the batch lands atomically, and only then are the graph
        operations queued. */
    method Commit()
      requires Drafted() && DfDrafted(map[])
      modifies this, estate`rows, estate`df, estate`counters, estate`pushed, estate`docs, estate`feed
      ensures Landed(estate.env, estate.fields, estate.stats, old(edits),
                     old(estate.rows), old(estate.df), old(estate.counters), old(estate.pushed),
                     estate.rows, estate.df, estate.counters, estate.pushed)
      ensures estate.docs == DocsAfter(old(estate.docs), old(edits))
      ensures estate.feed == FeedAfter(old(estate.docs), old(estate.feed), old(edits))
    {
      hide After, DocsAfter, FeedAfter, Get, Merged, TxCounters, TxDf, TxOps, TxRow;
      estate.Write(batch, if dirty then Some(counters) else None);
      estate.feed := FeedAfter(estate.docs, estate.feed, edits);
      estate.docs := DocsAfter(estate.docs, edits);
      for i := 0 to |ops|
        modifies estate`pushed
        invariant estate.pushed == old(estate.pushed) + ops[..i]
      {
        assert ops[..i + 1] == ops[..i] + [ops[i]];
        estate.pushed := estate.pushed + [ops[i]];
      }
      assert ops[..|ops|] == ops;
    }
  }

  /** What committing `es` over one set of tables must leave in their place. */
  ghost predicate Landed(env: Env, fields: seq<string>, stats: bool, es: seq<Edit>,
                         rows: map<Key, Cell>, df: map<string, int>, c: Counters, pushed: seq<GraphOp>,
                         rows': map<Key, Cell>, df': map<string, int>, c': Counters, pushed': seq<GraphOp>)
  {
    && Commits(env, fields, rows, c, es, rows', c')
    && (stats ==> forall t :: Net(df', t) == Net(df, t) + TxDf(env, rows, es, t))
    && pushed' == pushed + TxOps(rows, es)
  }
}
