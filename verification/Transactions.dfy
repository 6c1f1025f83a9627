/**
 * Whole transactions.
 */
module Transactions {
  import opened Wrappers
  import opened Tables
  import opened Statements
  import opened WritePath

  // All statements or none, and one at a time or all at once. A transaction drafts its batch statement
  // by statement and lands it at commit; a failed statement lands nothing.

  lemma {:induction false} AdmitFails(env: Env, schema: Schema, fields: seq<string>, info: Info, stmts: seq<Stmt>, n: nat)
    requires n <= |stmts| && AdmitAll(env, schema, fields, info, stmts[..n]).None?
    ensures AdmitAll(env, schema, fields, info, stmts).None?
    decreases |stmts| - n
  {
    if n == |stmts| {
      assert stmts[..n] == stmts;
    } else {
      assert stmts[..n + 1][..n] == stmts[..n];
      AdmitFails(env, schema, fields, info, stmts, n + 1);
    }
  }

  lemma Prefix(env: Env, schema: Schema, fields: seq<string>, info: Info, stmts: seq<Stmt>, i: nat)
    requires i < |stmts|
    ensures Edits(stmts[..i + 1]) == Edits(stmts[..i]) + EditsOf(stmts[i])
    ensures var before := AdmitAll(env, schema, fields, info, stmts[..i]);
            AdmitAll(env, schema, fields, info, stmts[..i + 1])
            == if before.None? then None else AdmitStmt(env, schema, fields, before.value, stmts[i])
  {
    assert stmts[..i + 1][..i] == stmts[..i];
  }

  /** Statement `i` is the first refused, for the given reason. */
  ghost predicate FailsAt(env: Env, schema: Schema, fields: seq<string>, info: Info, stmts: seq<Stmt>, i: nat, error: Error)
    requires i < |stmts|
  {
    var before := AdmitAll(env, schema, fields, info, stmts[..i]);
    && before.Some? && stmts[i].UpsertStmt?
    && Admit(env, schema, fields, before.value, stmts[i].records).None?
    && error == Refusal(env, schema, before.value, stmts[i].records)
  }

  lemma GrewTrans(a: Info, b: Info, c: Info)
    requires Grew(a, b) && Grew(b, c)
    ensures Grew(a, c)
  {
  }

  /** Run `stmts` as one atomic transaction. On an error nothing but declarations has changed. */
  method Transact(e: Estate, stmts: seq<Stmt>) returns (res: Result<(), Error>)
    modifies e`rows, e`df, e`counters, e`info, e`pushed, e`docs, e`feed
    ensures res.Ok? <==> AdmitAll(e.env, e.schema, e.fields, old(e.info), stmts).Some?
    ensures res.Ok? ==>
              && e.info == AdmitAll(e.env, e.schema, e.fields, old(e.info), stmts).value
              && Landed(e.env, e.fields, e.stats, Edits(stmts), old(e.rows), old(e.df), old(e.counters), old(e.pushed),
                        e.rows, e.df, e.counters, e.pushed)
              && e.docs == DocsAfter(old(e.docs), Edits(stmts))
              && e.feed == FeedAfter(old(e.docs), old(e.feed), Edits(stmts))
    ensures res.Err? ==> exists i: nat ::
              i < |stmts| && FailsAt(e.env, e.schema, e.fields, old(e.info), stmts, i, res.error)
    ensures res.Err? ==>
              && e.rows == old(e.rows) && e.df == old(e.df) && e.counters == old(e.counters)
              && e.pushed == old(e.pushed) && e.docs == old(e.docs) && e.feed == old(e.feed)
    ensures Grew(old(e.info), e.info)
    ensures old(e.Valid()) && (res.Err? || DistinctIds(Edits(stmts))) ==> e.Valid()
    ensures old(Declares(e.info, e.docs)) ==> Declares(e.info, e.docs)
  {
    hide Admit, Declares, DistinctIds, DocsAfter, FeedAfter, Image, Landed, Transaction.DfDrafted,
      Transaction.Drafted, Upserts;
    var tx := new Transaction.Begin(e);
    assert stmts[..0] == [] && Edits([]) == [] && AdmitAll(e.env, e.schema, e.fields, e.info, []) == Some(e.info);
    assert Grew(e.info, e.info);
    for i := 0 to |stmts|
      modifies tx, e`info
      invariant tx.Drafted() && tx.DfDrafted(map[])
      invariant tx.edits == Edits(stmts[..i])
      invariant AdmitAll(e.env, e.schema, e.fields, old(e.info), stmts[..i]) == Some(e.info)
      invariant Grew(old(e.info), e.info)
    {
      Prefix(e.env, e.schema, e.fields, old(e.info), stmts, i);
      ghost var before := e.info;
      match stmts[i] {
        case UpsertStmt(records) =>
          var r := tx.UpsertInto(records);
          GrewTrans(old(e.info), before, e.info);
          if r.Err? {
            assert AdmitAll(e.env, e.schema, e.fields, old(e.info), stmts[..i + 1]).None?;
            AdmitFails(e.env, e.schema, e.fields, old(e.info), stmts, i + 1);
            assert FailsAt(e.env, e.schema, e.fields, old(e.info), stmts, i, r.error);
            assert old(e.Valid()) ==> e.Valid();
            if old(Declares(e.info, e.docs)) {
              GrewDeclares(old(e.info), e.info, e.docs);
            }
            return r;
          }
        case RemoveStmt(id) =>
          tx.RemoveInto(id);
      }
      assert tx.edits == Edits(stmts[..i + 1]);
      assert AdmitAll(e.env, e.schema, e.fields, old(e.info), stmts[..i + 1]) == Some(e.info);
    }
    assert stmts[..|stmts|] == stmts;
    tx.Commit();
    if old(e.Valid()) && DistinctIds(Edits(stmts)) {
      LandedImage(e.env, e.fields, e.stats, old(e.docs), old(e.feed), Edits(stmts), old(e.rows), old(e.df), old(e.counters),
                  old(e.pushed), e.rows, e.df, e.counters, e.pushed);
      assert e.Valid();
    }
    if old(Declares(e.info, e.docs)) {
      TransactionDeclares(e.env, e.schema, e.fields, old(e.info), stmts, old(e.docs));
    }
    res := Ok(());
  }

  lemma LandedImage(env: Env, fields: seq<string>, stats: bool, docs: map<Id, Record>, feed: seq<Change>, es: seq<Edit>,
                    rows: map<Key, Cell>, df: map<string, int>, c: Counters, pushed: seq<GraphOp>,
                    rows': map<Key, Cell>, df': map<string, int>, c': Counters, pushed': seq<GraphOp>)
    requires Landed(env, fields, stats, es, rows, df, c, pushed, rows', df', c', pushed')
    requires Image(env, fields, docs, feed, rows, df, c, stats) && DistinctIds(es)
    ensures Image(env, fields, DocsAfter(docs, es), FeedAfter(docs, feed, es), rows', df', c', stats)
  {
    hide DistinctIds, DocsAfter, FeedAfter, Get, Image, Net, TxCounters, TxDf, TxOps, TxRow;
    TransactionImage(env, fields, docs, feed, rows, df, c, stats, es, rows', df');
  }

  // ---- one at a time --------------------------------------------------------------

  lemma {:induction false} EditsPrefix(stmts: seq<Stmt>, n: nat)
    requires n <= |stmts|
    ensures Edits(stmts[..n]) <= Edits(stmts)
    decreases |stmts| - n
  {
    if n == |stmts| {
      assert stmts[..n] == stmts;
    } else {
      assert stmts[..n + 1][..n] == stmts[..n];
      EditsPrefix(stmts, n + 1);
    }
  }

  lemma LandedCompose(env: Env, fields: seq<string>, stats: bool, a: seq<Edit>, b: seq<Edit>,
                      rows0: map<Key, Cell>, df0: map<string, int>, c0: Counters, pushed0: seq<GraphOp>,
                      rows1: map<Key, Cell>, df1: map<string, int>, c1: Counters, pushed1: seq<GraphOp>,
                      rows2: map<Key, Cell>, df2: map<string, int>, c2: Counters, pushed2: seq<GraphOp>)
    requires DistinctIds(a + b)
    requires Landed(env, fields, stats, a, rows0, df0, c0, pushed0, rows1, df1, c1, pushed1)
    requires Landed(env, fields, stats, b, rows1, df1, c1, pushed1, rows2, df2, c2, pushed2)
    ensures Landed(env, fields, stats, a + b, rows0, df0, c0, pushed0, rows2, df2, c2, pushed2)
  {
    hide DistinctIds, Get, Net, TxCounters, TxDf, TxOps, TxRow;
    CommitsCompose(env, fields, rows0, c0, a, rows1, c1, b);
  }

  /** The committed tables are determined by what they were and the edits. */
  lemma LandedUnique(env: Env, fields: seq<string>, es: seq<Edit>,
                     rows: map<Key, Cell>, df: map<string, int>, c: Counters, pushed: seq<GraphOp>,
                     rows1: map<Key, Cell>, df1: map<string, int>, c1: Counters, pushed1: seq<GraphOp>,
                     rows2: map<Key, Cell>, df2: map<string, int>, c2: Counters, pushed2: seq<GraphOp>)
    requires Landed(env, fields, true, es, rows, df, c, pushed, rows1, df1, c1, pushed1)
    requires Landed(env, fields, true, es, rows, df, c, pushed, rows2, df2, c2, pushed2)
    ensures rows1 == rows2 && c1 == c2 && pushed1 == pushed2 && forall t :: Net(df1, t) == Net(df2, t)
  {
    hide TxRow, TxCounters, TxDf, TxOps;
    assert forall k :: Get(rows1, k) == Get(rows2, k);
    assert forall k :: k in rows1 ==> Get(rows2, k) == Some(rows1[k]);
    assert forall k :: k in rows2 ==> Get(rows1, k) == Some(rows2[k]);
  }

  lemma LandedNothing(env: Env, fields: seq<string>, stats: bool, rows: map<Key, Cell>, df: map<string, int>, c: Counters,
                      pushed: seq<GraphOp>)
    ensures Landed(env, fields, stats, [], rows, df, c, pushed, rows, df, c, pushed)
  {
  }

  /** Run `stmts` as one transaction each, stopping at the first error. Over distinct ids a full run
      lands what one transaction of them all lands. */
  method TransactEach(e: Estate, stmts: seq<Stmt>) returns (res: Result<(), Error>)
    modifies e`rows, e`df, e`counters, e`info, e`pushed, e`docs, e`feed
    ensures res.Ok? <==> AdmitAll(e.env, e.schema, e.fields, old(e.info), stmts).Some?
    ensures res.Ok? ==> e.info == AdmitAll(e.env, e.schema, e.fields, old(e.info), stmts).value
    ensures res.Ok? && DistinctIds(Edits(stmts)) ==>
              Landed(e.env, e.fields, e.stats, Edits(stmts), old(e.rows), old(e.df), old(e.counters), old(e.pushed),
                     e.rows, e.df, e.counters, e.pushed)
    ensures old(e.Valid()) && DistinctIds(Edits(stmts)) ==> e.Valid()
    ensures old(Declares(e.info, e.docs)) ==> Declares(e.info, e.docs)
  {
    hide AdmitStmt, Declares, DistinctIds, DocsAfter, EditsOf, Estate.Valid, FeedAfter, Grew, Landed;
    assert stmts[..0] == [] && Edits([]) == [] && AdmitAll(e.env, e.schema, e.fields, e.info, []) == Some(e.info);
    LandedNothing(e.env, e.fields, e.stats, e.rows, e.df, e.counters, e.pushed);
    for i := 0 to |stmts|
      invariant AdmitAll(e.env, e.schema, e.fields, old(e.info), stmts[..i]) == Some(e.info)
      invariant DistinctIds(Edits(stmts)) ==>
                  Landed(e.env, e.fields, e.stats, Edits(stmts[..i]), old(e.rows), old(e.df), old(e.counters), old(e.pushed),
                         e.rows, e.df, e.counters, e.pushed)
      invariant old(e.Valid()) && DistinctIds(Edits(stmts)) ==> e.Valid()
      invariant old(Declares(e.info, e.docs)) ==> Declares(e.info, e.docs)
    {
      Prefix(e.env, e.schema, e.fields, old(e.info), stmts, i);
      Alone(e.env, e.schema, e.fields, e.info, stmts[i]);
      ghost var rows1, df1, c1, pushed1 := e.rows, e.df, e.counters, e.pushed;
      if DistinctIds(Edits(stmts)) {
        DistinctPart(stmts, i);
      }
      var r := Transact(e, [stmts[i]]);
      if r.Err? {
        AdmitFails(e.env, e.schema, e.fields, old(e.info), stmts, i + 1);
        return r;
      }
      if DistinctIds(Edits(stmts)) {
        LandedCompose(e.env, e.fields, e.stats, Edits(stmts[..i]), EditsOf(stmts[i]),
                      old(e.rows), old(e.df), old(e.counters), old(e.pushed),
                      rows1, df1, c1, pushed1, e.rows, e.df, e.counters, e.pushed);
      }
    }
    assert stmts[..|stmts|] == stmts;
    res := Ok(());
  }

  lemma DistinctPart(stmts: seq<Stmt>, i: nat)
    requires i < |stmts| && DistinctIds(Edits(stmts))
    ensures DistinctIds(Edits(stmts[..i]) + EditsOf(stmts[i])) && DistinctIds(EditsOf(stmts[i]))
  {
    hide DistinctIds, EditsOf;
    EditsPrefix(stmts, i + 1);
    assert stmts[..i + 1][..i] == stmts[..i];
    DistinctSlices(Edits(stmts[..i]), EditsOf(stmts[i]), Edits(stmts));
  }

  lemma DistinctSlices(a: seq<Edit>, b: seq<Edit>, whole: seq<Edit>)
    requires a + b <= whole && DistinctIds(whole)
    ensures DistinctIds(a + b) && DistinctIds(b)
  {
    forall x, y | 0 <= x < y < |a + b| ensures IdOf((a + b)[x]) != IdOf((a + b)[y]) {
      assert (a + b)[x] == whole[x] && (a + b)[y] == whole[y];
    }
    forall x, y | 0 <= x < y < |b| ensures IdOf(b[x]) != IdOf(b[y]) {
      assert b[x] == whole[|a| + x] && b[y] == whole[|a| + y];
    }
  }

  lemma Alone(env: Env, schema: Schema, fields: seq<string>, info: Info, s: Stmt)
    ensures Edits([s]) == EditsOf(s)
    ensures AdmitAll(env, schema, fields, info, [s]) == AdmitStmt(env, schema, fields, info, s)
  {
    assert [s][..0] == [];
    assert Edits([s][..0]) == [];
    assert AdmitAll(env, schema, fields, info, [s][..0]) == Some(info);
  }

  // ---- declarations ------------------------------------------------------------------

  /** What is declared of one record: its dimension, its named spaces' and its collection. */
  ghost predicate DeclaresRecord(info: Info, r: Record) {
    && info.dim == Some(|r.embedding|)
    && (forall s :: s in r.named ==> s in info.named && info.named[s] == |r.named[s]|)
    && (r.coll.Some? ==> r.coll.value in info.registry)
  }

  ghost predicate Declares(info: Info, docs: map<Id, Record>) {
    forall id :: id in docs ==> DeclaresRecord(info, docs[id])
  }

  lemma GrewDeclares(info: Info, info': Info, docs: map<Id, Record>)
    requires Grew(info, info') && Declares(info, docs)
    ensures Declares(info', docs)
  {
    forall id | id in docs ensures DeclaresRecord(info', docs[id]) {
      assert DeclaresRecord(info, docs[id]);
    }
  }

  lemma {:induction false} LearnCovers(named: map<string, nat>, records: seq<Record>, r: Record, s: string)
    requires LearnAll(named, records).Some? && r in records && s in r.named
    ensures var m := LearnAll(named, records).value; s in m && m[s] == |r.named[s]|
  {
    var last, rest := records[|records| - 1], records[..|records| - 1];
    if r != last {
      var i :| 0 <= i < |records| && records[i] == r;
      assert rest[i] == r;
      LearnCovers(named, rest, r, s);
    }
  }

  lemma {:induction false} UpsertedDoc(docs: map<Id, Record>, records: seq<Record>, id: Id)
    requires id in DocsAfter(docs, Upserts(records))
    ensures var r := DocsAfter(docs, Upserts(records))[id]; r in records || (id in docs && docs[id] == r)
  {
    if records == [] {
      assert Upserts(records) == [];
    } else {
      var n := |records| - 1;
      UpsertsSnoc(records, n);
      assert records[..n + 1] == records;
      assert (Upserts(records[..n]) + [Upsert(records[n])])[..n] == Upserts(records[..n]);
      if id != records[n].id {
        UpsertedDoc(docs, records[..n], id);
      }
    }
  }

  /** An admitted upsert declares every record it leaves. */
  lemma AdmittedDeclares(env: Env, schema: Schema, fields: seq<string>, info: Info, records: seq<Record>, docs: map<Id, Record>)
    requires Declares(info, docs) && Admit(env, schema, fields, info, records).Some?
    ensures Declares(Admit(env, schema, fields, info, records).value, DocsAfter(docs, Upserts(records)))
  {
    var info' := Admit(env, schema, fields, info, records).value;
    var docs' := DocsAfter(docs, Upserts(records));
    LearnKeeps(info.named, records);
    forall id | id in docs' ensures DeclaresRecord(info', docs'[id]) {
      UpsertedDoc(docs, records, id);
      var r := docs'[id];
      if r in records {
        assert |r.embedding| == DimOf(info, records);
        forall s | s in r.named ensures s in info'.named && info'.named[s] == |r.named[s]| {
          LearnCovers(info.named, records, r, s);
        }
        if r.coll.Some? {
          assert r.coll.value in Colls(records);
        }
      } else {
        assert DeclaresRecord(info, docs[id]);
      }
    }
  }

  /** Every document a transaction leaves is declared: its dimensions and collection were fixed by the
      first record to use them. */
  lemma {:induction false} TransactionDeclares(env: Env, schema: Schema, fields: seq<string>, info: Info, stmts: seq<Stmt>,
                                               docs: map<Id, Record>)
    requires Declares(info, docs) && AdmitAll(env, schema, fields, info, stmts).Some?
    ensures Declares(AdmitAll(env, schema, fields, info, stmts).value, DocsAfter(docs, Edits(stmts)))
  {
    if stmts != [] {
      var n := |stmts| - 1;
      var rest := stmts[..n];
      TransactionDeclares(env, schema, fields, info, rest, docs);
      DocsCompose(docs, Edits(rest), EditsOf(stmts[n]));
      var mid, middle := AdmitAll(env, schema, fields, info, rest).value, DocsAfter(docs, Edits(rest));
      match stmts[n] {
        case UpsertStmt(records) => AdmittedDeclares(env, schema, fields, mid, records, middle);
        case RemoveStmt(id) =>
          assert [Remove(id)][..0] == [];
          assert DocsAfter(middle, [Remove(id)][..0]) == middle;
      }
    }
  }

  lemma {:induction false} DocsCompose(docs: map<Id, Record>, a: seq<Edit>, b: seq<Edit>)
    ensures DocsAfter(docs, a + b) == DocsAfter(DocsAfter(docs, a), b)
    decreases |b|
  {
    if b == [] {
      assert a + b == a;
    } else {
      assert (a + b)[..|a + b| - 1] == a + b[..|b| - 1];
      DocsCompose(docs, a, b[..|b| - 1]);
    }
  }

  // ---- what acceptance says of a record -------------------------------------------------

  /** When a one-record upsert is accepted, in terms of the record's own fields. */
  lemma OneRecordAccepted(env: Env, schema: Schema, fields: seq<string>, info: Info, r: Record)
    ensures AdmitAll(env, schema, fields, info, [UpsertStmt([r])]).Some? <==>
              && (info.dim.Some? ==> |r.embedding| == info.dim.value)
              && (r.coll.Some? && r.coll.value in schema ==>
                    forall f :: f in schema[r.coll.value] && f in r.meta ==> env.conforms(r.meta[f], schema[r.coll.value][f]))
              && (forall s :: s in r.named && s in info.named ==> |r.named[s]| == info.named[s])
              && (forall v, w :: v in r.multi && w in r.multi ==> |v| == |w|)
              && |r.id| <= 65_536
              && (forall f :: f in fields && f in r.meta ==> |f| + 1 + |env.code(r.meta[f])| + 1 + |r.id| <= 65_536)
  {
    Alone(env, schema, fields, info, UpsertStmt([r]));
    hide AdmitAll;
    OneLearned(info.named, r);
    EvenMultiIff(r);
    hide LearnAll, EvenMulti;
    assert r in [r] && forall x :: x in [r] ==> x == r;
  }

  lemma OneLearned(named: map<string, nat>, r: Record)
    ensures LearnAll(named, [r]).Some? <==> NamedFits(named, r) && EvenMulti(r)
  {
    assert [r][..0] == [];
    assert LearnAll(named, [r][..0]) == Some(named);
  }

  lemma EvenMultiIff(r: Record)
    ensures EvenMulti(r) <==> forall v, w :: v in r.multi && w in r.multi ==> |v| == |w|
  {
    if EvenMulti(r) {
      forall v, w | v in r.multi && w in r.multi ensures |v| == |w| {
        var i, j :| 0 <= i < |r.multi| && 0 <= j < |r.multi| && r.multi[i] == v && r.multi[j] == w;
      }
    } else {
      var i :| 0 <= i < |r.multi| && |r.multi[i]| != |r.multi[0]|;
      assert r.multi[i] in r.multi && r.multi[0] in r.multi;
    }
  }

  /** A record that fits the types its collection declares, has token vectors of one dimension, and keys that fit. */
  ghost predicate Fitting(env: Env, schema: Schema, fields: seq<string>, r: Record) {
    && (r.coll.Some? && r.coll.value in schema ==>
          forall f :: f in schema[r.coll.value] && f in r.meta ==> env.conforms(r.meta[f], schema[r.coll.value][f]))
    && (forall v, w :: v in r.multi && w in r.multi ==> |v| == |w|)
    && |r.id| <= 65_536
    && (forall f :: f in fields && f in r.meta ==> |f| + 1 + |env.code(r.meta[f])| + 1 + |r.id| <= 65_536)
  }

  lemma AdmittedFits(env: Env, schema: Schema, fields: seq<string>, info: Info, records: seq<Record>, r: Record)
    requires Admit(env, schema, fields, info, records).Some? && r in records
    ensures Fitting(env, schema, fields, r)
  {
    assert KeysFit(env, fields, r) && Conforms(env, schema, r);
    LearnedEven(info.named, records, r);
    EvenMultiIff(r);
  }

  lemma {:induction false} LearnedEven(named: map<string, nat>, records: seq<Record>, r: Record)
    requires LearnAll(named, records).Some? && r in records
    ensures EvenMulti(r)
    decreases |records|
  {
    var last, rest := records[|records| - 1], records[..|records| - 1];
    if r != last {
      var i :| 0 <= i < |records| && records[i] == r;
      assert rest[i] == r;
      LearnedEven(named, rest, r);
    }
  }

  /** What one statement leaves was there before or fits. */
  lemma StatementFits(env: Env, schema: Schema, fields: seq<string>, info: Info, s: Stmt, docs: map<Id, Record>, id: Id)
    requires AdmitStmt(env, schema, fields, info, s).Some? && id in DocsAfter(docs, EditsOf(s))
    ensures var r := DocsAfter(docs, EditsOf(s))[id]; (id in docs && docs[id] == r) || Fitting(env, schema, fields, r)
  {
    hide Admit, Fitting;
    match s
    case UpsertStmt(records) =>
      UpsertedDoc(docs, records, id);
      var r := DocsAfter(docs, EditsOf(s))[id];
      if r in records {
        AdmittedFits(env, schema, fields, info, records, r);
      }
    case RemoveStmt(gone) =>
      assert [Remove(gone)][..0] == [];
      assert DocsAfter(docs, [Remove(gone)][..0]) == docs;
  }

  /** Every document a successful transaction leaves was there before or fits its declarations. */
  lemma {:induction false} WrittenFits(env: Env, schema: Schema, fields: seq<string>, info: Info, stmts: seq<Stmt>,
                                       docs: map<Id, Record>, id: Id)
    requires AdmitAll(env, schema, fields, info, stmts).Some? && id in DocsAfter(docs, Edits(stmts))
    ensures var r := DocsAfter(docs, Edits(stmts))[id];
            (id in docs && docs[id] == r) || Fitting(env, schema, fields, r)
    decreases |stmts|
  {
    if stmts != [] {
      var n := |stmts| - 1;
      var rest := stmts[..n];
      var mid, middle := AdmitAll(env, schema, fields, info, rest), DocsAfter(docs, Edits(rest));
      assert mid.Some? && AdmitStmt(env, schema, fields, mid.value, stmts[n]).Some?;
      assert Edits(stmts) == Edits(rest) + EditsOf(stmts[n]);
      hide AdmitAll, AdmitStmt, Fitting, DocsAfter, Edits, EditsOf;
      DocsCompose(docs, Edits(rest), EditsOf(stmts[n]));
      StatementFits(env, schema, fields, mid.value, stmts[n], middle, id);
      if id in middle {
        WrittenFits(env, schema, fields, info, rest, docs, id);
      }
    } else {
      assert Edits(stmts) == [];
    }
  }
}
