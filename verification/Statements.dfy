/**
 * What a transaction's edits add up to, as functions of the committed tables.
 */
module Statements {
  import opened Sets
  import opened Wrappers
  import opened Tables

  // Every lookup of an old document reads the committed rows, never the batch. `TransactionImage`
  // says the result is the image of the edited documents when no id is touched twice;
  // `KeepsImageIff` says that a repeated id always breaks it over some estate; `CountRightIff` and
  // `StalePostingIff` say what it breaks over a given one.

  function TxCounters(env: Env, rows: map<Key, Cell>, es: seq<Edit>, c: Counters): Counters {
    if es == [] then c
    else
      var e := es[|es| - 1];
      EditCounters(env, Committed(rows, IdOf(e)), e, TxCounters(env, rows, es[..|es| - 1], c))
  }

  /** The row at `k` once the edits' batch is written over `rows`. */
  function TxRow(env: Env, fields: seq<string>, rows: map<Key, Cell>, es: seq<Edit>, c: Counters, k: Key): Option<Cell> {
    if es == [] then Get(rows, k)
    else
      var e, rest := es[|es| - 1], es[..|es| - 1];
      EditRow(env, fields, Committed(rows, IdOf(e)), e, TxCounters(env, rows, rest, c).feedSeq, k,
              TxRow(env, fields, rows, rest, c, k))
  }

  function TxDf(env: Env, rows: map<Key, Cell>, es: seq<Edit>, t: string): int {
    if es == [] then 0
    else
      var e := es[|es| - 1];
      TxDf(env, rows, es[..|es| - 1], t) + EditDf(env, Committed(rows, IdOf(e)), e, t)
  }

  /** The graph operations queued for the applier, in statement order. */
  function TxOps(rows: map<Key, Cell>, es: seq<Edit>): seq<GraphOp> {
    if es == [] then []
    else
      var e := es[|es| - 1];
      TxOps(rows, es[..|es| - 1]) + EditOps(Committed(rows, IdOf(e)), e)
  }

  function DocsAfter(docs: map<Id, Record>, es: seq<Edit>): map<Id, Record> {
    if es == [] then docs else EditDocs(DocsAfter(docs, es[..|es| - 1]), es[|es| - 1])
  }

  function FeedAfter(docs: map<Id, Record>, feed: seq<Change>, es: seq<Edit>): seq<Change> {
    if es == [] then feed
    else
      var rest := es[..|es| - 1];
      EditFeed(DocsAfter(docs, rest), FeedAfter(docs, feed, rest), es[|es| - 1])
  }

  /** One more edit, in each of the functions above. */
  lemma Snoc(env: Env, fields: seq<string>, rows: map<Key, Cell>, es: seq<Edit>, e: Edit, c: Counters)
    ensures TxCounters(env, rows, es + [e], c)
            == EditCounters(env, Committed(rows, IdOf(e)), e, TxCounters(env, rows, es, c))
    ensures forall k :: TxRow(env, fields, rows, es + [e], c, k)
                        == EditRow(env, fields, Committed(rows, IdOf(e)), e, TxCounters(env, rows, es, c).feedSeq, k,
                                   TxRow(env, fields, rows, es, c, k))
    ensures forall t :: TxDf(env, rows, es + [e], t)
                        == TxDf(env, rows, es, t) + EditDf(env, Committed(rows, IdOf(e)), e, t)
    ensures TxOps(rows, es + [e]) == TxOps(rows, es) + EditOps(Committed(rows, IdOf(e)), e)
  {
    assert (es + [e])[..|es + [e]| - 1] == es;
  }

  predicate Touches(es: seq<Edit>, id: Id) {
    exists i :: 0 <= i < |es| && IdOf(es[i]) == id
  }

  ghost predicate DistinctIds(es: seq<Edit>) {
    forall i, j :: 0 <= i < j < |es| ==> IdOf(es[i]) != IdOf(es[j])
  }

  lemma CommittedIsStored(env: Env, fields: seq<string>, docs: map<Id, Record>, feed: seq<Change>, rows: map<Key, Cell>, id: Id)
    requires RowsOk(env, fields, docs, feed, rows)
    ensures Committed(rows, id) == if id in docs then Some(Stored(env, docs[id])) else None
  {
    assert Get(rows, Doc(id)) == Expected(env, fields, docs, feed, Doc(id));
  }

  /** Edits leave the documents they do not name. */
  lemma {:induction false} UntouchedDoc(docs: map<Id, Record>, es: seq<Edit>, id: Id)
    requires !Touches(es, id)
    ensures Get(DocsAfter(docs, es), id) == Get(docs, id)
  {
    if es != [] {
      var rest := es[..|es| - 1];
      assert IdOf(es[|es| - 1]) != id;
      forall i | 0 <= i < |rest| ensures IdOf(rest[i]) != id {
        assert rest[i] == es[i];
      }
      UntouchedDoc(docs, rest, id);
    }
  }

  lemma LastUntouched(es: seq<Edit>)
    requires es != [] && DistinctIds(es)
    ensures DistinctIds(es[..|es| - 1]) && !Touches(es[..|es| - 1], IdOf(es[|es| - 1]))
  {
    var rest := es[..|es| - 1];
    forall i | 0 <= i < |rest| ensures IdOf(rest[i]) != IdOf(es[|es| - 1]) {
      assert rest[i] == es[i];
    }
    assert DistinctIds(rest);
  }

  /** What the last edit looks up is the document as the earlier edits left it. */
  lemma LookupFresh(env: Env, fields: seq<string>, docs: map<Id, Record>, feed: seq<Change>, rows: map<Key, Cell>, es: seq<Edit>)
    requires es != [] && DistinctIds(es) && RowsOk(env, fields, docs, feed, rows)
    ensures var e, now := es[|es| - 1], DocsAfter(docs, es[..|es| - 1]);
            Committed(rows, IdOf(e)) == if IdOf(e) in now then Some(Stored(env, now[IdOf(e)])) else None
  {
    hide Committed, DistinctIds, DocsAfter, IdOf, RowsOk, Stored, Touches;
    LastUntouched(es);
    var e, rest := es[|es| - 1], es[..|es| - 1];
    UntouchedDoc(docs, rest, IdOf(e));
    CommittedIsStored(env, fields, docs, feed, rows, IdOf(e));
  }

  /** Over distinct ids, the batch turns the image of the old documents into the image of the new. */
  lemma {:induction false} TransactionRows(env: Env, fields: seq<string>, docs: map<Id, Record>, feed: seq<Change>,
                                           rows: map<Key, Cell>, c: Counters, es: seq<Edit>, k: Key)
    requires DistinctIds(es) && RowsOk(env, fields, docs, feed, rows) && CountersOk(env, docs, feed, c)
    ensures TxRow(env, fields, rows, es, c, k)
            == Expected(env, fields, DocsAfter(docs, es), FeedAfter(docs, feed, es), k)
    decreases |es|
  {
    if es == [] {
    } else {
      var e, rest := es[|es| - 1], es[..|es| - 1];
      LastUntouched(es);
      TransactionRows(env, fields, docs, feed, rows, c, rest, k);
      TransactionCounters(env, fields, docs, feed, rows, c, rest);
      LookupFresh(env, fields, docs, feed, rows, es);
      EditRowOk(env, fields, DocsAfter(docs, rest), FeedAfter(docs, feed, rest), Committed(rows, IdOf(e)), e, k);
    }
  }

  lemma {:induction false} TransactionCounters(env: Env, fields: seq<string>, docs: map<Id, Record>, feed: seq<Change>,
                                               rows: map<Key, Cell>, c: Counters, es: seq<Edit>)
    requires DistinctIds(es) && RowsOk(env, fields, docs, feed, rows) && CountersOk(env, docs, feed, c)
    ensures CountersOk(env, DocsAfter(docs, es), FeedAfter(docs, feed, es), TxCounters(env, rows, es, c))
    decreases |es|
  {
    if es == [] {
    } else {
      var e, rest := es[|es| - 1], es[..|es| - 1];
      LastUntouched(es);
      TransactionCounters(env, fields, docs, feed, rows, c, rest);
      LookupFresh(env, fields, docs, feed, rows, es);
      EditCountersOk(env, DocsAfter(docs, rest), FeedAfter(docs, feed, rest), Committed(rows, IdOf(e)), e,
                     TxCounters(env, rows, rest, c));
    }
  }

  lemma {:induction false} TransactionDf(env: Env, fields: seq<string>, docs: map<Id, Record>, feed: seq<Change>,
                                         rows: map<Key, Cell>, es: seq<Edit>, t: string)
    requires DistinctIds(es) && RowsOk(env, fields, docs, feed, rows)
    ensures DocFreq(env, DocsAfter(docs, es), t) == DocFreq(env, docs, t) + TxDf(env, rows, es, t)
    decreases |es|
  {
    if es == [] {
    } else {
      var e, rest := es[|es| - 1], es[..|es| - 1];
      LastUntouched(es);
      TransactionDf(env, fields, docs, feed, rows, rest, t);
      LookupFresh(env, fields, docs, feed, rows, es);
      EditDfOk(env, DocsAfter(docs, rest), Committed(rows, IdOf(e)), e, t);
    }
  }

  lemma {:induction false} TransactionKeyed(docs: map<Id, Record>, feed: seq<Change>, es: seq<Edit>)
    requires Keyed(docs) && Numbered(feed)
    ensures Keyed(DocsAfter(docs, es)) && Numbered(FeedAfter(docs, feed, es))
  {
    if es != [] {
      TransactionKeyed(docs, feed, es[..|es| - 1]);
    }
  }

  /** A committed transaction over distinct ids leaves every table the image of the edited documents. */
  lemma TransactionImage(env: Env, fields: seq<string>, docs: map<Id, Record>, feed: seq<Change>,
                         rows: map<Key, Cell>, df: map<string, int>, c: Counters, stats: bool, es: seq<Edit>,
                         rows': map<Key, Cell>, df': map<string, int>)
    requires Image(env, fields, docs, feed, rows, df, c, stats) && DistinctIds(es)
    requires forall k :: Get(rows', k) == TxRow(env, fields, rows, es, c, k)
    requires stats ==> forall t :: Net(df', t) == Net(df, t) + TxDf(env, rows, es, t)
    ensures Image(env, fields, DocsAfter(docs, es), FeedAfter(docs, feed, es), rows', df', TxCounters(env, rows, es, c), stats)
  {
    hide CountersOk, DistinctIds, DocFreq, DocsAfter, Expected, FeedAfter, Get, Keyed, Net, Numbered,
      TxCounters, TxDf, TxRow;
    TransactionKeyed(docs, feed, es);
    TransactionCounters(env, fields, docs, feed, rows, c, es);
    forall k ensures Get(rows', k) == Expected(env, fields, DocsAfter(docs, es), FeedAfter(docs, feed, es), k) {
      TransactionRows(env, fields, docs, feed, rows, c, es, k);
    }
    if stats {
      forall t ensures Net(df', t) == DocFreq(env, DocsAfter(docs, es), t) {
        TransactionDf(env, fields, docs, feed, rows, es, t);
      }
    }
  }

  // ---- one transaction or several -------------------------------------------------

  lemma {:induction false} UntouchedRow(env: Env, fields: seq<string>, rows: map<Key, Cell>, es: seq<Edit>, c: Counters, id: Id)
    requires !Touches(es, id)
    ensures TxRow(env, fields, rows, es, c, Doc(id)) == Get(rows, Doc(id))
  {
    if es != [] {
      var rest := es[..|es| - 1];
      assert IdOf(es[|es| - 1]) != id;
      forall i | 0 <= i < |rest| ensures IdOf(rest[i]) != id {
        assert rest[i] == es[i];
      }
      UntouchedRow(env, fields, rows, rest, c, id);
    }
  }

  /** `rows` and `c` are what a transaction of `a` over `rows0` and `c0` commits. */
  ghost predicate Commits(env: Env, fields: seq<string>, rows0: map<Key, Cell>, c0: Counters, a: seq<Edit>,
                          rows: map<Key, Cell>, c: Counters)
  {
    && (forall k :: Get(rows, k) == TxRow(env, fields, rows0, a, c0, k))
    && c == TxCounters(env, rows0, a, c0)
  }

  /** Committing `a` and then `b` is committing them as one transaction, when no id repeats. */
  lemma {:induction false} CommitsCompose(env: Env, fields: seq<string>, rows0: map<Key, Cell>, c0: Counters, a: seq<Edit>,
                                          rows: map<Key, Cell>, c: Counters, b: seq<Edit>)
    requires DistinctIds(a + b) && Commits(env, fields, rows0, c0, a, rows, c)
    ensures TxCounters(env, rows, b, c) == TxCounters(env, rows0, a + b, c0)
    ensures forall k :: TxRow(env, fields, rows, b, c, k) == TxRow(env, fields, rows0, a + b, c0, k)
    ensures forall t :: TxDf(env, rows0, a + b, t) == TxDf(env, rows0, a, t) + TxDf(env, rows, b, t)
    ensures TxOps(rows0, a + b) == TxOps(rows0, a) + TxOps(rows, b)
    decreases |b|
  {
    if b == [] {
      assert a + b == a;
    } else {
      hide *;
      var e, rest := b[|b| - 1], b[..|b| - 1];
      LastApart(a, b);
      CommitsCompose(env, fields, rows0, c0, a, rows, c, rest);
      SameLookup(env, fields, rows0, c0, a, rows, c, IdOf(e));
      ComposeStep(env, fields, rows0, c0, a, rows, c, rest, e);
    }
  }

  lemma LastApart(a: seq<Edit>, b: seq<Edit>)
    requires b != [] && DistinctIds(a + b)
    ensures var e, rest := b[|b| - 1], b[..|b| - 1];
            a + b == (a + rest) + [e] && b == rest + [e] && DistinctIds(a + rest) && !Touches(a, IdOf(e))
  {
    var e, rest := b[|b| - 1], b[..|b| - 1];
    LastUntouched(a + b);
    assert (a + b)[..|a + b| - 1] == a + rest;
    forall i | 0 <= i < |a| ensures IdOf(a[i]) != IdOf(e) {
      assert a[i] == (a + b)[i];
    }
  }

  lemma SameLookup(env: Env, fields: seq<string>, rows0: map<Key, Cell>, c0: Counters, a: seq<Edit>,
                   rows: map<Key, Cell>, c: Counters, id: Id)
    requires Commits(env, fields, rows0, c0, a, rows, c) && !Touches(a, id)
    ensures Committed(rows, id) == Committed(rows0, id)
  {
    UntouchedRow(env, fields, rows0, a, c0, id);
    assert Get(rows, Doc(id)) == Get(rows0, Doc(id));
  }

  lemma ComposeStep(env: Env, fields: seq<string>, rows0: map<Key, Cell>, c0: Counters, a: seq<Edit>,
                    rows: map<Key, Cell>, c: Counters, rest: seq<Edit>, e: Edit)
    requires Committed(rows, IdOf(e)) == Committed(rows0, IdOf(e))
    requires TxCounters(env, rows, rest, c) == TxCounters(env, rows0, a + rest, c0)
    requires forall k :: TxRow(env, fields, rows, rest, c, k) == TxRow(env, fields, rows0, a + rest, c0, k)
    requires forall t :: TxDf(env, rows0, a + rest, t) == TxDf(env, rows0, a, t) + TxDf(env, rows, rest, t)
    requires TxOps(rows0, a + rest) == TxOps(rows0, a) + TxOps(rows, rest)
    ensures TxCounters(env, rows, rest + [e], c) == TxCounters(env, rows0, (a + rest) + [e], c0)
    ensures forall k :: TxRow(env, fields, rows, rest + [e], c, k) == TxRow(env, fields, rows0, (a + rest) + [e], c0, k)
    ensures forall t :: TxDf(env, rows0, (a + rest) + [e], t) == TxDf(env, rows0, a, t) + TxDf(env, rows, rest + [e], t)
    ensures TxOps(rows0, (a + rest) + [e]) == TxOps(rows0, a) + TxOps(rows, rest + [e])
  {
    hide *;
    Snoc(env, fields, rows0, a + rest, e, c0);
    Snoc(env, fields, rows, rest, e, c);
  }

  // ---- what a repeated id breaks ---------------------------------------------------

  /** No id that is new to the committed database is upserted twice. */
  ghost predicate FreshOnce(docs: map<Id, Record>, es: seq<Edit>) {
    forall i, j :: 0 <= i < j < |es| && IdOf(es[i]) == IdOf(es[j]) ==> IdOf(es[i]) in docs
  }

  ghost predicate AllUpserts(es: seq<Edit>) {
    forall i :: 0 <= i < |es| ==> es[i].Upsert?
  }

  lemma {:induction false} UpsertedIds(docs: map<Id, Record>, es: seq<Edit>, id: Id)
    requires AllUpserts(es)
    ensures id in DocsAfter(docs, es) <==> id in docs || Touches(es, id)
  {
    if es != [] {
      var rest := es[..|es| - 1];
      UpsertedIds(docs, rest, id);
      if Touches(rest, id) {
        var i :| 0 <= i < |rest| && IdOf(rest[i]) == id;
        assert es[i] == rest[i];
      }
      if Touches(es, id) && IdOf(es[|es| - 1]) != id {
        var i :| 0 <= i < |es| && IdOf(es[i]) == id;
        assert rest[i] == es[i];
      }
    }
  }

  lemma FreshOnceSnoc(docs: map<Id, Record>, es: seq<Edit>)
    requires es != []
    ensures var e, rest := es[|es| - 1], es[..|es| - 1];
            FreshOnce(docs, es) <==> FreshOnce(docs, rest) && (IdOf(e) in docs || !Touches(rest, IdOf(e)))
  {
    var e, rest := es[|es| - 1], es[..|es| - 1];
    assert forall i :: 0 <= i < |rest| ==> rest[i] == es[i];
    if FreshOnce(docs, es) && Touches(rest, IdOf(e)) {
      var i :| 0 <= i < |rest| && IdOf(rest[i]) == IdOf(e);
      assert IdOf(es[i]) in docs;
    }
    if FreshOnce(docs, rest) && (IdOf(e) in docs || !Touches(rest, IdOf(e))) {
      forall i, j | 0 <= i < j < |es| && IdOf(es[i]) == IdOf(es[j]) ensures IdOf(es[i]) in docs {
        if j < |rest| {
          assert IdOf(rest[i]) == IdOf(rest[j]);
        } else {
          assert IdOf(rest[i]) == IdOf(e);
        }
      }
    }
  }

  /** `doc_count` after a transaction of upserts is never too low, and it is right exactly when no new
      id appears twice. */
  lemma {:induction false} CountRightIff(env: Env, fields: seq<string>, docs: map<Id, Record>, feed: seq<Change>,
                                         rows: map<Key, Cell>, c: Counters, es: seq<Edit>)
    requires RowsOk(env, fields, docs, feed, rows) && c.docCount == |docs| && AllUpserts(es)
    ensures TxCounters(env, rows, es, c).docCount >= |DocsAfter(docs, es)|
    ensures TxCounters(env, rows, es, c).docCount == |DocsAfter(docs, es)| <==> FreshOnce(docs, es)
    decreases |es|
  {
    if es == [] {
    } else {
      var e, rest := es[|es| - 1], es[..|es| - 1];
      CountRightIff(env, fields, docs, feed, rows, c, rest);
      CommittedIsStored(env, fields, docs, feed, rows, IdOf(e));
      UpsertedIds(docs, rest, IdOf(e));
      FreshOnceSnoc(docs, es);
      PutSize(DocsAfter(docs, rest), IdOf(e), e.r);
      if IdOf(e) in docs {
        assert IdOf(e) in DocsAfter(docs, rest);
      }
    }
  }

  ghost predicate Has(env: Env, docs: map<Id, Record>, id: Id, t: string) {
    id in docs && t in env.analyze(docs[id].text)
  }

  /** Some edit writes a text of `id` with the term. */
  ghost predicate Writes(env: Env, es: seq<Edit>, id: Id, t: string) {
    exists i :: 0 <= i < |es| && es[i].Upsert? && es[i].r.id == id && t in env.analyze(es[i].r.text)
  }

  lemma WritesSnoc(env: Env, es: seq<Edit>, id: Id, t: string)
    requires es != []
    ensures var e, rest := es[|es| - 1], es[..|es| - 1];
            Writes(env, es, id, t) <==> Writes(env, rest, id, t) || (e.Upsert? && e.r.id == id && t in env.analyze(e.r.text))
  {
    var rest := es[..|es| - 1];
    assert forall i :: 0 <= i < |rest| ==> rest[i] == es[i];
    if Writes(env, rest, id, t) {
      var i :| 0 <= i < |rest| && rest[i].Upsert? && rest[i].r.id == id && t in env.analyze(rest[i].r.text);
      assert es[i] == rest[i];
    }
  }

  /** A posting the committed text has is always right; one it lacks stands from the first edit that writes it, and is
      right while the document has the term. */
  lemma {:induction false} PostingAfter(env: Env, fields: seq<string>, docs: map<Id, Record>, feed: seq<Change>,
                                        rows: map<Key, Cell>, c: Counters, es: seq<Edit>, id: Id, t: string)
    requires RowsOk(env, fields, docs, feed, rows)
    ensures var row, right := TxRow(env, fields, rows, es, c, Posting(t, id)),
                              Expected(env, fields, DocsAfter(docs, es), FeedAfter(docs, feed, es), Posting(t, id));
            && (right.Some? <==> Has(env, DocsAfter(docs, es), id, t))
            && (right.Some? || Has(env, docs, id, t) ==> row == right)
            && (!Has(env, docs, id, t) ==> (row.Some? <==> Writes(env, es, id, t)))
    decreases |es|
  {
    if es == [] {
    } else {
      var e, rest := es[|es| - 1], es[..|es| - 1];
      PostingAfter(env, fields, docs, feed, rows, c, rest, id, t);
      CommittedIsStored(env, fields, docs, feed, rows, IdOf(e));
      WritesSnoc(env, es, id, t);
      assert TxRow(env, fields, rows, es, c, Posting(t, id))
          == EditRow(env, fields, Committed(rows, IdOf(e)), e, TxCounters(env, rows, rest, c).feedSeq, Posting(t, id),
                     TxRow(env, fields, rows, rest, c, Posting(t, id)));
      hide *;
      PostingStep(env, fields, docs, DocsAfter(docs, rest), DocsAfter(docs, es), FeedAfter(docs, feed, rest),
                  FeedAfter(docs, feed, es), Committed(rows, IdOf(e)), e, TxCounters(env, rows, rest, c).feedSeq, id, t,
                  TxRow(env, fields, rows, rest, c, Posting(t, id)), Writes(env, rest, id, t));
    }
  }

  /** One more edit, for one posting: `wrote` says whether an earlier one wrote it. */
  lemma PostingStep(env: Env, fields: seq<string>, docs: map<Id, Record>, was: map<Id, Record>, now: map<Id, Record>,
                    feed: seq<Change>, feed': seq<Change>, stored: Option<StoredDoc>, e: Edit, feedSeq: nat, id: Id, t: string,
                    row: Option<Cell>, wrote: bool)
    requires stored == if IdOf(e) in docs then Some(Stored(env, docs[IdOf(e)])) else None
    requires now == EditDocs(was, e)
    requires var right := Expected(env, fields, was, feed, Posting(t, id));
             && (right.Some? <==> Has(env, was, id, t))
             && (right.Some? || Has(env, docs, id, t) ==> row == right)
             && (!Has(env, docs, id, t) ==> (row.Some? <==> wrote))
    ensures var row', right := EditRow(env, fields, stored, e, feedSeq, Posting(t, id), row),
                               Expected(env, fields, now, feed', Posting(t, id));
            && (right.Some? <==> Has(env, now, id, t))
            && (right.Some? || Has(env, docs, id, t) ==> row' == right)
            && (!Has(env, docs, id, t) ==>
                  (row'.Some? <==> wrote || (e.Upsert? && e.r.id == id && t in env.analyze(e.r.text))))
  {
  }

  /** A transaction leaves a posting that no longer belongs exactly when some edit writes it, the committed text lacks
      it (so no retraction deletes it), and the document ends without it. */
  lemma StalePostingIff(env: Env, fields: seq<string>, docs: map<Id, Record>, feed: seq<Change>, rows: map<Key, Cell>,
                        c: Counters, es: seq<Edit>, id: Id, t: string)
    requires RowsOk(env, fields, docs, feed, rows)
    ensures TxRow(env, fields, rows, es, c, Posting(t, id))
            != Expected(env, fields, DocsAfter(docs, es), FeedAfter(docs, feed, es), Posting(t, id))
            <==> Writes(env, es, id, t) && !Has(env, docs, id, t) && !Has(env, DocsAfter(docs, es), id, t)
  {
    hide TxRow, Expected, Writes, RowsOk, DocsAfter, FeedAfter;
    PostingAfter(env, fields, docs, feed, rows, c, es, id, t);
  }

  // ---- distinct ids, exactly --------------------------------------------------------

  /** Over this estate, committing the edits as one transaction keeps the tables the image of the documents. */
  ghost predicate KeepsImage(env: Env, fields: seq<string>, docs: map<Id, Record>, feed: seq<Change>, rows: map<Key, Cell>,
                             c: Counters, es: seq<Edit>)
  {
    Image(env, fields, docs, feed, rows, map[], c, false) ==>
      && (forall k :: TxRow(env, fields, rows, es, c, k)
                      == Expected(env, fields, DocsAfter(docs, es), FeedAfter(docs, feed, es), k))
      && CountersOk(env, DocsAfter(docs, es), FeedAfter(docs, feed, es), TxCounters(env, rows, es, c))
  }

  /** One transaction keeps the image over every estate exactly when no id is edited twice. */
  lemma KeepsImageIff(env: Env, fields: seq<string>, es: seq<Edit>)
    ensures (forall docs, feed, rows, c :: KeepsImage(env, fields, docs, feed, rows, c, es)) <==> DistinctIds(es)
  {
    hide RowsOk, Keyed, Numbered, Expected, TxRow, TxCounters, DocsAfter, FeedAfter, DistinctIds;
    if DistinctIds(es) {
      hide CountersOk;
      forall docs, feed, rows, c ensures KeepsImage(env, fields, docs, feed, rows, c, es) {
        if Image(env, fields, docs, feed, rows, map[], c, false) {
          TransactionCounters(env, fields, docs, feed, rows, c, es);
          forall k {
            TransactionRows(env, fields, docs, feed, rows, c, es, k);
          }
        }
      }
    } else {
      var docs, rows, c := BrokenBy(env, fields, es);
      assert !KeepsImage(env, fields, docs, [], rows, c, es);
    }
  }

  /** No edit finds its id present, or none finds it absent. */
  ghost predicate NeverPresent(docs: map<Id, Record>, es: seq<Edit>) {
    forall i: nat :: i < |es| ==> IdOf(es[i]) !in DocsAfter(docs, es[..i])
  }

  ghost predicate NeverAbsent(docs: map<Id, Record>, es: seq<Edit>) {
    forall i: nat :: i < |es| ==> IdOf(es[i]) in DocsAfter(docs, es[..i])
  }

  lemma NeverSnoc(docs: map<Id, Record>, es: seq<Edit>)
    requires es != []
    ensures var e, rest := es[|es| - 1], es[..|es| - 1];
            && (NeverPresent(docs, es) <==> NeverPresent(docs, rest) && IdOf(e) !in DocsAfter(docs, rest))
            && (NeverAbsent(docs, es) <==> NeverAbsent(docs, rest) && IdOf(e) in DocsAfter(docs, rest))
  {
    hide DocsAfter;
    var rest := es[..|es| - 1];
    assert forall i: nat :: i < |rest| ==> rest[i] == es[i] && rest[..i] == es[..i];
    assert forall i: nat :: i < |es| ==> i < |rest| || es[..i] == rest;
  }

  /** With nothing committed every upsert counts as new: the count is too high once an edit finds its id present. */
  lemma {:induction false} CountFromNothing(env: Env, rows: map<Key, Cell>, c: Counters, es: seq<Edit>)
    requires c.docCount == 0 && forall id :: Committed(rows, id) == None
    ensures TxCounters(env, rows, es, c).docCount >= |DocsAfter(map[], es)|
    ensures TxCounters(env, rows, es, c).docCount == |DocsAfter(map[], es)| <==> NeverPresent(map[], es)
    decreases |es|
  {
    if es == [] {
    } else {
      var rest := es[..|es| - 1];
      CountFromNothing(env, rows, c, rest);
      NeverSnoc(map[], es);
      SizeAfter(DocsAfter(map[], rest), es[|es| - 1]);
    }
  }

  /** With every edited id committed each edit retracts one: the count is too low once an edit finds its id absent. */
  lemma {:induction false} CountFromFull(env: Env, rows: map<Key, Cell>, docs: map<Id, Record>, c: Counters, es: seq<Edit>)
    requires c.docCount == |docs| >= |es| && forall i: nat :: i < |es| ==> Committed(rows, IdOf(es[i])).Some?
    ensures TxCounters(env, rows, es, c).docCount >= |docs| - |es|
    ensures TxCounters(env, rows, es, c).docCount <= |DocsAfter(docs, es)|
    ensures TxCounters(env, rows, es, c).docCount == |DocsAfter(docs, es)| <==> NeverAbsent(docs, es)
    decreases |es|
  {
    if es == [] {
    } else {
      var e, rest := es[|es| - 1], es[..|es| - 1];
      assert forall i: nat :: i < |rest| ==> rest[i] == es[i];
      CountFromFull(env, rows, docs, c, rest);
      NeverSnoc(docs, es);
      SizeAfter(DocsAfter(docs, rest), e);
    }
  }

  /** Once an id is edited, whether it is present no longer depends on what was committed. */
  lemma {:induction false} PresenceDecided(a: map<Id, Record>, b: map<Id, Record>, es: seq<Edit>, id: Id)
    requires Touches(es, id)
    ensures id in DocsAfter(a, es) <==> id in DocsAfter(b, es)
  {
    var e, rest := es[|es| - 1], es[..|es| - 1];
    if IdOf(e) != id {
      var i :| 0 <= i < |es| && IdOf(es[i]) == id;
      assert rest[i] == es[i];
      PresenceDecided(a, b, rest, id);
    }
  }

  lemma RepeatFound(a: map<Id, Record>, b: map<Id, Record>, es: seq<Edit>)
    requires !DistinctIds(es)
    ensures !NeverPresent(a, es) || !NeverAbsent(b, es)
  {
    var i, j :| 0 <= i < j < |es| && IdOf(es[i]) == IdOf(es[j]);
    assert es[..j][i] == es[i];
    PresenceDecided(a, b, es[..j], IdOf(es[j]));
  }

  /** An estate over which a transaction that edits an id twice miscounts its documents. */
  lemma BrokenBy(env: Env, fields: seq<string>, es: seq<Edit>)
    returns (docs: map<Id, Record>, rows: map<Key, Cell>, c: Counters)
    requires !DistinctIds(es)
    ensures Image(env, fields, docs, [], rows, map[], c, false)
    ensures TxCounters(env, rows, es, c).docCount != |DocsAfter(docs, es)|
  {
    hide *;
    var full := FullEnough(es);
    RepeatFound(map[], full, es);
    if NeverPresent(map[], es) {
      docs := full;
      rows, c := ImageOf(env, fields, docs);
      LookupAll(env, fields, docs, rows, c);
      CountFromFull(env, rows, docs, c, es);
    } else {
      docs := map[];
      NothingKeyed();
      rows, c := ImageOf(env, fields, docs);
      LookupAll(env, fields, docs, rows, c);
      CountFromNothing(env, rows, c, es);
    }
  }

  lemma NothingKeyed()
    ensures Keyed(map[])
  {
  }

  lemma LookupAll(env: Env, fields: seq<string>, docs: map<Id, Record>, rows: map<Key, Cell>, c: Counters)
    requires Image(env, fields, docs, [], rows, map[], c, false)
    ensures forall id :: Committed(rows, id) == if id in docs then Some(Stored(env, docs[id])) else None
    ensures c.docCount == |docs|
  {
    hide RowsOk, Committed, Stored;
    forall id ensures Committed(rows, id) == if id in docs then Some(Stored(env, docs[id])) else None {
      CommittedIsStored(env, fields, docs, [], rows, id);
    }
  }

  /** Documents under every edited id and at least as many as there are edits. */
  lemma FullEnough(es: seq<Edit>) returns (full: map<Id, Record>)
    ensures Keyed(full) && |full| >= |es| && forall i: nat :: i < |es| ==> IdOf(es[i]) in full
  {
    hide IdOf, Names;
    var ids := (set i | 0 <= i < |es| :: IdOf(es[i])) + Names(|es|);
    full := Blanks(ids);
    assert full.Keys == ids;
    NamesCard(|es|);
    SubsetCard(Names(|es|), ids);
  }

  function Blank(id: Id): Record { Record(id, "", [], map[], map[], map[], [], None) }

  ghost function Blanks(ids: set<Id>): map<Id, Record> { map id | id in ids :: Blank(id) }

  ghost function Names(n: nat): set<Id> {
    if n == 0 then {} else Names(n - 1) + {seq(n, _ => 'a')}
  }

  lemma {:induction false} NamesCard(n: nat)
    ensures |Names(n)| == n && forall id :: id in Names(n) ==> |id| <= n
  {
    if n > 0 {
      NamesCard(n - 1);
    }
  }

  /** The keys a record can hold rows at. */
  ghost function KeysOf(env: Env, fields: seq<string>, r: Record): set<Key> {
    {Doc(r.id), Vector(r.id), Multi(r.id)}
    + (set t | t in env.analyze(r.text) :: Posting(t, r.id))
    + (set f | f in fields && f in r.meta :: Payload(f, env.code(r.meta[f]), r.id))
    + (set d | d in r.sparse :: Sparse(d, r.id))
    + (set s | s in r.named :: Named(s, r.id))
    + (if r.coll.Some? then {Member(r.coll.value, r.id)} else {})
  }

  lemma KeysCover(env: Env, fields: seq<string>, r: Record, k: Key)
    requires !k.Feed? && k.id == r.id && RowOf(env, fields, r, k).Some?
    ensures k in KeysOf(env, fields, r)
  {
  }

  /** The rows of a document map. */
  lemma RowsOf(env: Env, fields: seq<string>, docs: map<Id, Record>) returns (rows: map<Key, Cell>)
    requires Keyed(docs)
    ensures RowsOk(env, fields, docs, [], rows)
  {
    hide RowOf, KeysOf;
    var keys := set id, k | id in docs && k in KeysOf(env, fields, docs[id]) :: k;
    rows := map k | k in keys && Expected(env, fields, docs, [], k).Some? :: Expected(env, fields, docs, [], k).value;
    forall k ensures Get(rows, k) == Expected(env, fields, docs, [], k) {
      if Expected(env, fields, docs, [], k).Some? {
        KeysCover(env, fields, docs[k.id], k);
        assert k in keys;
      }
    }
  }

  /** The shape census of a document map. */
  lemma ShapesOf(env: Env, docs: map<Id, Record>) returns (shapes: map<string, nat>)
    ensures forall s :: Count(shapes, s) == Census(env, docs, s)
  {
    hide Census;
    var seen := set id | id in docs :: env.shape(docs[id].meta);
    shapes := map s | s in seen :: Census(env, docs, s);
    forall s ensures Count(shapes, s) == Census(env, docs, s) {
      if s !in seen {
        NoneShaped(env, docs, s);
      }
    }
  }

  lemma NoneShaped(env: Env, docs: map<Id, Record>, s: string)
    requires forall id :: id in docs ==> env.shape(docs[id].meta) != s
    ensures Census(env, docs, s) == 0
  {
    assert Having(docs, Shaped(env, s)) == {};
  }

  /** Every document map has an estate that is its image. */
  lemma ImageOf(env: Env, fields: seq<string>, docs: map<Id, Record>) returns (rows: map<Key, Cell>, c: Counters)
    requires Keyed(docs)
    ensures Image(env, fields, docs, [], rows, map[], c, false)
  {
    hide RowsOk, Census, Count, Tokens;
    rows := RowsOf(env, fields, docs);
    var shapes := ShapesOf(env, docs);
    c := Counters(|docs|, Tokens(env, docs), 0, shapes);
  }

  // ---- the feed tells the documents -------------------------------------------------------

  /** What the feed's last entry for an id says. */
  function LastChange(feed: seq<Change>, id: Id): Option<Op> {
    if feed == [] then None
    else if feed[|feed| - 1].id == id then Some(feed[|feed| - 1].op)
    else LastChange(feed[..|feed| - 1], id)
  }

  /** An id is stored exactly when the last change on it is an upsert. */
  ghost predicate FeedTells(docs: map<Id, Record>, feed: seq<Change>) {
    forall id :: id in docs <==> LastChange(feed, id) == Some(Upserted)
  }

  lemma EditTells(docs: map<Id, Record>, feed: seq<Change>, e: Edit)
    requires FeedTells(docs, feed)
    ensures FeedTells(EditDocs(docs, e), EditFeed(docs, feed, e))
  {
    var feed' := EditFeed(docs, feed, e);
    forall id ensures id in EditDocs(docs, e) <==> LastChange(feed', id) == Some(Upserted) {
      if feed' != feed {
        assert feed'[..|feed|] == feed;
      }
      assert id in docs <==> LastChange(feed, id) == Some(Upserted);
    }
  }

  /** However ids repeat, a reader of the feed alone knows which ids the documents hold. */
  lemma {:induction false} EditsTell(docs: map<Id, Record>, feed: seq<Change>, es: seq<Edit>)
    requires FeedTells(docs, feed)
    ensures FeedTells(DocsAfter(docs, es), FeedAfter(docs, feed, es))
    decreases |es|
  {
    if es != [] {
      var rest := es[..|es| - 1];
      EditsTell(docs, feed, rest);
      hide FeedTells, EditDocs, EditFeed;
      EditTells(DocsAfter(docs, rest), FeedAfter(docs, feed, rest), es[|es| - 1]);
    }
  }
}
