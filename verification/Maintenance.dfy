/**
 * The other writers of the tables: payload edits, payload-index creation and rebuild, and
 * collection drops. `Run` interleaves them all with transactions and keeps the image throughout.
 */
module Maintenance {
  import opened Wrappers
  import opened Tables
  import opened Statements
  import opened WritePath
  import opened Transactions

  /** Indexed writes every 4096 rows during a backfill. */
  const BACKFILL_BATCH: nat := 4096

  // ---- payload edits ---------------------------------------------------------------

  function WithMeta(r: Record, m: Meta): Record {
    r.(meta := m)
  }

  /** Replacing a record's metadata moves its payload rows, its document row and nothing else. */
  lemma MetaRow(env: Env, fields: seq<string>, r: Record, m: Meta, k: Key)
    ensures RowOf(env, fields, WithMeta(r, m), k)
            == if k.Payload? then
                 (if k.field in fields && k.field in m && env.code(m[k.field]) == k.code then Some(Mark) else None)
               else if k.Doc? then Some(DocCell(Stored(env, r).(meta := m, shape := env.shape(m))))
               else RowOf(env, fields, r, k)
  {
  }

  lemma MetaCounters(env: Env, docs: map<Id, Record>, feed: seq<Change>, id: Id, m: Meta, entry: Change, c: Counters)
    requires id in docs && Keyed(docs) && CountersOk(env, docs, feed, c)
    ensures CountersOk(env, docs[id := WithMeta(docs[id], m)], feed + [entry],
                       c.(feedSeq := c.feedSeq + 1,
                          shapes := ShapeIn(ShapeOut(c.shapes, env.shape(docs[id].meta)), env.shape(m))))
  {
    hide Tokens, Census;
    var r := WithMeta(docs[id], m);
    TokensPut(env, docs, r);
    PutSize(docs, id, r);
    forall s
      ensures Count(ShapeIn(ShapeOut(c.shapes, env.shape(docs[id].meta)), env.shape(m)), s) == Census(env, docs[id := r], s)
    {
      MetaCensus(env, docs, id, m, s);
      ShapeCounts(c.shapes, env.shape(docs[id].meta), s);
      ShapeCounts(ShapeOut(c.shapes, env.shape(docs[id].meta)), env.shape(m), s);
    }
  }

  lemma MetaCensus(env: Env, docs: map<Id, Record>, id: Id, m: Meta, s: string)
    requires id in docs && Keyed(docs)
    ensures Census(env, docs[id := WithMeta(docs[id], m)], s)
            == Census(env, docs, s) - One(env.shape(docs[id].meta) == s) + One(env.shape(m) == s)
    ensures env.shape(docs[id].meta) == s ==> Census(env, docs, s) > 0
  {
    HavingPut(docs, WithMeta(docs[id], m), Shaped(env, s));
    CensusPositive(env, docs, id);
  }

  lemma MetaDf(env: Env, docs: map<Id, Record>, id: Id, m: Meta, t: string)
    requires id in docs && Keyed(docs)
    ensures DocFreq(env, docs[id := WithMeta(docs[id], m)], t) == DocFreq(env, docs, t)
  {
    HavingPut(docs, WithMeta(docs[id], m), Carries(env, t));
  }

  /** The rows a payload edit leaves, from the committed ones. */
  ghost predicate MetaRewritten(env: Env, fields: seq<string>, old_: StoredDoc, id: Id, m: Meta, feedSeq: nat,
                                rows: map<Key, Cell>, rows': map<Key, Cell>)
  {
    forall k :: Get(rows', k) == MetaEditRow(env, fields, old_, id, m, feedSeq, k, Get(rows, k))
  }

  function MetaEditRow(env: Env, fields: seq<string>, old_: StoredDoc, id: Id, m: Meta, feedSeq: nat, k: Key,
                       prev: Option<Cell>): Option<Cell>
  {
    if k.Feed? then (if k.seqNo == feedSeq then Some(ChangeCell(Change(feedSeq, Upserted, id))) else prev)
    else if k.id != id then prev
    else if k.Doc? then Some(DocCell(old_.(meta := m, shape := env.shape(m))))
    else if k.Payload? && k.field in fields && k.field in m && env.code(m[k.field]) == k.code then Some(Mark)
    else if k.Payload? && k.field in fields && k.field in old_.meta && env.code(old_.meta[k.field]) == k.code then None
    else prev
  }

  lemma MetaRowOk(env: Env, fields: seq<string>, docs: map<Id, Record>, feed: seq<Change>, id: Id, m: Meta, k: Key)
    requires id in docs && docs[id].id == id
    ensures MetaEditRow(env, fields, Stored(env, docs[id]), id, m, |feed|, k, Expected(env, fields, docs, feed, k))
            == Expected(env, fields, docs[id := WithMeta(docs[id], m)], feed + [Change(|feed|, Upserted, id)], k)
  {
    if !k.Feed? && k.id == id {
      MetaRow(env, fields, docs[id], m, k);
    }
  }

  lemma MetaImage(env: Env, fields: seq<string>, stats: bool, docs: map<Id, Record>, feed: seq<Change>,
                  rows: map<Key, Cell>, df: map<string, int>, c: Counters, id: Id, m: Meta, rows': map<Key, Cell>)
    requires Image(env, fields, docs, feed, rows, df, c, stats) && id in docs
    requires MetaRewritten(env, fields, Stored(env, docs[id]), id, m, |feed|, rows, rows')
    ensures Image(env, fields, docs[id := WithMeta(docs[id], m)], feed + [Change(|feed|, Upserted, id)], rows', df,
                  c.(feedSeq := c.feedSeq + 1,
                     shapes := ShapeIn(ShapeOut(c.shapes, env.shape(docs[id].meta)), env.shape(m))), stats)
  {
    hide CountersOk, DocFreq, Expected, Get, MetaEditRow, Net, ShapeIn, ShapeOut, Stored;
    var docs' := docs[id := WithMeta(docs[id], m)];
    var feed' := feed + [Change(|feed|, Upserted, id)];
    MetaCounters(env, docs, feed, id, m, Change(|feed|, Upserted, id), c);
    forall k ensures Get(rows', k) == Expected(env, fields, docs', feed', k) {
      MetaRowOk(env, fields, docs, feed, id, m, k);
    }
    if stats {
      forall t ensures Net(df, t) == DocFreq(env, docs', t) {
        MetaDf(env, docs, id, m, t);
      }
    }
  }

  /** `mutate_payload`: one atomic batch with the rewritten document, its payload rows, the census and
      a feed row. */
  method EditPayload(e: Estate, id: Id, f: Meta -> Meta) returns (res: Result<(), Error>)
    requires e.Valid()
    modifies e`rows, e`df, e`counters, e`docs, e`feed
    ensures res.Ok? <==> id in old(e.docs)
    ensures e.Valid()
    ensures e.docs == if res.Ok? then old(e.docs)[id := WithMeta(old(e.docs)[id], f(old(e.docs)[id].meta))]
                      else old(e.docs)
    ensures e.feed == if res.Ok? then old(e.feed) + [Change(|old(e.feed)|, Upserted, id)] else old(e.feed)
  {
    hide After, Committed, CountersOk, DfOk, Get, Image, Keyed, Merged, MetaEditRow, MetaRewritten, Net, Numbered, RowsOk,
      ShapeIn, ShapeOut, Stored, WithMeta;
    var stored := e.Lookup(id);
    Looked(e.env, e.fields, e.docs, e.feed, e.rows, e.df, e.counters, e.stats, id);
    if stored.None? {
      return Err(NoSuchDocument);
    }
    var doc := stored.value;
    var c := e.counters;
    var m := f(doc.meta);
    var tx := new Transaction.Begin(e);
    MetaBatch(e, tx, doc, id, m, c.feedSeq);
    c := c.(feedSeq := c.feedSeq + 1, shapes := ShapeIn(ShapeOut(c.shapes, doc.shape), e.env.shape(m)));
    e.Write(tx.batch, Some(c));
    assert forall t :: Net(e.df, t) == Net(old(e.df), t);
    ghost var docs', feed' := e.docs[id := WithMeta(e.docs[id], m)], e.feed + [Change(|e.feed|, Upserted, id)];
    Rewritten(e.env, e.fields, doc, id, m, |e.feed|, old(e.rows), e.rows);
    MetaImage(e.env, e.fields, e.stats, e.docs, e.feed, old(e.rows), old(e.df), old(e.counters), id, m, e.rows);
    SameDf(e.env, e.fields, e.stats, docs', feed', e.rows, old(e.df), e.counters, e.df);
    e.docs, e.feed := docs', feed';
    res := Ok(());
  }

  /** What the lookup of an edited document finds. */
  lemma Looked(env: Env, fields: seq<string>, docs: map<Id, Record>, feed: seq<Change>, rows: map<Key, Cell>,
               df: map<string, int>, c: Counters, stats: bool, id: Id)
    requires Image(env, fields, docs, feed, rows, df, c, stats)
    ensures Committed(rows, id) == if id in docs then Some(Stored(env, docs[id])) else None
    ensures id in docs ==> Stored(env, docs[id]).meta == docs[id].meta
                           && Stored(env, docs[id]).shape == env.shape(docs[id].meta)
    ensures c.feedSeq == |feed|
  {
    hide RowsOk, Committed;
    CommittedIsStored(env, fields, docs, feed, rows, id);
  }

  lemma Rewritten(env: Env, fields: seq<string>, doc: StoredDoc, id: Id, m: Meta, feedSeq: nat, rows: map<Key, Cell>,
                  rows': map<Key, Cell>)
    requires forall k :: Get(rows', k) == MetaEditRow(env, fields, doc, id, m, feedSeq, k, Get(rows, k))
    ensures MetaRewritten(env, fields, doc, id, m, feedSeq, rows, rows')
  {
    hide MetaEditRow, Get;
  }

  lemma SameDf(env: Env, fields: seq<string>, stats: bool, docs: map<Id, Record>, feed: seq<Change>,
               rows: map<Key, Cell>, df: map<string, int>, c: Counters, df': map<string, int>)
    requires Image(env, fields, docs, feed, rows, df, c, stats)
    requires forall t :: Net(df', t) == Net(df, t)
    ensures Image(env, fields, docs, feed, rows, df', c, stats)
  {
    hide CountersOk, DocFreq, Keyed, Net, Numbered, RowsOk;
  }

  method MetaBatch(e: Estate, tx: Transaction, doc: StoredDoc, id: Id, m: Meta, feedSeq: nat)
    requires tx.estate == e && tx.batch == []
    modifies tx
    ensures forall k :: After(e.rows, tx.batch, k) == MetaEditRow(e.env, e.fields, doc, id, m, feedSeq, k, Get(e.rows, k))
    ensures forall t :: Merged(tx.batch, t) == 0
  {
    hide Get;
    assert forall k :: tx.At(k) == Get(e.rows, k);
    assert forall t :: Merged(tx.batch, t) == 0;
    tx.DeletePayload(doc.meta, id);
    for i := 0 to |e.fields|
      invariant forall j :: tx.At(j) == if j.Payload? && j.id == id && j.field in e.fields[..i] && j.field in m
                                           && e.env.code(m[j.field]) == j.code then Some(Mark)
                                        else if j.Payload? && j.id == id && j.field in e.fields && j.field in doc.meta
                                                && e.env.code(doc.meta[j.field]) == j.code then None
                                        else Get(e.rows, j)
      invariant forall t :: Merged(tx.batch, t) == 0
    {
      var g := e.fields[i];
      assert e.fields[..i + 1] == e.fields[..i] + [g];
      if g in m {
        tx.Put(Payload(g, e.env.code(m[g]), id), Mark);
      }
    }
    assert e.fields[..|e.fields|] == e.fields;
    tx.Put(Doc(id), DocCell(doc.(meta := m, shape := e.env.shape(m))));
    tx.Put(Feed(feedSeq), ChangeCell(Change(feedSeq, Upserted, id)));
  }

  // ---- payload indexes --------------------------------------------------------------

  /** The ids of the document rows. */
  function DocIds(rows: map<Key, Cell>): set<Id> {
    set k | k in rows && k.Doc? :: k.id
  }

  lemma DocIdsOf(env: Env, fields: seq<string>, docs: map<Id, Record>, feed: seq<Change>, rows: map<Key, Cell>, field: string)
    requires RowsButField(env, fields, docs, feed, rows, field)
    ensures DocIds(rows) == docs.Keys
  {
    forall id ensures id in DocIds(rows) <==> id in docs {
      assert Get(rows, Doc(id)) == Expected(env, fields, docs, feed, Doc(id));
      assert id in DocIds(rows) <==> Doc(id) in rows;
    }
  }

  predicate OfField(k: Key, field: string) {
    k.Payload? && k.field == field
  }

  /** Every row is right except perhaps those of one field's payload index. */
  ghost predicate RowsButField(env: Env, fields: seq<string>, docs: map<Id, Record>, feed: seq<Change>, rows: map<Key, Cell>,
                               field: string)
  {
    forall k :: !OfField(k, field) ==> Get(rows, k) == Expected(env, fields, docs, feed, k)
  }

  ghost predicate ImageButField(env: Env, fields: seq<string>, docs: map<Id, Record>, feed: seq<Change>,
                                rows: map<Key, Cell>, df: map<string, int>, c: Counters, stats: bool, field: string)
  {
    && Keyed(docs)
    && Numbered(feed)
    && RowsButField(env, fields, docs, feed, rows, field)
    && CountersOk(env, docs, feed, c)
    && (stats ==> DfOk(env, docs, df))
  }

  /** Field `f`'s index row for a document: what a backfill puts at `k`. */
  predicate Indexes(env: Env, doc: StoredDoc, id: Id, field: string, k: Key) {
    OfField(k, field) && k.id == id && field in doc.meta && env.code(doc.meta[field]) == k.code
  }

  predicate IndexesSome(env: Env, rows: map<Key, Cell>, ids: set<Id>, field: string, k: Key) {
    OfField(k, field) && k.id in ids && Committed(rows, k.id).Some? && Indexes(env, Committed(rows, k.id).value, k.id, field, k)
  }

  /** What the tables read at `k` once the backfill has covered `ids`. */
  function Backfilled(env: Env, rows: map<Key, Cell>, ids: set<Id>, field: string, k: Key, prev: Option<Cell>): Option<Cell> {
    if IndexesSome(env, rows, ids, field, k) then Some(Mark) else prev
  }

  lemma BackfillImage(env: Env, fields: seq<string>, docs: map<Id, Record>, feed: seq<Change>, rows: map<Key, Cell>,
                      field: string, k: Key, prev: Option<Cell>)
    requires field in fields && RowsButField(env, fields, docs, feed, rows, field)
    requires if OfField(k, field) then prev == None else prev == Expected(env, fields, docs, feed, k)
    ensures Backfilled(env, rows, docs.Keys, field, k, prev) == Expected(env, fields, docs, feed, k)
  {
    if OfField(k, field) {
      assert Get(rows, Doc(k.id)) == Expected(env, fields, docs, feed, Doc(k.id));
    }
  }

  /** Registering a field changes what is expected only of that field's rows. */
  lemma FieldAdded(env: Env, fields: seq<string>, field: string, docs: map<Id, Record>, feed: seq<Change>, k: Key)
    requires field !in fields
    ensures !OfField(k, field) ==> Expected(env, fields + [field], docs, feed, k) == Expected(env, fields, docs, feed, k)
    ensures OfField(k, field) ==> Expected(env, fields, docs, feed, k) == None
  {
  }

  /** One more document of the backfill. */
  lemma BackfillStep(env: Env, rows: map<Key, Cell>, ids: set<Id>, id: Id, field: string, k: Key, prev: Option<Cell>)
    ensures Backfilled(env, rows, ids + {id}, field, k, prev)
            == if Committed(rows, id).Some? && Indexes(env, Committed(rows, id).value, id, field, k) then Some(Mark)
               else Backfilled(env, rows, ids, field, k, prev)
  {
  }

  /** `create_payload_index`: register the field, then backfill, writing every 4096 rows. */
  method CreateIndex(e: Estate, field: string)
    requires e.Valid()
    modifies e`rows, e`df, e`counters, e`fields
    ensures e.Valid()
    ensures e.fields == if field in old(e.fields) then old(e.fields) else old(e.fields) + [field]
  {
    if field in e.fields {
      return;
    }
    hide Backfilled, DocIds, Expected, Get, Net, OfField;
    e.fields := e.fields + [field];
    assert RowsButField(e.env, e.fields, e.docs, e.feed, e.rows, field)
      && forall k :: OfField(k, field) ==> Get(e.rows, k) == None by
    {
      forall k ensures !OfField(k, field) ==> Get(e.rows, k) == Expected(e.env, e.fields, e.docs, e.feed, k)
               ensures OfField(k, field) ==> Get(e.rows, k) == None
      {
        FieldAdded(e.env, old(e.fields), field, e.docs, e.feed, k);
      }
    }
    Backfill(e, field);
    assert Image(e.env, e.fields, e.docs, e.feed, e.rows, e.df, e.counters, e.stats) by {
      DocIdsOf(e.env, e.fields, e.docs, e.feed, old(e.rows), field);
      forall k ensures Get(e.rows, k) == Expected(e.env, e.fields, e.docs, e.feed, k) {
        BackfillImage(e.env, e.fields, e.docs, e.feed, old(e.rows), field, k, Get(old(e.rows), k));
      }
    }
  }

  lemma EmptyBatch(tx: Transaction)
    requires tx.batch == []
    ensures forall k :: tx.At(k) == Get(tx.estate.rows, k)
    ensures forall t :: Merged(tx.batch, t) == 0
  {
  }

  lemma NothingCovered(env: Env, rows: map<Key, Cell>, field: string, k: Key, prev: Option<Cell>)
    ensures Backfilled(env, rows, {}, field, k, prev) == prev
    ensures !OfField(k, field) ==> forall ids :: Backfilled(env, rows, ids, field, k, prev) == prev
  {
  }

  /** Put one document's row, if it has the field. */
  method IndexRow(tx: Transaction, stored: Option<StoredDoc>, id: Id, field: string) returns (put: bool)
    modifies tx`batch
    ensures forall k :: tx.At(k) == if stored.Some? && Indexes(tx.estate.env, stored.value, id, field, k) then Some(Mark)
                                    else old(tx.At(k))
    ensures forall t :: Merged(tx.batch, t) == old(Merged(tx.batch, t))
  {
    hide Merged, Transaction.At;
    put := stored.Some? && field in stored.value.meta;
    if put {
      tx.Put(Payload(field, tx.estate.env.code(stored.value.meta[field]), id), Mark);
    }
  }

  /** Put `field`'s row for every stored document, writing whenever 4096 rows have gathered. */
  method Backfill(e: Estate, field: string)
    modifies e`rows, e`df, e`counters
    ensures forall k :: Get(e.rows, k) == Backfilled(e.env, old(e.rows), DocIds(old(e.rows)), field, k, Get(old(e.rows), k))
    ensures forall t :: Net(e.df, t) == Net(old(e.df), t)
    ensures e.counters == old(e.counters)
  {
    hide After, Backfilled, DocIds, Indexes, Merged, Net;
    var ids := DocIds(e.rows);
    var todo := ids;
    var n: nat := 0;
    var tx := new Transaction.Begin(e);
    EmptyBatch(tx);
    assert ids - todo == {};
    forall k ensures Backfilled(e.env, old(e.rows), ids - todo, field, k, Get(old(e.rows), k)) == Get(old(e.rows), k) {
      NothingCovered(e.env, old(e.rows), field, k, Get(old(e.rows), k));
    }
    while todo != {}
      invariant fresh(tx) && tx.estate == e && todo <= ids
      invariant forall k :: tx.At(k) == Backfilled(e.env, old(e.rows), ids - todo, field, k, Get(old(e.rows), k))
      invariant forall id :: Get(e.rows, Doc(id)) == Get(old(e.rows), Doc(id))
      invariant forall t :: Net(e.df, t) == Net(old(e.df), t) && Merged(tx.batch, t) == 0
      invariant e.counters == old(e.counters)
      decreases |todo|
    {
      var id :| id in todo;
      var stored := e.Lookup(id);
      assert stored == Committed(old(e.rows), id) by {
        assert Get(e.rows, Doc(id)) == Get(old(e.rows), Doc(id));
      }
      var put := IndexRow(tx, stored, id, field);
      assert ids - (todo - {id}) == ids - todo + {id};
      forall k ensures tx.At(k) == Backfilled(e.env, old(e.rows), ids - (todo - {id}), field, k, Get(old(e.rows), k)) {
        BackfillStep(e.env, old(e.rows), ids - todo, id, field, k, Get(old(e.rows), k));
      }
      todo := todo - {id};
      if put {
        n := n + 1;
        if n % BACKFILL_BATCH == 0 {
          e.Write(tx.batch, None);
          assert forall k :: Get(e.rows, k) == Backfilled(e.env, old(e.rows), ids - todo, field, k, Get(old(e.rows), k));
          forall x ensures Get(e.rows, Doc(x)) == Get(old(e.rows), Doc(x)) {
            NothingCovered(e.env, old(e.rows), field, Doc(x), Get(old(e.rows), Doc(x)));
          }
          tx := new Transaction.Begin(e);
          EmptyBatch(tx);
        }
      }
    }
    assert ids - todo == ids;
    e.Write(tx.batch, None);
  }

  lemma ValidButField(e: Estate, field: string)
    requires e.Valid()
    ensures ImageButField(e.env, e.fields, e.docs, e.feed, e.rows, e.df, e.counters, e.stats, field)
  {
    hide Expected, CountersOk, DfOk;
  }

  /** `rebuild_payload_index`: in one batch, delete every row of the field and index the stored
      documents afresh. Whatever the field's rows held before, the tables are right afterwards. */
  method RebuildIndex(e: Estate, field: string) returns (res: Result<(), Error>)
    requires ImageButField(e.env, e.fields, e.docs, e.feed, e.rows, e.df, e.counters, e.stats, field)
    modifies e`rows, e`df, e`counters
    ensures res.Ok? <==> field in e.fields
    ensures res.Ok? ==> e.Valid()
    ensures res.Err? ==> e.rows == old(e.rows) && e.df == old(e.df) && e.counters == old(e.counters)
  {
    if field !in e.fields {
      return Err(NotIndexed);
    }
    hide After, Backfilled, DocIds, Expected, Get, Merged, Net, OfField, Transaction.At;
    var tx := new Transaction.Begin(e);
    EmptyBatch(tx);
    DeleteField(tx, field);
    Reindex(tx, field);
    e.Write(tx.batch, None);
    assert Image(e.env, e.fields, e.docs, e.feed, e.rows, e.df, e.counters, e.stats) by {
      DocIdsOf(e.env, e.fields, e.docs, e.feed, old(e.rows), field);
      forall k ensures Get(e.rows, k) == Expected(e.env, e.fields, e.docs, e.feed, k) {
        BackfillImage(e.env, e.fields, e.docs, e.feed, old(e.rows), field, k,
                      if OfField(k, field) then None else Get(old(e.rows), k));
      }
    }
    res := Ok(());
  }

  /** Delete every committed row under a field's prefix. */
  method DeleteField(tx: Transaction, field: string)
    requires tx.batch == []
    modifies tx`batch
    ensures forall k :: tx.At(k) == if OfField(k, field) then None else Get(tx.estate.rows, k)
    ensures forall t :: Merged(tx.batch, t) == 0
  {
    hide Merged, OfField, Transaction.At;
    EmptyBatch(tx);
    var todo := set k | k in tx.estate.rows && OfField(k, field);
    assert forall k :: OfField(k, field) && k !in todo ==> Get(tx.estate.rows, k) == None;
    while todo != {}
      invariant forall k :: OfField(k, field) && k !in todo ==> tx.At(k) == None
      invariant forall k :: !OfField(k, field) ==> tx.At(k) == Get(tx.estate.rows, k)
      invariant forall k :: k in todo ==> OfField(k, field)
      invariant forall t :: Merged(tx.batch, t) == 0
      decreases |todo|
    {
      var k :| k in todo;
      tx.Delete(k);
      todo := todo - {k};
    }
  }

  /** Index every committed document into the batch. */
  method Reindex(tx: Transaction, field: string)
    modifies tx`batch
    ensures forall k :: tx.At(k) == Backfilled(tx.estate.env, tx.estate.rows, DocIds(tx.estate.rows), field, k, old(tx.At(k)))
    ensures forall t :: Merged(tx.batch, t) == old(Merged(tx.batch, t))
  {
    hide *;
    var ids := DocIds(tx.estate.rows);
    var todo := ids;
    assert ids - todo == {};
    forall k ensures Backfilled(tx.estate.env, tx.estate.rows, ids - todo, field, k, tx.At(k)) == tx.At(k) {
      NothingCovered(tx.estate.env, tx.estate.rows, field, k, tx.At(k));
    }
    while todo != {}
      invariant todo <= ids
      invariant forall k :: tx.At(k) == Backfilled(tx.estate.env, tx.estate.rows, ids - todo, field, k, old(tx.At(k)))
      invariant forall t :: Merged(tx.batch, t) == old(Merged(tx.batch, t))
      decreases |todo|
    {
      var id :| id in todo;
      var stored := tx.estate.Lookup(id);
      var _ := IndexRow(tx, stored, id, field);
      assert ids - (todo - {id}) == ids - todo + {id};
      forall k ensures tx.At(k) == Backfilled(tx.estate.env, tx.estate.rows, ids - (todo - {id}), field, k, old(tx.At(k))) {
        BackfillStep(tx.estate.env, tx.estate.rows, ids - todo, id, field, k, old(tx.At(k)));
      }
      todo := todo - {id};
    }
    assert ids - todo == ids;
  }

  // ---- collections -------------------------------------------------------------------

  ghost predicate InColl(docs: map<Id, Record>, name: string, id: Id) {
    id in docs && docs[id].coll == Some(name)
  }

  function Removes(ids: seq<Id>): seq<Edit> {
    seq(|ids|, i requires 0 <= i < |ids| => Remove(ids[i]))
  }

  function TwiceRemoved(ids: seq<Id>): seq<GraphOp> {
    if ids == [] then []
    else
      var id := ids[|ids| - 1];
      TwiceRemoved(ids[..|ids| - 1]) + [GraphRemove(id), GraphRemove(id)]
  }

  ghost predicate DistinctSeq(ids: seq<Id>) {
    forall i, j :: 0 <= i < j < |ids| ==> ids[i] != ids[j]
  }

  /** The ids holding a membership row of the collection, each once. */
  method CollectionMembers(e: Estate, name: string) returns (ids: seq<Id>)
    ensures DistinctSeq(ids)
    ensures forall id :: id in ids <==> Member(name, id) in e.rows
  {
    var todo := set k | k in e.rows && k.Member? && k.coll == name;
    ids := [];
    while todo != {}
      invariant forall k :: k in todo ==> k in e.rows && k.Member? && k.coll == name
      invariant forall id :: Member(name, id) in e.rows <==> Member(name, id) in todo || id in ids
      invariant forall id :: id in ids ==> Member(name, id) !in todo
      invariant DistinctSeq(ids)
      decreases |todo|
    {
      var k :| k in todo;
      todo := todo - {k};
      ids := ids + [k.id];
    }
  }

  lemma MemberRows(env: Env, fields: seq<string>, docs: map<Id, Record>, feed: seq<Change>, rows: map<Key, Cell>, name: string)
    requires RowsOk(env, fields, docs, feed, rows)
    ensures forall id :: Member(name, id) in rows <==> InColl(docs, name, id)
  {
    forall id ensures Member(name, id) in rows <==> InColl(docs, name, id) {
      assert Get(rows, Member(name, id)) == Expected(env, fields, docs, feed, Member(name, id));
    }
  }

  lemma OneRemove(e: Estate, id: Id)
    ensures Edits([RemoveStmt(id)]) == [Remove(id)] && DistinctIds([Remove(id)])
    ensures AdmitAll(e.env, e.schema, e.fields, e.info, [RemoveStmt(id)]) == Some(e.info)
    ensures forall docs :: DocsAfter(docs, [Remove(id)]) == docs - {id}
    ensures forall docs, feed :: id in docs ==> FeedAfter(docs, feed, [Remove(id)]) == feed + [Change(|feed|, Removed, id)]
    ensures forall rows :: Committed(rows, id).Some? ==> TxOps(rows, [Remove(id)]) == [GraphRemove(id)]
  {
    Alone(e.env, e.schema, e.fields, e.info, RemoveStmt(id));
    assert [Remove(id)][..0] == [];
    forall rows | Committed(rows, id).Some? ensures TxOps(rows, [Remove(id)]) == [GraphRemove(id)] {
      assert TxOps(rows, [Remove(id)][..0]) == [];
    }
    forall docs ensures DocsAfter(docs, [Remove(id)]) == docs - {id} {
      assert DocsAfter(docs, [Remove(id)][..0]) == docs;
    }
    forall docs, feed | id in docs ensures FeedAfter(docs, feed, [Remove(id)]) == feed + [Change(|feed|, Removed, id)] {
      assert FeedAfter(docs, feed, [Remove(id)][..0]) == feed;
      assert DocsAfter(docs, [Remove(id)][..0]) == docs;
    }
  }

  /** `drop_collection`: remove every member in its own transaction, queueing its graph removal once
      more, then deregister the name. */
  method DropCollection(e: Estate, name: string) returns (count: nat)
    requires e.Valid()
    modifies e`rows, e`df, e`counters, e`info, e`pushed, e`docs, e`feed
    ensures e.Valid()
    ensures e.docs == map id | id in old(e.docs) && !InColl(old(e.docs), name, id) :: old(e.docs)[id]
    ensures exists ids :: DropRecord(old(e.docs), name, ids) && count == |ids|
                          && e.pushed == old(e.pushed) + TwiceRemoved(ids)
                          && e.feed == FeedAfter(old(e.docs), old(e.feed), Removes(ids))
    ensures e.info == old(e.info).(registry := old(e.info).registry - {name})
  {
    hide DistinctSeq, DocsAfter, EditFeed, FeedAfter, InColl, Removes, RowsOk, TwiceRemoved;
    var ids := CollectionMembers(e, name);
    assert forall id :: id in ids <==> InColl(e.docs, name, id) by {
      MemberRows(e.env, e.fields, e.docs, e.feed, e.rows, name);
    }
    assert DropRecord(e.docs, name, ids);
    DropNothing(e.docs, e.feed, ids);
    for i := 0 to |ids|
      invariant e.Valid()
      invariant e.docs == DocsAfter(old(e.docs), Removes(ids[..i]))
      invariant e.feed == FeedAfter(old(e.docs), old(e.feed), Removes(ids[..i]))
      invariant e.pushed == old(e.pushed) + TwiceRemoved(ids[..i])
      invariant e.info == old(e.info)
    {
      DropMember(e, old(e.docs), name, ids, i);
      DropSnoc(old(e.docs), old(e.feed), ids, i);
    }
    assert ids[..|ids|] == ids;
    DroppedDocs(old(e.docs), name, ids);
    e.info := e.info.(registry := e.info.registry - {name});
    count := |ids|;
  }

  /** The members of a collection, each once. */
  ghost predicate DropRecord(docs: map<Id, Record>, name: string, ids: seq<Id>) {
    DistinctSeq(ids) && forall id :: id in ids <==> InColl(docs, name, id)
  }

  lemma DropNothing(docs: map<Id, Record>, feed: seq<Change>, ids: seq<Id>)
    ensures DocsAfter(docs, Removes(ids[..0])) == docs && FeedAfter(docs, feed, Removes(ids[..0])) == feed
    ensures TwiceRemoved(ids[..0]) == []
  {
    assert Removes(ids[..0]) == [];
  }

  lemma DropSnoc(docs: map<Id, Record>, feed: seq<Change>, ids: seq<Id>, i: nat)
    requires i < |ids|
    ensures DocsAfter(docs, Removes(ids[..i + 1])) == DocsAfter(docs, Removes(ids[..i])) - {ids[i]}
    ensures FeedAfter(docs, feed, Removes(ids[..i + 1]))
            == EditFeed(DocsAfter(docs, Removes(ids[..i])), FeedAfter(docs, feed, Removes(ids[..i])), Remove(ids[i]))
    ensures TwiceRemoved(ids[..i + 1]) == TwiceRemoved(ids[..i]) + [GraphRemove(ids[i]), GraphRemove(ids[i])]
  {
    assert Removes(ids[..i + 1]) == Removes(ids[..i]) + [Remove(ids[i])];
    assert (Removes(ids[..i]) + [Remove(ids[i])])[..i] == Removes(ids[..i]);
    assert ids[..i + 1][..i] == ids[..i];
  }

  lemma {:induction false} RemovedDoc(docs: map<Id, Record>, ids: seq<Id>, id: Id)
    ensures Get(DocsAfter(docs, Removes(ids)), id) == if id in ids then None else Get(docs, id)
  {
    if ids == [] {
      DropNothing(docs, [], ids);
      assert ids[..0] == ids;
    } else {
      var n := |ids| - 1;
      RemovedDoc(docs, ids[..n], id);
      DropSnoc(docs, [], ids, n);
      assert ids[..n + 1] == ids;
      assert ids == ids[..n] + [ids[n]];
    }
  }

  lemma DroppedDocs(docs: map<Id, Record>, name: string, ids: seq<Id>)
    requires DropRecord(docs, name, ids)
    ensures DocsAfter(docs, Removes(ids)) == map id | id in docs && !InColl(docs, name, id) :: docs[id]
  {
    forall id ensures Get(DocsAfter(docs, Removes(ids)), id)
                      == if id in docs && !InColl(docs, name, id) then Some(docs[id]) else None
    {
      RemovedDoc(docs, ids, id);
    }
    var left := map id | id in docs && !InColl(docs, name, id) :: docs[id];
    assert forall id :: Get(left, id) == Get(DocsAfter(docs, Removes(ids)), id);
    SameMap(left, DocsAfter(docs, Removes(ids)));
  }

  /** Remove one member: `remove_blocking`, then the second push. */
  method DropMember(e: Estate, ghost docs: map<Id, Record>, name: string, ids: seq<Id>, i: nat)
    requires e.Valid() && i < |ids|
    requires DropRecord(docs, name, ids) && e.docs == DocsAfter(docs, Removes(ids[..i]))
    modifies e`rows, e`df, e`counters, e`info, e`pushed, e`docs, e`feed
    ensures e.Valid()
    ensures e.docs == old(e.docs) - {ids[i]}
    ensures e.feed == EditFeed(old(e.docs), old(e.feed), Remove(ids[i]))
    ensures e.pushed == old(e.pushed) + [GraphRemove(ids[i]), GraphRemove(ids[i])]
    ensures e.info == old(e.info)
  {
    hide AdmitAll, Commits, Committed, CountersOk, Declares, DfOk, DistinctIds, DocsAfter, Edits, FeedAfter,
      Grew, Keyed, Net, Numbered, Removes, RowsOk, Stored, TxDf, TxOps;
    var id := ids[i];
    assert id in e.docs by {
      RemovedDoc(docs, ids[..i], id);
      assert InColl(docs, name, id);
      assert id !in ids[..i];
    }
    assert Committed(e.rows, id).Some? by {
      CommittedIsStored(e.env, e.fields, e.docs, e.feed, e.rows, id);
    }
    OneRemove(e, id);
    var res := Transact(e, [RemoveStmt(id)]);
    assert e.pushed == old(e.pushed) + [GraphRemove(id)];
    e.pushed := e.pushed + [GraphRemove(id)];
  }

  // ---- runs --------------------------------------------------------------------------

  datatype Command =
    | RunTransaction(stmts: seq<Stmt>)
    | RunEach(stmts: seq<Stmt>)
    | RunEdit(id: Id, f: Meta -> Meta)
    | RunCreateIndex(field: string)
    | RunRebuildIndex(field: string)
    | RunDrop(name: string)

  /** The only thing asked of a caller: no transaction names an id twice. */
  ghost predicate WellFormed(c: Command) {
    c.RunTransaction? || c.RunEach? ==> DistinctIds(Edits(c.stmts))
  }

  lemma EditDeclares(info: Info, docs: map<Id, Record>, id: Id, m: Meta)
    requires Declares(info, docs) && id in docs
    ensures Declares(info, docs[id := WithMeta(docs[id], m)])
  {
    assert DeclaresRecord(info, docs[id]);
  }

  lemma DropDeclares(info: Info, docs: map<Id, Record>, name: string)
    requires Declares(info, docs)
    ensures Declares(info.(registry := info.registry - {name}),
                     map id | id in docs && !InColl(docs, name, id) :: docs[id])
  {
    forall id | id in docs && !InColl(docs, name, id)
      ensures DeclaresRecord(info.(registry := info.registry - {name}), docs[id])
    {
      assert DeclaresRecord(info, docs[id]);
    }
  }

  method RunOne(e: Estate, command: Command)
    requires e.Valid() && Declares(e.info, e.docs) && WellFormed(command)
    modifies e
    ensures e.Valid() && Declares(e.info, e.docs)
  {
    hide AdmitAll, Declares, DistinctIds, DocsAfter, DropRecord, Edits, Estate.Valid, FeedAfter, Grew, Image, ImageButField,
      InColl, Landed, Removes, TwiceRemoved, WithMeta;
    match command {
      case RunTransaction(stmts) =>
        var _ := Transact(e, stmts);
      case RunEach(stmts) =>
        var _ := TransactEach(e, stmts);
      case RunEdit(id, f) =>
        if id in e.docs {
          EditDeclares(e.info, e.docs, id, f(e.docs[id].meta));
        }
        var _ := EditPayload(e, id, f);
      case RunCreateIndex(field) =>
        CreateIndex(e, field);
      case RunRebuildIndex(field) =>
        ValidButField(e, field);
        var _ := RebuildIndex(e, field);
      case RunDrop(name) =>
        DropDeclares(e.info, e.docs, name);
        var _ := DropCollection(e, name);
    }
  }

  /** After every run of writers, failed commands included, each table is the image of the documents,
      and every document's dimensions and collection are declared. */
  method Run(e: Estate, commands: seq<Command>)
    requires e.Valid() && Declares(e.info, e.docs)
    requires forall i :: 0 <= i < |commands| ==> WellFormed(commands[i])
    modifies e
    ensures e.Valid() && Declares(e.info, e.docs)
  {
    hide *;
    for i := 0 to |commands|
      invariant e.Valid() && Declares(e.info, e.docs)
    {
      RunOne(e, commands[i]);
    }
  }
}
