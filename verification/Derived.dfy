/**
 * What the write path's tables give their readers.
 */
module Derived {
  import opened Wrappers
  import opened ByteStrings
  import opened Sets
  import opened Tables
  import opened Statements
  import opened WritePath
  import PendingSet
  import Freshness
  import Lexical
  import SparseSearch
  import PayloadKeys
  import Json

  // The hypotheses of graph freshness, lexical search, sparse search and the payload index all
  // follow from the tables being the image of the documents.

  // ---- commits and the graph ------------------------------------------------------------

  /** The durable vectors. */
  ghost function Vectors(rows: map<Key, Cell>): map<Id, Vec> {
    map k: Key | k in rows && k.Vector? && rows[k].VecCell? :: k.id := rows[k].v
  }

  function AsVector(cell: Option<Cell>): Option<Vec> {
    match cell
    case Some(VecCell(v)) => Some(v)
    case _ => None
  }

  lemma VectorsAt(rows: map<Key, Cell>, id: Id)
    ensures Get(Vectors(rows), id) == AsVector(Get(rows, Vector(id)))
  {
    if id in Vectors(rows) {
      assert Vector(id) in rows;
    }
  }

  function Pending(op: GraphOp): (Id, PendingSet.Op<Vec>) {
    match op
    case GraphUpsert(id, v) => (id, Some(v))
    case GraphRemove(id) => (id, None)
  }

  function PendingAll(ops: seq<GraphOp>): seq<(Id, PendingSet.Op<Vec>)> {
    if ops == [] then [] else PendingAll(ops[..|ops| - 1]) + [Pending(ops[|ops| - 1])]
  }

  lemma PendingSnoc(vecs: map<Id, Vec>, ops: seq<GraphOp>, op: GraphOp)
    ensures PendingSet.ApplyAll(vecs, PendingAll(ops + [op]))
            == PendingSet.ApplyOp(PendingSet.ApplyAll(vecs, PendingAll(ops)), Pending(op).0, Pending(op).1)
  {
    assert (ops + [op])[..|ops|] == ops;
    var all := PendingAll(ops);
    assert (all + [Pending(op)])[..|all|] == all;
  }

  /** One edit: its graph operation does to the vectors what its rows do. */
  lemma EditMatches(env: Env, fields: seq<string>, stored: Option<StoredDoc>, e: Edit, feedSeq: nat, id: Id,
                    prev: Option<Cell>, vecs: map<Id, Vec>, ops: seq<GraphOp>)
    requires Get(PendingSet.ApplyAll(vecs, PendingAll(ops)), id) == AsVector(prev)
    ensures Get(PendingSet.ApplyAll(vecs, PendingAll(ops + EditOps(stored, e))), id)
            == AsVector(EditRow(env, fields, stored, e, feedSeq, Vector(id), prev))
  {
    hide PendingSet.ApplyAll, PendingAll;
    if EditOps(stored, e) == [] {
      assert ops + EditOps(stored, e) == ops;
    } else {
      PendingSnoc(vecs, ops, EditOps(stored, e)[0]);
    }
  }

  /** The vector rows a transaction leaves are the old ones with its graph operations applied, whatever ids repeat. */
  lemma {:induction false} OpsMatchRows(env: Env, fields: seq<string>, rows: map<Key, Cell>, es: seq<Edit>, c: Counters, id: Id)
    ensures Get(PendingSet.ApplyAll(Vectors(rows), PendingAll(TxOps(rows, es))), id)
            == AsVector(TxRow(env, fields, rows, es, c, Vector(id)))
    decreases |es|
  {
    if es == [] {
      VectorsAt(rows, id);
    } else {
      hide PendingSet.ApplyAll, PendingAll, EditRow, EditOps, Committed, TxCounters, AsVector, Vectors;
      var e, rest := es[|es| - 1], es[..|es| - 1];
      OpsMatchRows(env, fields, rows, rest, c, id);
      EditMatches(env, fields, Committed(rows, IdOf(e)), e, TxCounters(env, rows, rest, c).feedSeq, id,
                  TxRow(env, fields, rows, rest, c, Vector(id)), Vectors(rows), TxOps(rows, rest));
    }
  }

  /** Each graph operation has its feed row. */
  lemma {:induction false} OpsHaveRows(env: Env, rows: map<Key, Cell>, es: seq<Edit>, c: Counters)
    ensures TxCounters(env, rows, es, c).feedSeq == c.feedSeq + |TxOps(rows, es)|
    decreases |es|
  {
    if es == [] {
    } else {
      hide Committed, ShapeIn, ShapeOut, Length;
      OpsHaveRows(env, rows, es[..|es| - 1], c);
    }
  }

  /** Every landed transaction is a commit step of the graph's freshness system. */
  lemma LandedIsCommit(env: Env, fields: seq<string>, stats: bool, es: seq<Edit>,
                       rows: map<Key, Cell>, df: map<string, int>, c: Counters, pushed: seq<GraphOp>,
                       rows': map<Key, Cell>, df': map<string, int>, c': Counters, pushed': seq<GraphOp>,
                       e: Freshness.Estate<Id, Vec>, f: Freshness.Estate<Id, Vec>)
    requires Landed(env, fields, stats, es, rows, df, c, pushed, rows', df', c', pushed')
    requires e.vecs == Vectors(rows) && e.feedSeq == c.feedSeq && e.unpushed == []
    requires f == e.(vecs := Vectors(rows'), feedSeq := c'.feedSeq, unpushed := PendingAll(pushed'[|pushed|..]))
    ensures Freshness.ENext(e, Freshness.Commit(PendingAll(TxOps(rows, es)), |TxOps(rows, es)|), f)
  {
    var ops := TxOps(rows, es);
    assert pushed'[|pushed|..] == ops;
    OpsHaveRows(env, rows, es, c);
    if ops == [] {
      assert PendingSet.ApplyAll(e.vecs, PendingAll(ops)) == e.vecs;
    }
    forall id ensures Get(Vectors(rows'), id) == Get(PendingSet.ApplyAll(Vectors(rows), PendingAll(ops)), id) {
      OpsMatchRows(env, fields, rows, es, c, id);
      VectorsAt(rows', id);
    }
    SameMap(Vectors(rows'), PendingSet.ApplyAll(Vectors(rows), PendingAll(ops)));
  }

  /** Dropping a collection pushes each member's removal once more, outside any lock: right exactly when the id has no
      row in the vector table at that moment; otherwise its durable vector is masked from the graph. */
  lemma SecondPushIff(rows: map<Key, Cell>, id: Id, e: Freshness.Estate<Id, Vec>, f: Freshness.Estate<Id, Vec>)
    requires Freshness.EInv(e) && e.vecs == Vectors(rows) && e.unpushed == [] && Freshness.PushedAgain(e, id, f)
    requires forall x :: Vector(x) in rows ==> rows[Vector(x)].VecCell?
    ensures Freshness.EInv(f) <==> Vector(id) !in rows
    ensures Vector(id) in rows ==> id in f.vecs && id !in f.y.pushed
  {
    hide Freshness.EInv;
    VectorsAt(rows, id);
    Freshness.PushAgainIff(e, id, f);
  }

  // ---- names as bytes ---------------------------------------------------------------------

  /** Strings and their byte encoding; `text` undoes `bytes`. */
  datatype Names = Names(bytes: string -> Bytes, text: Bytes -> string) {
    ghost predicate Valid() { forall s :: text(bytes(s)) == s }

    predicate IsName(b: Bytes) { bytes(text(b)) == b }
  }

  // ---- lexical search -----------------------------------------------------------------------

  /** `ix` is what the lexical scans read of the tables. */
  ghost predicate IndexOf(n: Names, rows: map<Key, Cell>, df: map<string, int>, c: Counters, ix: Lexical.Index) {
    && ix.nDocs == c.docCount && ix.totalTokens == c.tokens
    && (forall t :: ix.Df(t) == if n.IsName(t) then Net(df, n.text(t)) else 0)
    && (forall t, id :: id in ix.Post(t) <==> n.IsName(t) && n.IsName(id) && Posting(n.text(t), n.text(id)) in rows)
    && (forall t, id :: id in ix.Post(t) ==>
          rows[Posting(n.text(t), n.text(id))] == PostingCell(ix.Post(t)[id].tf, ix.Post(t)[id].len))
  }

  /** Lexical search's hypothesis holds over every image: the df counters count the postings. */
  lemma IndexConsistent(n: Names, env: Env, fields: seq<string>, docs: map<Id, Record>, feed: seq<Change>,
                        rows: map<Key, Cell>, df: map<string, int>, c: Counters, ix: Lexical.Index)
    requires n.Valid() && Image(env, fields, docs, feed, rows, df, c, true) && IndexOf(n, rows, df, c, ix)
    ensures ix.Consistent()
  {
    hide Expected, CountersOk, Census, Tokens, Keyed, Numbered;
    forall t ensures ix.Df(t) == |ix.Post(t)| {
      if n.IsName(t) {
        PostingKeys(n, env, fields, docs, feed, rows, df, c, ix, n.text(t));
      } else {
        forall id ensures id !in ix.Post(t) {
          assert n.IsName(id) || !n.IsName(id);
        }
        assert ix.Post(t) == map[];
      }
    }
    if ix.nDocs == 0 {
      NoDocuments(env, docs, feed, c);
      forall t ensures ix.Post(t) == map[] {
        forall id ensures id !in ix.Post(t) {
          PostingRow(env, fields, docs, feed, rows, n.text(t), n.text(id));
        }
      }
    }
  }

  lemma NoDocuments(env: Env, docs: map<Id, Record>, feed: seq<Change>, c: Counters)
    requires CountersOk(env, docs, feed, c) && c.docCount == 0
    ensures docs == map[]
  {
  }

  lemma PostingRow(env: Env, fields: seq<string>, docs: map<Id, Record>, feed: seq<Change>, rows: map<Key, Cell>,
                   t: string, id: Id)
    requires RowsOk(env, fields, docs, feed, rows)
    ensures Posting(t, id) in rows <==> id in Having(docs, Carries(env, t))
  {
    assert Get(rows, Posting(t, id)) == Expected(env, fields, docs, feed, Posting(t, id));
  }

  lemma PostingKeys(n: Names, env: Env, fields: seq<string>, docs: map<Id, Record>, feed: seq<Change>,
                    rows: map<Key, Cell>, df: map<string, int>, c: Counters, ix: Lexical.Index, t: string)
    requires n.Valid() && RowsOk(env, fields, docs, feed, rows) && IndexOf(n, rows, df, c, ix)
    ensures |ix.Post(n.bytes(t))| == DocFreq(env, docs, t)
  {
    var have := Having(docs, Carries(env, t));
    PostingSet(n, env, fields, docs, feed, rows, df, c, ix, t);
    assert DocFreq(env, docs, t) == |have|;
    hide *;
    BytesInjective(n);
    InjectiveCard(have, n.bytes, ix.Post(n.bytes(t)).Keys);
  }

  lemma BytesInjective(n: Names)
    requires n.Valid()
    ensures forall x, y :: n.bytes(x) == n.bytes(y) ==> x == y
  {
    forall x, y | n.bytes(x) == n.bytes(y) ensures x == y {
      assert n.text(n.bytes(x)) == x && n.text(n.bytes(y)) == y;
    }
  }

  lemma PostingSet(n: Names, env: Env, fields: seq<string>, docs: map<Id, Record>, feed: seq<Change>,
                   rows: map<Key, Cell>, df: map<string, int>, c: Counters, ix: Lexical.Index, t: string)
    requires n.Valid() && RowsOk(env, fields, docs, feed, rows) && IndexOf(n, rows, df, c, ix)
    ensures ix.Post(n.bytes(t)).Keys == set id | id in Having(docs, Carries(env, t)) :: n.bytes(id)
    ensures |ix.Post(n.bytes(t))| == |ix.Post(n.bytes(t)).Keys|
  {
    var have, keys := Having(docs, Carries(env, t)), ix.Post(n.bytes(t)).Keys;
    hide RowsOk, Having, Lexical.Index.Post;
    assert n.IsName(n.bytes(t));
    forall b ensures b in keys <==> b in set id | id in have :: n.bytes(id) {
      PostingRow(env, fields, docs, feed, rows, t, n.text(b));
      if b in keys {
        assert n.text(b) in have && n.bytes(n.text(b)) == b;
      }
    }
  }

  /** The positions of a token. */
  ghost function Positions(tokens: seq<string>, t: string): set<int> {
    set i | 0 <= i < |tokens| && tokens[i] == t
  }

  lemma {:induction false} Occurrences(tokens: seq<string>, t: string)
    ensures multiset(tokens)[t] == |Positions(tokens, t)|
    decreases |tokens|
  {
    if tokens == [] {
      assert Positions(tokens, t) == {};
    } else {
      var k := |tokens| - 1;
      Occurrences(tokens[..k], t);
      assert tokens == tokens[..k] + [tokens[k]];
      assert Positions(tokens, t) == Positions(tokens[..k], t) + if tokens[k] == t then {k} else {};
    }
  }

  /** What a posting counts, over every image: the occurrences of its term in the document's text, of all its tokens. */
  lemma PostingCounts(n: Names, env: Env, fields: seq<string>, docs: map<Id, Record>, feed: seq<Change>,
                      rows: map<Key, Cell>, df: map<string, int>, c: Counters, ix: Lexical.Index, t: Bytes, id: Bytes)
    requires RowsOk(env, fields, docs, feed, rows) && IndexOf(n, rows, df, c, ix) && id in ix.Post(t)
    ensures n.text(id) in docs
    ensures var tokens, p := env.analyze(docs[n.text(id)].text), ix.Post(t)[id];
            && p.tf == |Positions(tokens, n.text(t))| > 0 && p.len == |tokens|
  {
    var k := Posting(n.text(t), n.text(id));
    assert Get(rows, k) == Expected(env, fields, docs, feed, k);
    hide RowsOk, IndexOf, Lexical.Index.Post;
    var tokens := env.analyze(docs[n.text(id)].text);
    Occurrences(tokens, n.text(t));
    assert n.text(t) in multiset(tokens);
  }

  // ---- sparse search --------------------------------------------------------------------------

  /** The documents' sparse vectors, by encoded id. */
  ghost predicate SparseDocs(n: Names, docs: map<Id, Record>, vs: map<Bytes, SparseSearch.Sparse>) {
    && (forall b :: b in vs <==> n.IsName(b) && n.text(b) in docs)
    && (forall b :: b in vs ==> SparseSearch.Well(vs[b]))
    && (forall b, d :: b in vs ==> SparseSearch.At(vs[b], d) == Get(docs[n.text(b)].sparse, d))
  }

  /** `p` is what the sparse scans read of the tables. */
  ghost predicate SparseRows(n: Names, rows: map<Key, Cell>, p: SparseSearch.Postings) {
    && (forall d, b :: b in SparseSearch.Post(p, d) <==> n.IsName(b) && Sparse(d, n.text(b)) in rows)
    && (forall d, b :: b in SparseSearch.Post(p, d) ==>
          rows[Sparse(d, n.text(b))] == WeightCell(SparseSearch.Post(p, d)[b]))
  }

  /** Sparse search's hypothesis holds over every image. */
  lemma SparsePostingsOk(n: Names, env: Env, fields: seq<string>, docs: map<Id, Record>, feed: seq<Change>,
                         rows: map<Key, Cell>, vs: map<Bytes, SparseSearch.Sparse>, p: SparseSearch.Postings)
    requires RowsOk(env, fields, docs, feed, rows) && SparseDocs(n, docs, vs) && SparseRows(n, rows, p)
    ensures SparseSearch.PostingsOk(p, vs)
  {
    hide RowsOk, SparseSearch.At, SparseSearch.Post, SparseSearch.Well;
    forall d: nat, b: Bytes
      ensures b in SparseSearch.Post(p, d) <==> b in vs && d in vs[b].indices
      ensures b in SparseSearch.Post(p, d) ==> SparseSearch.At(vs[b], d) == Some(SparseSearch.Post(p, d)[b])
    {
      SparseRow(env, fields, docs, feed, rows, d, n.text(b));
      if b in vs {
        SparseSearch.AtIs(vs[b], d);
      }
    }
  }

  lemma SparseRow(env: Env, fields: seq<string>, docs: map<Id, Record>, feed: seq<Change>, rows: map<Key, Cell>,
                  d: nat, id: Id)
    requires RowsOk(env, fields, docs, feed, rows)
    ensures Get(rows, Sparse(d, id))
            == if id in docs && d in docs[id].sparse then Some(WeightCell(docs[id].sparse[d])) else None
  {
    assert Get(rows, Sparse(d, id)) == Expected(env, fields, docs, feed, Sparse(d, id));
  }

  // ---- the payload index ------------------------------------------------------------------------

  /** Metadata as parsed JSON, and the bytes of an encoded value. */
  datatype Payloads = Payloads(parse: string -> Json.Value, code: string -> Bytes)

  /** The documents' metadata, by encoded id and field. */
  ghost predicate PayloadDocs(n: Names, pl: Payloads, docs: map<Id, Record>, ds: PayloadKeys.Docs) {
    && (forall b :: b in ds <==> n.IsName(b) && n.text(b) in docs)
    && (forall b, f :: b in ds ==> (f in ds[b] <==> n.IsName(f) && n.text(f) in docs[n.text(b)].meta))
    && (forall b, f :: b in ds && f in ds[b] ==> ds[b][f] == pl.parse(docs[n.text(b)].meta[n.text(f)]))
  }

  ghost predicate PayloadKey(n: Names, pl: Payloads, rows: map<Key, Cell>, k: Bytes, f: string, code: string, id: Id) {
    Payload(f, code, id) in rows && k == PayloadKeys.Key(n.bytes(f), pl.code(code), n.bytes(id))
  }

  ghost predicate PayloadRow(n: Names, pl: Payloads, rows: map<Key, Cell>, k: Bytes) {
    exists f, code, id :: PayloadKey(n, pl, rows, k, f, code, id)
  }

  lemma PayloadCell(env: Env, fields: seq<string>, docs: map<Id, Record>, feed: seq<Change>, rows: map<Key, Cell>,
                    f: string, code: string, id: Id)
    requires RowsOk(env, fields, docs, feed, rows)
    ensures Payload(f, code, id) in rows
       <==> id in docs && f in fields && f in docs[id].meta && env.code(docs[id].meta[f]) == code
  {
    assert Get(rows, Payload(f, code, id)) == Expected(env, fields, docs, feed, Payload(f, code, id));
  }

  /** The filter evaluator's hypothesis holds over every image: the sorted payload keys are those of the documents. */
  lemma PayloadTableOk(n: Names, pl: Payloads, lx: PayloadKeys.Lexer, env: Env, fields: seq<string>, docs: map<Id, Record>,
                       feed: seq<Change>, rows: map<Key, Cell>, ds: PayloadKeys.Docs, table: seq<Bytes>)
    requires n.Valid() && RowsOk(env, fields, docs, feed, rows) && PayloadDocs(n, pl, docs, ds) && PayloadKeys.Clean(lx, ds)
    requires forall f :: f in fields ==> PayloadKeys.NoNul(n.bytes(f))
    requires forall v :: pl.code(env.code(v)) == PayloadKeys.Encoded(lx, pl.parse(v))
    requires PayloadKeys.Ascending(table) && forall k :: k in table <==> PayloadRow(n, pl, rows, k)
    ensures PayloadKeys.TableOk(lx, set f | f in fields :: n.bytes(f), ds, table)
  {
    var indexed := set f | f in fields :: n.bytes(f);
    hide RowsOk, PayloadKeys.Ascending, PayloadKeys.Encoded, PayloadKeys.Key, PayloadKeys.Clean, PayloadKeys.NoNul;
    forall k ensures k in table <==> PayloadKeys.IsRow(lx, indexed, ds, k) {
      if k in table {
        var f, code, id :| PayloadKey(n, pl, rows, k, f, code, id);
        PayloadCell(env, fields, docs, feed, rows, f, code, id);
        assert n.IsName(n.bytes(f)) && n.IsName(n.bytes(id));
        assert PayloadKeys.RowOf(lx, ds, k, n.bytes(f), n.bytes(id));
      }
      if PayloadKeys.IsRow(lx, indexed, ds, k) {
        var f, id :| f in indexed && PayloadKeys.RowOf(lx, ds, k, f, id);
        var name, text := n.text(f), n.text(id);
        var code := env.code(docs[text].meta[name]);
        PayloadCell(env, fields, docs, feed, rows, name, code, text);
        assert PayloadKey(n, pl, rows, k, name, code, text);
      }
    }
  }
}
