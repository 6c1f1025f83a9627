/**
 * The estate's tables: one document map and every row, count and counter derived from it.
 */
module Tables {
  import opened Wrappers

  // `Expected` is the single definition of which row each key must hold for a given document map
  // and feed.

  type Id = string
  type Vec = seq<real>

  /** Metadata: field name to JSON value text. */
  type Meta = map<string, string>

  const MAX_KEY_LEN: nat := 65_536

  datatype Record = Record(id: Id, text: string, embedding: Vec, meta: Meta, sparse: map<nat, real>,
                           named: map<string, Vec>, multi: seq<Vec>, coll: Option<string>)

  /** What the `docs` row keeps of a record: enough to retract it later. */
  datatype StoredDoc = StoredDoc(text: string, meta: Meta, shape: string, tokenLen: nat, sparseDims: set<nat>,
                                 namedSpaces: set<string>, multiLen: nat, coll: Option<string>)

  /** Text analysis, the metadata fingerprint, the typed index encoding, and schema types. */
  datatype Env = Env(analyze: string -> seq<string>, shape: Meta -> string, code: string -> string,
                     conforms: (string, string) -> bool)

  datatype Op = Upserted | Removed

  datatype Change = Change(seqNo: nat, op: Op, id: Id)

  datatype Key =
    | Doc(id: Id)
    | Vector(id: Id)
    | Posting(term: string, id: Id)
    | Payload(field: string, code: string, id: Id)
    | Sparse(dim: nat, id: Id)
    | Named(space: string, id: Id)
    | Multi(id: Id)
    | Member(coll: string, id: Id)
    | Feed(seqNo: nat)

  datatype Cell =
    | DocCell(doc: StoredDoc)
    | VecCell(v: Vec)
    | PostingCell(tf: nat, len: nat)
    | WeightCell(w: real)
    | TokensCell(vs: seq<Vec>)
    | ChangeCell(change: Change)
    | Mark

  datatype Counters = Counters(docCount: nat, tokens: nat, feedSeq: nat, shapes: map<string, nat>)

  /** One operation of a write batch. */
  datatype BatchOp = Put(key: Key, cell: Cell) | Delete(key: Key) | MergeDf(term: string, delta: int)

  function Get<K, V>(m: map<K, V>, k: K): Option<V> {
    if k in m then Some(m[k]) else None
  }

  function Count<K>(m: map<K, nat>, k: K): nat {
    if k in m then m[k] else 0
  }

  function Net<K>(m: map<K, int>, k: K): int {
    if k in m then m[k] else 0
  }

  function Less(a: nat, b: nat): nat { // saturating subtraction
    if a < b then 0 else a - b
  }

  lemma SameMap<K(!new), V>(a: map<K, V>, b: map<K, V>)
    requires forall k :: Get(a, k) == Get(b, k)
    ensures a == b
  {
    assert forall k :: k in a ==> Get(b, k) == Some(a[k]);
    assert forall k :: k in b ==> Get(a, k) == Some(b[k]);
  }

  // ---- rows derived from records ------------------------------------------------

  function Stored(env: Env, r: Record): StoredDoc {
    StoredDoc(r.text, r.meta, env.shape(r.meta), |env.analyze(r.text)|, r.sparse.Keys, r.named.Keys, |r.multi|,
              r.coll)
  }

  /** The row a record puts at key `k`, a key of its own id. */
  function RowOf(env: Env, fields: seq<string>, r: Record, k: Key): Option<Cell> {
    match k
    case Doc(_) => Some(DocCell(Stored(env, r)))
    case Vector(_) => Some(VecCell(r.embedding))
    case Posting(t, _) =>
      var tokens := env.analyze(r.text);
      if t in tokens then Some(PostingCell(multiset(tokens)[t], |tokens|)) else None
    case Payload(f, c, _) => if f in fields && f in r.meta && env.code(r.meta[f]) == c then Some(Mark) else None
    case Sparse(d, _) => if d in r.sparse then Some(WeightCell(r.sparse[d])) else None
    case Named(s, _) => if s in r.named then Some(VecCell(r.named[s])) else None
    case Multi(_) => if r.multi != [] then Some(TokensCell(r.multi)) else None
    case Member(c, _) => if r.coll == Some(c) then Some(Mark) else None
    case Feed(_) => None
  }

  /** The row key `k` must hold when the estate's documents are `docs` and its history is `feed`. */
  function Expected(env: Env, fields: seq<string>, docs: map<Id, Record>, feed: seq<Change>, k: Key): Option<Cell> {
    if k.Feed? then (if k.seqNo < |feed| then Some(ChangeCell(feed[k.seqNo])) else None)
    else if k.id in docs then RowOf(env, fields, docs[k.id], k)
    else None
  }

  // ---- counts -------------------------------------------------------------------

  ghost function Having(docs: map<Id, Record>, p: Record -> bool): set<Id> {
    set id | id in docs && p(docs[id])
  }

  function One(b: bool): nat { if b then 1 else 0 }

  lemma HavingPut(docs: map<Id, Record>, r: Record, p: Record -> bool)
    ensures |Having(docs[r.id := r], p)|
            == |Having(docs, p)| - One(r.id in docs && p(docs[r.id])) + One(p(r))
  {
    var all := Having(docs, p);
    assert r.id in all <==> r.id in docs && p(docs[r.id]);
    HavingNow(docs, r, p);
    hide Having;
    Without(all, r.id);
  }

  lemma HavingNow(docs: map<Id, Record>, r: Record, p: Record -> bool)
    ensures Having(docs[r.id := r], p) == Having(docs, p) - {r.id} + if p(r) then {r.id} else {}
  {
  }

  lemma Without<T>(s: set<T>, x: T)
    ensures |s - {x}| == |s| - One(x in s) && |s - {x} + {x}| == |s - {x}| + 1 && s - {x} + {} == s - {x}
  {
  }

  lemma HavingDrop(docs: map<Id, Record>, id: Id, p: Record -> bool)
    ensures |Having(docs - {id}, p)| == |Having(docs, p)| - One(id in docs && p(docs[id]))
  {
    assert Having(docs - {id}, p) == Having(docs, p) - {id};
  }

  function Carries(env: Env, t: string): Record -> bool {
    (r: Record) => t in env.analyze(r.text)
  }

  function Shaped(env: Env, s: string): Record -> bool {
    (r: Record) => env.shape(r.meta) == s
  }

  /** Documents carrying a term. */
  ghost function DocFreq(env: Env, docs: map<Id, Record>, t: string): nat {
    |Having(docs, Carries(env, t))|
  }

  ghost function Census(env: Env, docs: map<Id, Record>, s: string): nat {
    |Having(docs, Shaped(env, s))|
  }

  function Length(env: Env, r: Record): nat {
    |env.analyze(r.text)|
  }

  /** The tokens of all documents together. */
  ghost function Tokens(env: Env, docs: map<Id, Record>): nat {
    if docs == map[] then 0
    else
      var id :| id in docs;
      Length(env, docs[id]) + Tokens(env, docs - {id})
  }

  lemma {:induction false} TokensDrop(env: Env, docs: map<Id, Record>, id: Id)
    requires id in docs
    ensures Tokens(env, docs) == Length(env, docs[id]) + Tokens(env, docs - {id})
    decreases |docs|
  {
    var x :| x in docs && Tokens(env, docs) == Length(env, docs[x]) + Tokens(env, docs - {x});
    if x != id {
      TokensDrop(env, docs - {x}, id);
      assert docs - {x} - {id} == docs - {id} - {x};
      TokensDrop(env, docs - {id}, x);
    }
  }

  lemma TokensPut(env: Env, docs: map<Id, Record>, r: Record)
    ensures Tokens(env, docs[r.id := r]) + (if r.id in docs then Length(env, docs[r.id]) else 0)
            == Tokens(env, docs) + Length(env, r)
  {
    TokensDrop(env, docs[r.id := r], r.id);
    assert docs[r.id := r] - {r.id} == docs - {r.id};
    if r.id in docs {
      TokensDrop(env, docs, r.id);
    } else {
      assert docs - {r.id} == docs;
    }
  }

  // ---- the image ----------------------------------------------------------------

  ghost predicate Keyed(docs: map<Id, Record>) {
    forall id :: id in docs ==> docs[id].id == id
  }

  ghost predicate RowsOk(env: Env, fields: seq<string>, docs: map<Id, Record>, feed: seq<Change>, rows: map<Key, Cell>) {
    forall k :: Get(rows, k) == Expected(env, fields, docs, feed, k)
  }

  ghost predicate CountersOk(env: Env, docs: map<Id, Record>, feed: seq<Change>, c: Counters) {
    && c.docCount == |docs|
    && c.tokens == Tokens(env, docs)
    && c.feedSeq == |feed|
    && forall s :: Count(c.shapes, s) == Census(env, docs, s)
  }

  ghost predicate DfOk(env: Env, docs: map<Id, Record>, df: map<string, int>) {
    forall t :: Net(df, t) == DocFreq(env, docs, t)
  }

  /** Every feed entry carries its own row number. */
  ghost predicate Numbered(feed: seq<Change>) {
    forall n :: 0 <= n < |feed| ==> feed[n].seqNo == n
  }

  /** Every derived table is exactly the image of the document map. */
  ghost predicate Image(env: Env, fields: seq<string>, docs: map<Id, Record>, feed: seq<Change>,
                        rows: map<Key, Cell>, df: map<string, int>, c: Counters, stats: bool)
  {
    && Keyed(docs)
    && Numbered(feed)
    && RowsOk(env, fields, docs, feed, rows)
    && CountersOk(env, docs, feed, c)
    && (stats ==> DfOk(env, docs, df))
  }

  /** The image determines the tables: two estates holding the same documents and history hold equal
      rows, and their counts read alike. */
  lemma ImageUnique(env: Env, fields: seq<string>, docs: map<Id, Record>, feed: seq<Change>,
                    rows: map<Key, Cell>, df: map<string, int>, c: Counters,
                    rows': map<Key, Cell>, df': map<string, int>, c': Counters)
    requires Image(env, fields, docs, feed, rows, df, c, true)
    requires Image(env, fields, docs, feed, rows', df', c', true)
    ensures rows == rows'
    ensures c.(shapes := map[]) == c'.(shapes := map[])
    ensures forall s :: Count(c.shapes, s) == Count(c'.shapes, s)
    ensures forall t :: Net(df, t) == Net(df', t)
  {
    assert forall k :: Get(rows, k) == Get(rows', k);
    assert forall k :: k in rows ==> Get(rows', k) == Some(rows[k]);
    assert forall k :: k in rows' ==> Get(rows, k) == Some(rows'[k]);
  }

  /** And the tables determine the documents: nothing of a record is lost in its rows. */
  lemma RowsDetermine(env: Env, fields: seq<string>, docs: map<Id, Record>, docs': map<Id, Record>, feed: seq<Change>,
                      feed': seq<Change>, rows: map<Key, Cell>)
    requires Keyed(docs) && RowsOk(env, fields, docs, feed, rows)
    requires Keyed(docs') && RowsOk(env, fields, docs', feed', rows)
    ensures docs == docs'
  {
    forall id ensures id in docs <==> id in docs'
              ensures id in docs && id in docs' ==> docs[id] == docs'[id]
    {
      assert Get(rows, Doc(id)) == Expected(env, fields, docs, feed, Doc(id)) == Expected(env, fields, docs', feed', Doc(id));
      if id in docs && id in docs' {
        RowsRecover(env, fields, docs, docs', feed, feed', rows, id);
      }
    }
  }

  lemma RowsRecover(env: Env, fields: seq<string>, docs: map<Id, Record>, docs': map<Id, Record>, feed: seq<Change>,
                    feed': seq<Change>, rows: map<Key, Cell>, id: Id)
    requires RowsOk(env, fields, docs, feed, rows) && RowsOk(env, fields, docs', feed', rows)
    requires id in docs && id in docs' && docs[id].id == docs'[id].id
    ensures docs[id] == docs'[id]
  {
    var r, s := docs[id], docs'[id];
    forall k: Key | !k.Feed? && k.id == id ensures RowOf(env, fields, r, k) == RowOf(env, fields, s, k) {
      assert Get(rows, k) == Expected(env, fields, docs, feed, k) == Expected(env, fields, docs', feed', k);
    }
    SameRows(env, fields, r, s, id);
  }

  lemma SameRows(env: Env, fields: seq<string>, r: Record, s: Record, id: Id)
    requires r.id == s.id
    requires forall k: Key :: !k.Feed? && k.id == id ==> RowOf(env, fields, r, k) == RowOf(env, fields, s, k)
    ensures r == s
  {
    assert RowOf(env, fields, r, Doc(id)) == RowOf(env, fields, s, Doc(id));
    assert RowOf(env, fields, r, Vector(id)) == RowOf(env, fields, s, Vector(id));
    assert RowOf(env, fields, r, Multi(id)) == RowOf(env, fields, s, Multi(id));
    forall d ensures Get(r.sparse, d) == Get(s.sparse, d) {
      assert RowOf(env, fields, r, Sparse(d, id)) == RowOf(env, fields, s, Sparse(d, id));
    }
    forall n ensures Get(r.named, n) == Get(s.named, n) {
      assert RowOf(env, fields, r, Named(n, id)) == RowOf(env, fields, s, Named(n, id));
    }
    SameMap(r.sparse, s.sparse);
    SameMap(r.named, s.named);
  }

  // ---- batches ------------------------------------------------------------------

  /** What key `k` reads after a batch is written: the last operation on it wins. */
  function After(rows: map<Key, Cell>, batch: seq<BatchOp>, k: Key): Option<Cell> {
    if batch == [] then Get(rows, k)
    else
      var rest := batch[..|batch| - 1];
      match batch[|batch| - 1]
      case Put(key, cell) => if key == k then Some(cell) else After(rows, rest, k)
      case Delete(key) => if key == k then None else After(rows, rest, k)
      case MergeDf(_, _) => After(rows, rest, k)
  }

  /** The composed df operand of a batch on one term. */
  function Merged(batch: seq<BatchOp>, t: string): int {
    if batch == [] then 0
    else
      var op := batch[|batch| - 1];
      Merged(batch[..|batch| - 1], t) + if op.MergeDf? && op.term == t then op.delta else 0
  }

  // ---- edits: what a transaction's statements do --------------------------------

  /** One record-level effect of a statement. */
  datatype Edit = Upsert(r: Record) | Remove(id: Id)

  datatype GraphOp = GraphUpsert(id: Id, v: Vec) | GraphRemove(id: Id)

  function IdOf(e: Edit): Id {
    match e case Upsert(r) => r.id case Remove(id) => id
  }

  /** The document the committed database holds under an id. */
  function Committed(rows: map<Key, Cell>, id: Id): Option<StoredDoc> {
    if Doc(id) in rows && rows[Doc(id)].DocCell? then Some(rows[Doc(id)].doc) else None
  }

  /** The derived keys a stored document says it put: what a retraction deletes. */
  predicate OldKey(env: Env, fields: seq<string>, old_: StoredDoc, k: Key) {
    match k
    case Posting(t, _) => t in env.analyze(old_.text)
    case Payload(f, c, _) => f in fields && f in old_.meta && env.code(old_.meta[f]) == c
    case Sparse(d, _) => d in old_.sparseDims
    case Named(s, _) => s in old_.namedSpaces
    case Multi(_) => old_.multiLen > 0
    case Member(c, _) => old_.coll == Some(c)
    case Doc(_) => false
    case Vector(_) => false
    case Feed(_) => false
  }

  /** The row at `k` after one edit, given the committed version it retracts and the row before it. */
  function EditRow(env: Env, fields: seq<string>, stored: Option<StoredDoc>, e: Edit, feedSeq: nat, k: Key,
                   prev: Option<Cell>): Option<Cell>
  {
    match e
    case Upsert(r) =>
      if k.Feed? then (if k.seqNo == feedSeq then Some(ChangeCell(Change(feedSeq, Upserted, r.id))) else prev)
      else if k.id != r.id then prev
      else if RowOf(env, fields, r, k).Some? then RowOf(env, fields, r, k)
      else if stored.Some? && OldKey(env, fields, stored.value, k) then None
      else prev
    case Remove(id) =>
      if stored.None? then prev
      else if k.Feed? then (if k.seqNo == feedSeq then Some(ChangeCell(Change(feedSeq, Removed, id))) else prev)
      else if k.id != id then prev
      else if k.Doc? || k.Vector? || OldKey(env, fields, stored.value, k) then None
      else prev
  }

  function EditDf(env: Env, stored: Option<StoredDoc>, e: Edit, t: string): int {
    (if e.Upsert? && t in env.analyze(e.r.text) then 1 else 0)
    - (if stored.Some? && t in env.analyze(stored.value.text) then 1 else 0)
  }

  /** `if let Some(n) = shapes.get_mut(..) { *n = n.saturating_sub(1) }` */
  function ShapeOut(shapes: map<string, nat>, s: string): map<string, nat> {
    if s in shapes then shapes[s := Less(shapes[s], 1)] else shapes
  }

  function ShapeIn(shapes: map<string, nat>, s: string): map<string, nat> {
    shapes[s := Count(shapes, s) + 1]
  }

  function Retracted(c: Counters, old_: StoredDoc): Counters {
    c.(docCount := Less(c.docCount, 1), tokens := Less(c.tokens, old_.tokenLen),
       shapes := ShapeOut(c.shapes, old_.shape))
  }

  function EditCounters(env: Env, stored: Option<StoredDoc>, e: Edit, c: Counters): Counters {
    match e
    case Upsert(r) =>
      var c1 := if stored.Some? then Retracted(c, stored.value) else c;
      Counters(c1.docCount + 1, c1.tokens + Length(env, r), c1.feedSeq + 1, ShapeIn(c1.shapes, env.shape(r.meta)))
    case Remove(_) =>
      if stored.None? then c else
      var c1 := Retracted(c, stored.value);
      c1.(feedSeq := c1.feedSeq + 1)
  }

  function EditOps(stored: Option<StoredDoc>, e: Edit): seq<GraphOp> {
    match e
    case Upsert(r) => [GraphUpsert(r.id, r.embedding)]
    case Remove(id) => if stored.Some? then [GraphRemove(id)] else []
  }

  /** What one edit means for the documents and for the feed. */
  function EditDocs(docs: map<Id, Record>, e: Edit): map<Id, Record> {
    match e
    case Upsert(r) => docs[r.id := r]
    case Remove(id) => docs - {id}
  }

  function EditFeed(docs: map<Id, Record>, feed: seq<Change>, e: Edit): seq<Change> {
    match e
    case Upsert(r) => feed + [Change(|feed|, Upserted, r.id)]
    case Remove(id) => if id in docs then feed + [Change(|feed|, Removed, id)] else feed
  }

  // ---- one edit keeps the image --------------------------------------------------

  /** A stored document names every derived row of its record: retraction leaves none behind. */
  lemma RetractionComplete(env: Env, fields: seq<string>, r: Record, k: Key)
    ensures !k.Doc? && !k.Vector? && RowOf(env, fields, r, k).Some? ==> OldKey(env, fields, Stored(env, r), k)
    ensures OldKey(env, fields, Stored(env, r), k) ==> RowOf(env, fields, r, k).Some?
  {
  }

  /** The rows after an edit are the image of the edited documents, provided the retracted version
      is the one the rows were derived from. */
  lemma EditRowOk(env: Env, fields: seq<string>, docs: map<Id, Record>, feed: seq<Change>,
                  stored: Option<StoredDoc>, e: Edit, k: Key)
    requires stored == if IdOf(e) in docs then Some(Stored(env, docs[IdOf(e)])) else None
    ensures EditRow(env, fields, stored, e, |feed|, k, Expected(env, fields, docs, feed, k))
            == Expected(env, fields, EditDocs(docs, e), EditFeed(docs, feed, e), k)
  {
    if !k.Feed? && k.id == IdOf(e) && IdOf(e) in docs {
      RetractionComplete(env, fields, docs[IdOf(e)], k);
    }
  }

  lemma EditDfOk(env: Env, docs: map<Id, Record>, stored: Option<StoredDoc>, e: Edit, t: string)
    requires stored == if IdOf(e) in docs then Some(Stored(env, docs[IdOf(e)])) else None
    ensures DocFreq(env, EditDocs(docs, e), t) == DocFreq(env, docs, t) + EditDf(env, stored, e, t)
  {
    match e {
      case Upsert(r) => HavingPut(docs, r, Carries(env, t));
      case Remove(id) => HavingDrop(docs, id, Carries(env, t));
    }
  }

  lemma CensusPositive(env: Env, docs: map<Id, Record>, id: Id)
    requires id in docs
    ensures Census(env, docs, env.shape(docs[id].meta)) > 0
  {
    assert id in Having(docs, Shaped(env, env.shape(docs[id].meta)));
  }

  lemma ShapeCounts(shapes: map<string, nat>, x: string, s: string)
    ensures Count(ShapeOut(shapes, x), s) == Less(Count(shapes, s), One(s == x))
    ensures Count(ShapeIn(shapes, x), s) == Count(shapes, s) + One(s == x)
  {
  }

  lemma EditCensusOk(env: Env, docs: map<Id, Record>, stored: Option<StoredDoc>, e: Edit, c: Counters, s: string)
    requires stored == if IdOf(e) in docs then Some(Stored(env, docs[IdOf(e)])) else None
    requires forall s :: Count(c.shapes, s) == Census(env, docs, s)
    ensures Count(EditCounters(env, stored, e, c).shapes, s) == Census(env, EditDocs(docs, e), s)
  {
    var held := stored.Some? && stored.value.shape == s;
    assert held ==> Count(c.shapes, s) > 0 by {
      if held {
        CensusPositive(env, docs, IdOf(e));
      }
    }
    var c1 := if stored.Some? then Retracted(c, stored.value) else c;
    assert Count(c1.shapes, s) == Census(env, docs, s) - One(held) by {
      if stored.Some? {
        ShapeCounts(c.shapes, stored.value.shape, s);
      }
    }
    match e {
      case Upsert(r) =>
        HavingPut(docs, r, Shaped(env, s));
        ShapeCounts(c1.shapes, env.shape(r.meta), s);
      case Remove(id) => HavingDrop(docs, id, Shaped(env, s));
    }
  }

  lemma DropSize<K, V>(m: map<K, V>, k: K)
    ensures |m - {k}| == |m| - One(k in m)
  {
    assert (m - {k}).Keys == m.Keys - {k};
  }

  lemma PutSize<K, V>(m: map<K, V>, k: K, v: V)
    ensures |m[k := v]| == |m| + One(k !in m)
  {
    assert m[k := v].Keys == m.Keys + {k};
  }

  /** The plain counters after an edit, the documents counted and their tokens summed. */
  lemma EditTotalsOk(env: Env, docs: map<Id, Record>, stored: Option<StoredDoc>, e: Edit, c: Counters)
    requires stored == if IdOf(e) in docs then Some(Stored(env, docs[IdOf(e)])) else None
    requires c.docCount == |docs| && c.tokens == Tokens(env, docs)
    ensures EditCounters(env, stored, e, c).docCount == |EditDocs(docs, e)|
    ensures EditCounters(env, stored, e, c).tokens == Tokens(env, EditDocs(docs, e))
  {
    hide Tokens, ShapeOut, ShapeIn, EditDocs;
    SizeAfter(docs, e);
    TokensAfter(env, docs, e);
    if IdOf(e) in docs {
      TokensDrop(env, docs, IdOf(e));
    }
  }

  lemma SizeAfter(docs: map<Id, Record>, e: Edit)
    ensures |EditDocs(docs, e)| == |docs| + (if e.Upsert? then 1 else 0) - One(IdOf(e) in docs)
  {
    match e {
      case Upsert(r) => PutSize(docs, r.id, r);
      case Remove(id) => DropSize(docs, id);
    }
  }

  lemma TokensAfter(env: Env, docs: map<Id, Record>, e: Edit)
    ensures Tokens(env, EditDocs(docs, e)) + (if IdOf(e) in docs then Length(env, docs[IdOf(e)]) else 0)
            == Tokens(env, docs) + (if e.Upsert? then Length(env, e.r) else 0)
  {
    match e {
      case Upsert(r) => TokensPut(env, docs, r);
      case Remove(id) =>
        if id in docs {
          TokensDrop(env, docs, id);
        } else {
          assert docs - {id} == docs;
        }
    }
  }

  lemma EditCountersOk(env: Env, docs: map<Id, Record>, feed: seq<Change>, stored: Option<StoredDoc>, e: Edit, c: Counters)
    requires stored == if IdOf(e) in docs then Some(Stored(env, docs[IdOf(e)])) else None
    requires CountersOk(env, docs, feed, c)
    ensures CountersOk(env, EditDocs(docs, e), EditFeed(docs, feed, e), EditCounters(env, stored, e, c))
  {
    forall s ensures Count(EditCounters(env, stored, e, c).shapes, s) == Census(env, EditDocs(docs, e), s) {
      EditCensusOk(env, docs, stored, e, c, s);
    }
    EditTotalsOk(env, docs, stored, e, c);
  }
}
