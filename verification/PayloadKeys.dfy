/**
 * Payload-index keys: `field NUL typed-value NUL id`.
 */
module PayloadKeys {
  import opened Wrappers
  import opened ByteStrings
  import opened Sortable
  import opened Json
  import opened Uuids
  import Geo

  // The typed value is a one-byte tag and an order-preserving encoding. Fields, ids and text values
  // hold no NUL.

  type Meta = map<Bytes, Value>

  /** Documents by id. */
  type Docs = map<Bytes, Meta>

  /** The string parsers, RFC 3339 instants to epoch milliseconds and UUIDs, and the compact JSON printer. */
  datatype Lexer = Lexer(epoch: Bytes -> Option<I64>, uuid: Bytes -> Option<Uuid>, json: Value -> Bytes)

  const SEP: Byte := 0
  const NUM: Byte := 110
  const STR: Byte := 115
  const BOOL: Byte := 98
  const OTHER: Byte := 111
  const DT: Byte := 100
  const UUID: Byte := 117
  const GEO: Byte := 103

  /** `encode_pidx_value`. */
  function Encoded(lx: Lexer, v: Value): (enc: Bytes)
    ensures Coded(enc)
  {
    match v
    case Number(n) => [NUM] + EncodeF64(AsF64(n))
    case Str(s) =>
      var t := lx.epoch(s);
      if t.Some? then [DT] + EncodeI64(t.value)
      else
        var u := lx.uuid(s);
        if u.Some? then [UUID] + u.value else [STR] + s
    case Flag(b) => [BOOL, if b then 1 else 0]
    case Object(_) =>
      var point := PointOf(v);
      if point.Some? then [GEO] + Be(Geo.Morton(point.value.0, point.value.1), 8) else [OTHER] + lx.json(v)
    case Array(_) => [OTHER] + lx.json(v)
    case Null => [OTHER] + lx.json(v)
  }

  function FieldPrefix(field: Bytes): Bytes { field + [SEP] }

  function ValuePrefix(field: Bytes, enc: Bytes): Bytes { FieldPrefix(field) + (enc + [SEP]) }

  function TagPrefix(field: Bytes, tag: Byte): Bytes { FieldPrefix(field) + [tag] }

  function Key(field: Bytes, enc: Bytes, id: Bytes): Bytes { FieldPrefix(field) + (enc + ([SEP] + id)) }

  predicate NoNul(b: Bytes) { forall i :: 0 <= i < |b| ==> b[i] != SEP }

  /** An encoding's tag fixes its length, except for text. */
  predicate Coded(enc: Bytes) {
    && enc != []
    && (enc[0] == NUM || enc[0] == DT || enc[0] == GEO ==> |enc| == 9)
    && (enc[0] == UUID ==> |enc| == 17)
    && (enc[0] == BOOL ==> |enc| == 2)
    && enc[0] in {NUM, STR, BOOL, OTHER, DT, UUID, GEO}
  }

  predicate TextTag(tag: Byte) { tag == STR || tag == OTHER }

  predicate CleanCode(enc: Bytes) { Coded(enc) && (TextTag(enc[0]) ==> NoNul(enc)) }

  predicate CleanValue(lx: Lexer, v: Value) {
    match v
    case Number(_) => true
    case Str(s) => NoNul(s)
    case Flag(_) => true
    case _ => NoNul(lx.json(v))
  }

  /** Documents as the estate stores them: no NUL in ids and text. */
  ghost predicate Clean(lx: Lexer, docs: Docs) {
    && (forall id :: id in docs ==> NoNul(id))
    && (forall id, f :: id in docs && f in docs[id] ==> CleanValue(lx, docs[id][f]))
  }

  lemma CleanEncoded(lx: Lexer, v: Value)
    requires CleanValue(lx, v)
    ensures CleanCode(Encoded(lx, v))
  {
  }

  // ---- keys split one way -----------------------------------------------------------

  /** The first separator ends the field. */
  lemma SplitField(a: Bytes, x: Bytes, b: Bytes, y: Bytes)
    requires NoNul(a) && NoNul(b) && FieldPrefix(a) + x == FieldPrefix(b) + y
    ensures a == b && x == y
  {
    var s := FieldPrefix(a) + x;
    assert forall i :: 0 <= i < |a| ==> s[i] == a[i];
    assert forall i :: 0 <= i < |b| ==> s[i] == b[i];
    assert s[|a|] == SEP && s[|b|] == SEP;
    assert s[..|a|] == a && s[..|b|] == b;
    assert s[|a| + 1..] == x && s[|b| + 1..] == y;
  }

  /** A stored encoding and id are told apart from any other, even of a query value with NULs in it. */
  lemma SplitCode(enc: Bytes, id: Bytes, query: Bytes, rest: Bytes)
    requires CleanCode(enc) && NoNul(id) && Coded(query)
    requires enc + ([SEP] + id) == query + [SEP] + rest
    ensures enc == query && id == rest
  {
    var s := enc + ([SEP] + id);
    assert s[0] == enc[0] && s[0] == query[0];
    assert forall i :: 0 <= i < |enc| ==> s[i] == enc[i];
    assert forall i :: |enc| + 1 <= i < |s| ==> s[i] == id[i - |enc| - 1];
    assert s[|query|] == SEP;
    assert s[..|enc|] == enc && s[..|query|] == query;
    assert s[|enc| + 1..] == id && s[|query| + 1..] == rest;
  }

  /** Distinct (field, encoding, id) triples have distinct keys. */
  lemma KeyInjective(f: Bytes, enc: Bytes, id: Bytes, f': Bytes, enc': Bytes, id': Bytes)
    requires NoNul(f) && NoNul(f') && CleanCode(enc) && CleanCode(enc') && NoNul(id) && NoNul(id')
    requires Key(f, enc, id) == Key(f', enc', id')
    ensures f == f' && enc == enc' && id == id'
  {
    SplitField(f, enc + ([SEP] + id), f', enc' + ([SEP] + id'));
    assert enc' + ([SEP] + id') == enc' + [SEP] + id';
    SplitCode(enc, id, enc', id');
  }

  // ---- the table ------------------------------------------------------------------------

  ghost predicate Ascending(table: seq<Bytes>) {
    forall i, j :: 0 <= i < j < |table| ==> LexLt(table[i], table[j])
  }

  predicate RowOf(lx: Lexer, docs: Docs, k: Bytes, f: Bytes, id: Bytes) {
    id in docs && f in docs[id] && k == Key(f, Encoded(lx, docs[id][f]), id)
  }

  ghost predicate IsRow(lx: Lexer, fields: set<Bytes>, docs: Docs, k: Bytes) {
    exists f, id :: f in fields && RowOf(lx, docs, k, f, id)
  }

  /** The sorted payload-index rows of the documents' indexed fields. */
  ghost predicate TableOk(lx: Lexer, fields: set<Bytes>, docs: Docs, table: seq<Bytes>) {
    && Ascending(table)
    && (forall f :: f in fields ==> NoNul(f))
    && Clean(lx, docs)
    && forall k :: k in table <==> IsRow(lx, fields, docs, k)
  }

  /** The rows under a field's prefix are that field's. */
  lemma RowUnder(lx: Lexer, fields: set<Bytes>, docs: Docs, table: seq<Bytes>, field: Bytes, k: Bytes) returns (id: Bytes)
    requires TableOk(lx, fields, docs, table) && field in fields && k in table && FieldPrefix(field) <= k
    ensures RowOf(lx, docs, k, field, id)
  {
    assert IsRow(lx, fields, docs, k);
    var f, i :| f in fields && RowOf(lx, docs, k, f, i);
    var enc := Encoded(lx, docs[i][f]);
    assert k == FieldPrefix(field) + k[|FieldPrefix(field)|..];
    SplitField(f, enc + ([SEP] + i), field, k[|FieldPrefix(field)|..]);
    id := i;
  }
}
