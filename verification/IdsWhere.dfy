/**
 * `ids_where`: index scans for each condition, set algebra over them, and a sorted result.
 */
module IdsWhere {
  import opened Wrappers
  import opened ByteStrings
  import opened Sortable
  import opened Json
  import opened PayloadKeys
  import opened FilterScan
  import opened Filters
  import opened Equality
  import Geo

  // ---- rows and documents -------------------------------------------------------------

  /** The rest of a row after its last separator. */
  function AfterLastSep(k: Bytes): Bytes {
    if k == [] || k[|k| - 1] == SEP then [] else AfterLastSep(k[..|k| - 1]) + [k[|k| - 1]]
  }

  lemma {:induction false} LastSep(p: Bytes, id: Bytes)
    requires NoNul(id)
    ensures AfterLastSep(p + [SEP] + id) == id
    decreases |id|
  {
    if id == [] {
      assert p + [SEP] + id == p + [SEP];
    } else {
      var n := |id| - 1;
      assert (p + [SEP] + id)[..|p + [SEP] + id| - 1] == p + [SEP] + id[..n];
      LastSep(p, id[..n]);
      assert id == id[..n] + [id[n]];
    }
  }

  function AfterPrefix(prefix: Bytes, k: Bytes): Bytes {
    if |prefix| <= |k| then k[|prefix|..] else []
  }

  predicate Fixed(tag: Byte) { tag == NUM || tag == DT || tag == GEO }

  /** The eight-byte code of a number, an instant or a point. */
  function CodeOf(lx: Lexer, v: Value): nat { FromBe(Encoded(lx, v)[1..]) }

  lemma CodeValues(lx: Lexer, v: Value)
    ensures v.Number? <==> Encoded(lx, v)[0] == NUM
    ensures v.Number? ==> CodeOf(lx, v) == Mapped(AsF64(v.n))
    ensures v.Str? && lx.epoch(v.s).Some? <==> Encoded(lx, v)[0] == DT
    ensures v.Str? && lx.epoch(v.s).Some? ==> CodeOf(lx, v) == MappedInt(lx.epoch(v.s).value)
    ensures PointOf(v).Some? <==> Encoded(lx, v)[0] == GEO
    ensures PointOf(v).Some? ==> CodeOf(lx, v) == Geo.Morton(PointOf(v).value.0, PointOf(v).value.1)
  {
    hide Geo.Morton, Be, FromBe, AsF64, RealOf;
    EightBytes();
    if v.Number? {
      BeInverse(Mapped(AsF64(v.n)), 8);
      assert Encoded(lx, v)[1..] == EncodeF64(AsF64(v.n));
    } else if v.Str? {
      var t := lx.epoch(v.s);
      if t.Some? {
        BeInverse(MappedInt(t.value), 8);
        assert Encoded(lx, v)[1..] == EncodeI64(t.value);
      }
    } else if PointOf(v).Some? {
      var (lat, lon) := PointOf(v).value;
      var z := Geo.Morton(lat, lon);
      Geo.MortonBound(lat, lon);
      BeInverse(z, 8);
      assert Encoded(lx, v)[1..] == Be(z, 8);
    }
  }

  /** A row under a field's tag is some document's, with its code where the scan reads it. */
  lemma TagRow(lx: Lexer, fields: set<Bytes>, docs: Docs, table: seq<Bytes>, field: Bytes, tag: Byte, k: Bytes)
    returns (id: Bytes)
    requires TableOk(lx, fields, docs, table) && field in fields && Fixed(tag)
    requires k in table && TagPrefix(field, tag) <= k
    ensures RowOf(lx, docs, k, field, id) && Encoded(lx, docs[id][field])[0] == tag
    ensures IdIs(TagPrefix(field, tag), k, id) && CodeAt(TagPrefix(field, tag), k) == CodeOf(lx, docs[id][field])
  {
    var p := FieldPrefix(field);
    assert p <= k;
    id := RowUnder(lx, fields, docs, table, field, k);
    RowLayout(lx, docs, field, tag, k, id);
  }

  lemma RowLayout(lx: Lexer, docs: Docs, field: Bytes, tag: Byte, k: Bytes, id: Bytes)
    requires RowOf(lx, docs, k, field, id) && Fixed(tag)
    ensures TagPrefix(field, tag) <= k <==> Encoded(lx, docs[id][field])[0] == tag
    ensures TagPrefix(field, tag) <= k ==>
              IdIs(TagPrefix(field, tag), k, id) && CodeAt(TagPrefix(field, tag), k) == CodeOf(lx, docs[id][field])
  {
    hide Encoded;
    var enc := Encoded(lx, docs[id][field]);
    var p, q := FieldPrefix(field), TagPrefix(field, tag);
    assert k == p + (enc + ([SEP] + id));
    assert k[..|q|] == p + [enc[0]];
    assert k[|p|] == enc[0] && q[|p|] == tag;
    assert q <= k <==> enc[0] == tag;
    if enc[0] == tag {
      assert k[|q|..|q| + 8] == enc[1..];
      assert k[|q| + 9..] == id;
    }
  }

  /** The documents a window takes, under one tag of a field. */
  predicate TagHit(lx: Lexer, docs: Docs, field: Bytes, tag: Byte, w: Window, id: Bytes) {
    && id in docs && field in docs[id] && Encoded(lx, docs[id][field])[0] == tag
    && var m := CodeOf(lx, docs[id][field]);
       w.lo <= m && !w.over(m) && !w.under(m) && w.accept(id)
  }

  /** Over the values actually stored, a code past the upper bound has none within it after it. */
  ghost predicate OverUpward(lx: Lexer, docs: Docs, field: Bytes, tag: Byte, w: Window) {
    forall id, id' ::
      (id in docs && id' in docs && field in docs[id] && field in docs[id']
       && Encoded(lx, docs[id][field])[0] == tag && Encoded(lx, docs[id'][field])[0] == tag
       && CodeOf(lx, docs[id][field]) <= CodeOf(lx, docs[id'][field])
       && w.over(CodeOf(lx, docs[id][field])))
      ==> w.over(CodeOf(lx, docs[id'][field]))
  }

  lemma OverStays(lx: Lexer, fields: set<Bytes>, docs: Docs, table: seq<Bytes>, field: Bytes, tag: Byte, w: Window)
    requires TableOk(lx, fields, docs, table) && field in fields && Fixed(tag)
    requires OverUpward(lx, docs, field, tag, w)
    ensures StaysOver(w, TagPrefix(field, tag), table)
  {
    hide Encoded, CodeOf, CodeAt, IsRow, TagPrefix;
    var q := TagPrefix(field, tag);
    forall i, j | 0 <= i <= j < |table| && Long(q, table[i]) && Long(q, table[j]) && w.over(CodeAt(q, table[i]))
      ensures w.over(CodeAt(q, table[j]))
    {
      var id := TagRow(lx, fields, docs, table, field, tag, table[i]);
      var id' := TagRow(lx, fields, docs, table, field, tag, table[j]);
      if i == j {
        LexRefl(table[i]);
      }
      CodesAscend(q, table[i], table[j]);
    }
  }

  /** One coded scan: exactly the documents of the field and tag inside the window. */
  method ScanTag(lx: Lexer, table: seq<Bytes>, field: Bytes, tag: Byte, w: Window,
                 ghost fields: set<Bytes>, ghost docs: Docs) returns (ids: set<Bytes>)
    requires TableOk(lx, fields, docs, table) && field in fields && Fixed(tag)
    requires w.lo < TWO64 && OverUpward(lx, docs, field, tag, w)
    ensures forall id :: id in ids <==> TagHit(lx, docs, field, tag, w, id)
  {
    hide Encoded, CodeOf, CodeAt, TagPrefix, Pow256;
    EightBytes();
    OverStays(lx, fields, docs, table, field, tag, w);
    var q := TagPrefix(field, tag);
    ids := ScanCodes(table, q, w);
    forall id ensures id in ids <==> TagHit(lx, docs, field, tag, w, id) {
      if id in ids {
        var k :| k in table && Wanted(w, q, k) && IdIs(q, k, id);
        var id' := TagRow(lx, fields, docs, table, field, tag, k);
      }
      if TagHit(lx, docs, field, tag, w, id) {
        var k := Key(field, Encoded(lx, docs[id][field]), id);
        assert RowOf(lx, docs, k, field, id);
        assert IsRow(lx, fields, docs, k);
        RowLayout(lx, docs, field, tag, k, id);
        assert Wanted(w, q, k);
      }
    }
  }

  // ---- the scans -------------------------------------------------------------------------

  /** `scan_value`: every document whose value has the given key. */
  method ScanValue(lx: Lexer, table: seq<Bytes>, field: Bytes, value: Value,
                   ghost fields: set<Bytes>, ghost docs: Docs) returns (ids: set<Bytes>)
    requires TableOk(lx, fields, docs, table) && field in fields
    ensures forall id :: id in ids <==>
              id in docs && field in docs[id] && Encoded(lx, docs[id][field]) == Encoded(lx, value)
  {
    var prefix := ValuePrefix(field, Encoded(lx, value));
    hide Encoded, LexLe, Clean, AfterPrefix, ValuePrefix, IsRow, RowOf;
    ids := ScanPrefix(table, prefix, k => AfterPrefix(prefix, k));
    forall id ensures id in ids <==>
              id in docs && field in docs[id] && Encoded(lx, docs[id][field]) == Encoded(lx, value)
    {
      if id in ids {
        var k :| k in table && prefix <= k && AfterPrefix(prefix, k) == id;
        ValueRow(lx, fields, docs, table, field, value, k, id);
      }
      if id in docs && field in docs[id] && Encoded(lx, docs[id][field]) == Encoded(lx, value) {
        var k := RowFor(lx, fields, docs, table, field, value, id);
      }
    }
  }

  lemma RowFor(lx: Lexer, fields: set<Bytes>, docs: Docs, table: seq<Bytes>, field: Bytes, value: Value, id: Bytes)
    returns (k: Bytes)
    requires TableOk(lx, fields, docs, table) && field in fields
    requires id in docs && field in docs[id] && Encoded(lx, docs[id][field]) == Encoded(lx, value)
    ensures var prefix := ValuePrefix(field, Encoded(lx, value)); k in table && prefix <= k && AfterPrefix(prefix, k) == id
  {
    hide Encoded, LexLe, Clean, Ascending;
    k := Key(field, Encoded(lx, value), id);
    assert RowOf(lx, docs, k, field, id);
    assert IsRow(lx, fields, docs, k);
    assert k == ValuePrefix(field, Encoded(lx, value)) + id;
  }

  lemma ValueRow(lx: Lexer, fields: set<Bytes>, docs: Docs, table: seq<Bytes>, field: Bytes, value: Value, k: Bytes, id: Bytes)
    requires TableOk(lx, fields, docs, table) && field in fields
    requires var prefix := ValuePrefix(field, Encoded(lx, value)); k in table && prefix <= k && AfterPrefix(prefix, k) == id
    ensures id in docs && field in docs[id] && Encoded(lx, docs[id][field]) == Encoded(lx, value)
  {
    hide Encoded, IsRow;
    var query := Encoded(lx, value);
    var prefix := ValuePrefix(field, query);
    assert k == prefix + id;
    assert k == FieldPrefix(field) + (query + [SEP] + id);
    var id' := RowUnder(lx, fields, docs, table, field, k);
    var enc := Encoded(lx, docs[id'][field]);
    CleanEncoded(lx, docs[id'][field]);
    assert k[|FieldPrefix(field)|..] == enc + ([SEP] + id') && k[|FieldPrefix(field)|..] == query + [SEP] + id;
    SplitCode(enc, id', query, id);
  }

  /** `scan_field`: every document with the field. */
  method ScanField(lx: Lexer, table: seq<Bytes>, field: Bytes, ghost fields: set<Bytes>, ghost docs: Docs)
    returns (ids: set<Bytes>)
    requires TableOk(lx, fields, docs, table) && field in fields
    ensures forall id :: id in ids <==> id in docs && field in docs[id]
  {
    hide Encoded, AfterLastSep;
    var prefix := FieldPrefix(field);
    ids := ScanPrefix(table, prefix, AfterLastSep);
    forall id ensures id in ids <==> id in docs && field in docs[id] {
      if id in ids {
        var k :| k in table && prefix <= k && AfterLastSep(k) == id;
        var id' := RowUnder(lx, fields, docs, table, field, k);
        RowId(lx, docs, k, field, id');
      }
      if id in docs && field in docs[id] {
        var k := Key(field, Encoded(lx, docs[id][field]), id);
        assert RowOf(lx, docs, k, field, id);
        assert IsRow(lx, fields, docs, k);
        RowId(lx, docs, k, field, id);
      }
    }
  }

  lemma RowId(lx: Lexer, docs: Docs, k: Bytes, field: Bytes, id: Bytes)
    requires Clean(lx, docs) && RowOf(lx, docs, k, field, id)
    ensures AfterLastSep(k) == id
  {
    hide Encoded;
    var enc := Encoded(lx, docs[id][field]);
    LastSep(FieldPrefix(field) + enc, id);
    assert k == FieldPrefix(field) + enc + [SEP] + id;
  }

  /** `scan_range`. */
  method ScanRange(env: Env, table: seq<Bytes>, c: Condition, ghost fields: set<Bytes>, ghost docs: Docs)
    returns (ids: set<Bytes>)
    requires TableOk(env.lx, fields, docs, table) && c.Range? && c.key in fields
    ensures forall id :: id in ids <==> id in docs && Hits(env, c, docs[id])
  {
    hide Encoded, CodeOf, Val, Mapped, Unmapped;
    var w := Window(Mapped(LowerF64(c)), (m: nat) => m < TWO64 && OverF64(c, Unmapped(m)),
                    (m: nat) => m < TWO64 && UnderF64(c, Unmapped(m)), id => true);
    forall id, id' | id in docs && id' in docs && c.key in docs[id] && c.key in docs[id']
      && Encoded(env.lx, docs[id][c.key])[0] == NUM && Encoded(env.lx, docs[id'][c.key])[0] == NUM
      && CodeOf(env.lx, docs[id][c.key]) <= CodeOf(env.lx, docs[id'][c.key])
      && w.over(CodeOf(env.lx, docs[id][c.key]))
      ensures w.over(CodeOf(env.lx, docs[id'][c.key]))
    {
      var v, v' := docs[id][c.key], docs[id'][c.key];
      CodeValues(env.lx, v);
      CodeValues(env.lx, v');
      UnmappedMapped(AsF64(v.n));
      UnmappedMapped(AsF64(v'.n));
      MappedOrder(AsF64(v.n), AsF64(v'.n));
    }
    ids := ScanTag(env.lx, table, c.key, NUM, w, fields, docs);
    forall id ensures id in ids <==> id in docs && Hits(env, c, docs[id]) {
      if id in docs && c.key in docs[id] {
        var v := docs[id][c.key];
        CodeValues(env.lx, v);
        if v.Number? {
          UnmappedMapped(AsF64(v.n));
        }
      }
    }
  }

  lemma UnmappedMapped(x: F64)
    ensures Unmapped(Mapped(x)) == x
  {
  }

  /** `scan_dt_range`. */
  method ScanDates(env: Env, table: seq<Bytes>, c: Condition, ghost fields: set<Bytes>, ghost docs: Docs)
    returns (ids: set<Bytes>)
    requires TableOk(env.lx, fields, docs, table) && c.DateRange? && c.key in fields
    ensures forall id :: id in ids <==> id in docs && Hits(env, c, docs[id])
  {
    hide Encoded, CodeOf, TableOk;
    var gt, gte, lt, lte := Instant(env, c.dgt), Instant(env, c.dgte), Instant(env, c.dlt), Instant(env, c.dlte);
    var w := Window(MappedInt(LowerI64(gt, gte)),
                    (m: nat) => m < TWO64 && ((lt.Some? && UnmappedInt(m) >= lt.value)
                                               || (lte.Some? && UnmappedInt(m) > lte.value)),
                    (m: nat) => m < TWO64 && ((gt.Some? && UnmappedInt(m) <= gt.value)
                                               || (gte.Some? && UnmappedInt(m) < gte.value)),
                    id => true);
    forall id, id' | id in docs && id' in docs && c.key in docs[id] && c.key in docs[id']
      && Encoded(env.lx, docs[id][c.key])[0] == DT && Encoded(env.lx, docs[id'][c.key])[0] == DT
      && CodeOf(env.lx, docs[id][c.key]) <= CodeOf(env.lx, docs[id'][c.key])
      && w.over(CodeOf(env.lx, docs[id][c.key]))
      ensures w.over(CodeOf(env.lx, docs[id'][c.key]))
    {
      CodeValues(env.lx, docs[id'][c.key]);
    }
    ids := ScanTag(env.lx, table, c.key, DT, w, fields, docs);
    forall id ensures id in ids <==> id in docs && Hits(env, c, docs[id]) {
      if id in docs && c.key in docs[id] {
        CodeValues(env.lx, docs[id][c.key]);
      }
    }
  }

  /** `scan_geo`: one Z-order range, each candidate re-checked against its document. */
  method ScanGeo(env: Env, table: seq<Bytes>, docs: Docs, c: Condition, ghost fields: set<Bytes>) returns (ids: set<Bytes>)
    requires TableOk(env.lx, fields, docs, table) && (c.GeoBox? || c.GeoRadius?) && c.key in fields
    ensures forall id :: id in ids <==> id in docs && Hits(env, c, docs[id])
  {
    hide Encoded, CodeOf, TableOk, Geo.Morton, Geo.InBox;
    var ((latMin, lonMin), (latMax, lonMax)) := Corners(env, c);
    Geo.MortonBound(latMin, lonMin);
    var hi := Geo.Morton(latMax, lonMax);
    var w := Window(Geo.Morton(latMin, lonMin), (m: nat) => m > hi, (m: nat) => false,
                    id => id in docs && Matches(env, c, docs[id]));
    ids := ScanTag(env.lx, table, c.key, GEO, w, fields, docs);
    forall id ensures id in ids <==> id in docs && Hits(env, c, docs[id]) {
      if id in docs && c.key in docs[id] {
        var v := docs[id][c.key];
        CodeValues(env.lx, v);
        if c.GeoBox? && ValueMatches(env, c, v) {
          BoxHit(env, c, v);
        }
      }
    }
  }

  /** `ids_for_condition`. */
  method IdsFor(env: Env, table: seq<Bytes>, docs: Docs, c: Condition, ghost fields: set<Bytes>) returns (ids: set<Bytes>)
    requires TableOk(env.lx, fields, docs, table) && c.key in fields
    ensures forall id :: id in ids <==> id in docs && Hits(env, c, docs[id])
  {
    hide TableOk, Encoded;
    match c {
      case Eq(key, value) => ids := ScanValue(env.lx, table, key, value, fields, docs);
      case Any(key, values) =>
        ids := {};
        for i := 0 to |values|
          invariant forall id :: id in ids <==> id in docs && key in docs[id] && AnyOf(env, values[..i], docs[id][key])
        {
          var more := ScanValue(env.lx, table, key, values[i], fields, docs);
          forall v: Value ensures AnyOf(env, values[..i + 1], v)
                                  <==> AnyOf(env, values[..i], v) || Encoded(env.lx, v) == Encoded(env.lx, values[i])
          {
            AnySnoc(env, values, i, v);
          }
          ids := ids + more;
        }
        assert values[..|values|] == values;
      case Range(_, _, _, _, _) => ids := ScanRange(env, table, c, fields, docs);
      case DateRange(_, _, _, _, _) => ids := ScanDates(env, table, c, fields, docs);
      case GeoRadius(_, _, _, _) => ids := ScanGeo(env, table, docs, c, fields);
      case GeoBox(_, _, _, _, _) => ids := ScanGeo(env, table, docs, c, fields);
      case Exists(key) => ids := ScanField(env.lx, table, key, fields, docs);
    }
  }

  predicate AnyOf(env: Env, values: seq<Value>, v: Value) {
    exists i :: 0 <= i < |values| && Encoded(env.lx, v) == Encoded(env.lx, values[i])
  }

  lemma AnySnoc(env: Env, values: seq<Value>, i: nat, v: Value)
    requires i < |values|
    ensures AnyOf(env, values[..i + 1], v) <==> AnyOf(env, values[..i], v) || Encoded(env.lx, v) == Encoded(env.lx, values[i])
  {
    hide Encoded;
    assert values[..i + 1] == values[..i] + [values[i]];
    if AnyOf(env, values[..i], v) {
      var j :| 0 <= j < i && Encoded(env.lx, v) == Encoded(env.lx, values[..i][j]);
      assert values[..i + 1][j] == values[j];
    }
    if Encoded(env.lx, v) == Encoded(env.lx, values[i]) {
      assert values[..i + 1][i] == values[i];
    }
  }

  // ---- set algebra -------------------------------------------------------------------------

  function Clauses(f: Filter): seq<Condition> { f.must + f.should + f.mustNot }

  /** Whether the filter can be answered from indexes alone. */
  predicate Answerable(f: Filter, fields: set<Bytes>) {
    && (f.must != [] || f.should != [])
    && (forall c :: c in Clauses(f) ==> c.key in fields)
  }

  ghost predicate AllHit(env: Env, cs: seq<Condition>, m: Meta) {
    forall c :: c in cs ==> Hits(env, c, m)
  }

  ghost predicate SomeHit(env: Env, cs: seq<Condition>, m: Meta) {
    exists c :: c in cs && Hits(env, c, m)
  }

  lemma HitSnoc(env: Env, cs: seq<Condition>, i: nat, m: Meta)
    requires i < |cs|
    ensures AllHit(env, cs[..i + 1], m) <==> AllHit(env, cs[..i], m) && Hits(env, cs[i], m)
    ensures SomeHit(env, cs[..i + 1], m) <==> SomeHit(env, cs[..i], m) || Hits(env, cs[i], m)
  {
    hide Hits;
    assert cs[..i + 1] == cs[..i] + [cs[i]];
    assert cs[i] in cs[..i + 1];
  }

  /** The documents every `must` condition hits; stops as soon as there is none. */
  method MustIds(env: Env, table: seq<Bytes>, docs: Docs, must: seq<Condition>, ghost fields: set<Bytes>)
    returns (ids: set<Bytes>)
    requires TableOk(env.lx, fields, docs, table) && must != []
    requires forall c :: c in must ==> c.key in fields
    ensures forall id :: id in ids <==> id in docs && AllHit(env, must, docs[id])
  {
    hide TableOk, Hits;
    ids := IdsFor(env, table, docs, must[0], fields);
    var i := 1;
    assert must[..1] == [must[0]];
    while i < |must|
      invariant 1 <= i <= |must|
      invariant forall id :: id in ids <==> id in docs && AllHit(env, must[..i], docs[id])
    {
      assert forall id :: id in docs && AllHit(env, must, docs[id]) ==> AllHit(env, must[..i], docs[id]);
      if ids == {} {
        return;
      }
      var more := IdsFor(env, table, docs, must[i], fields);
      forall id | id in docs ensures AllHit(env, must[..i + 1], docs[id])
                                     <==> AllHit(env, must[..i], docs[id]) && Hits(env, must[i], docs[id])
      {
        HitSnoc(env, must, i, docs[id]);
      }
      ids := ids * more;
      i := i + 1;
    }
    assert must[..|must|] == must;
  }

  /** The documents some condition hits. */
  method SomeIds(env: Env, table: seq<Bytes>, docs: Docs, cs: seq<Condition>, ghost fields: set<Bytes>)
    returns (ids: set<Bytes>)
    requires TableOk(env.lx, fields, docs, table)
    requires forall c :: c in cs ==> c.key in fields
    ensures forall id :: id in ids <==> id in docs && SomeHit(env, cs, docs[id])
  {
    hide TableOk, Hits;
    ids := {};
    for i := 0 to |cs|
      invariant forall id :: id in ids <==> id in docs && SomeHit(env, cs[..i], docs[id])
    {
      var more := IdsFor(env, table, docs, cs[i], fields);
      forall id | id in docs ensures SomeHit(env, cs[..i + 1], docs[id])
                                     <==> SomeHit(env, cs[..i], docs[id]) || Hits(env, cs[i], docs[id])
      {
        HitSnoc(env, cs, i, docs[id]);
      }
      ids := ids + more;
    }
    assert cs[..|cs|] == cs;
  }

  /** `ids_where`: `None` when some field is not indexed or there is nothing to intersect; otherwise the
      sorted ids of exactly the documents the filter's scans hit. Outside radius conditions, bounds that
      are not numbers and a stored -0.0 under a lower bound of +0.0, those are exactly the documents whose
      metadata satisfies the filter with equality by index key; and when the values compared for equality
      are sharp, exactly those that the source's direct evaluation accepts. */
  method IdsWhere(env: Env, table: seq<Bytes>, fields: set<Bytes>, docs: Docs, f: Filter) returns (res: Option<seq<Bytes>>)
    requires TableOk(env.lx, fields, docs, table)
    ensures res.Some? <==> Answerable(f, fields)
    ensures res.Some? ==> Ascending(res.value)
                          && forall id :: id in res.value <==> id in docs && FilterHits(env, f, docs[id])
    ensures res.Some? && ExactFilter(f, docs) ==>
              forall id :: id in res.value <==> id in docs && FilterMatches(env, f, docs[id])
    ensures res.Some? && ExactFilter(f, docs) && Genuine(env.lx) && SharpFilter(f) ==>
              forall id :: id in res.value <==> id in docs && FilterJson(env, f, docs[id])
  {
    hide Hits, SharpFilter, Genuine, FilterJson;
    if f.must == [] && f.should == [] {
      return None;
    }
    if exists c :: c in Clauses(f) && c.key !in fields {
      return None;
    }
    var ids: set<Bytes>;
    if f.must != [] {
      ids := MustIds(env, table, docs, f.must, fields);
      if f.should != [] {
        var some := SomeIds(env, table, docs, f.should, fields);
        ids := ids * some;
      }
    } else {
      ids := SomeIds(env, table, docs, f.should, fields);
    }
    var excluded := SomeIds(env, table, docs, f.mustNot, fields);
    ids := ids - excluded;
    var out := InOrder(ids);
    res := Some(out);
    if ExactFilter(f, docs) {
      hide FilterMatches, ExactFilter;
      forall id | id in docs ensures FilterHits(env, f, docs[id]) == FilterMatches(env, f, docs[id]) {
        FilterHitsIsMatches(env, f, docs, id);
      }
      assert forall id :: id in out <==> id in docs && FilterHits(env, f, docs[id]);
      if Genuine(env.lx) && SharpFilter(f) {
        forall id | id in docs ensures FilterJson(env, f, docs[id]) == FilterMatches(env, f, docs[id]) {
          SharpFilterMatches(env, f, docs[id]);
        }
      }
    }
  }
}
