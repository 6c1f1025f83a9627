/**
 * Relations: every edge is two rows, one anchored on each end.
 */
module Relations {
  import opened Wrappers
  import opened ByteStrings
  import opened PayloadKeys
  import opened FilterScan

  datatype Edge = Edge(from: Bytes, verb: Bytes, to: Bytes)

  const OUT: Byte := 111
  const IN: Byte := 105

  /** `dir anchor NUL verb NUL other` */
  function RelKey(dir: Byte, anchor: Bytes, verb: Bytes, other: Bytes): Bytes {
    RelPrefix(dir, anchor) + (FieldPrefix(verb) + other)
  }

  function RelPrefix(dir: Byte, anchor: Bytes): Bytes { [dir] + FieldPrefix(anchor) }

  function OutKey(e: Edge): Bytes { RelKey(OUT, e.from, e.verb, e.to) }

  function InKey(e: Edge): Bytes { RelKey(IN, e.to, e.verb, e.from) }

  predicate CleanEdge(e: Edge) { NoNul(e.from) && NoNul(e.verb) && NoNul(e.to) }

  predicate KeyOfEdge(e: Edge, k: Bytes) { k == OutKey(e) || k == InKey(e) }

  /** The rows are exactly the two mirrored copies of each edge. */
  ghost predicate Mirrored(rows: set<Bytes>, edges: set<Edge>) {
    && (forall e :: e in edges ==> CleanEdge(e))
    && (forall k :: k in rows <==> exists e :: e in edges && KeyOfEdge(e, k))
  }

  lemma RelKeyInjective(dir: Byte, a: Bytes, v: Bytes, o: Bytes, dir': Byte, a': Bytes, v': Bytes, o': Bytes)
    requires NoNul(a) && NoNul(v) && NoNul(a') && NoNul(v')
    requires RelKey(dir, a, v, o) == RelKey(dir', a', v', o')
    ensures dir == dir' && a == a' && v == v' && o == o'
  {
    var x, y := FieldPrefix(a) + (FieldPrefix(v) + o), FieldPrefix(a') + (FieldPrefix(v') + o');
    var k := RelKey(dir, a, v, o);
    assert k == [dir] + x && k == [dir'] + y;
    assert k[0] == dir && k[0] == dir' && k[1..] == x && k[1..] == y;
    SplitField(a, FieldPrefix(v) + o, a', FieldPrefix(v') + o');
    SplitField(v, o, v', o');
  }

  /** Two edges sharing a row are the same edge, on the same side. */
  lemma EdgeKeys(e: Edge, f: Edge)
    requires CleanEdge(e) && CleanEdge(f)
    ensures OutKey(e) != InKey(f)
    ensures OutKey(e) == OutKey(f) || InKey(e) == InKey(f) ==> e == f
  {
    assert OutKey(e)[0] == OUT && InKey(f)[0] == IN;
    if OutKey(e) == OutKey(f) {
      RelKeyInjective(OUT, e.from, e.verb, e.to, OUT, f.from, f.verb, f.to);
    }
    if InKey(e) == InKey(f) {
      RelKeyInjective(IN, e.to, e.verb, e.from, IN, f.to, f.verb, f.from);
    }
  }

  // ---- relate and unrelate -------------------------------------------------------------

  /** The relations column family. */
  class RelTable {
    var rows: set<Bytes>
    ghost var edges: set<Edge>

    ghost predicate Valid()
      reads this
    {
      Mirrored(rows, edges)
    }

    constructor ()
      ensures Valid() && edges == {}
    {
      rows, edges := {}, {};
    }

    /** Two blind puts. */
    method Relate(e: Edge)
      requires Valid() && CleanEdge(e)
      modifies this
      ensures Valid() && edges == old(edges) + {e}
    {
      rows := rows + {OutKey(e), InKey(e)};
      edges := edges + {e};
      forall k ensures k in rows <==> exists f :: f in edges && KeyOfEdge(f, k) {
        if k == OutKey(e) || k == InKey(e) {
          assert KeyOfEdge(e, k);
        }
      }
    }

    /** Two blind deletes. */
    method Unrelate(e: Edge)
      requires Valid() && CleanEdge(e)
      modifies this
      ensures Valid() && edges == old(edges) - {e}
    {
      ghost var before := edges;
      rows := rows - {OutKey(e), InKey(e)};
      edges := edges - {e};
      forall k ensures k in rows <==> exists f :: f in edges && KeyOfEdge(f, k) {
        if k in rows {
          var f :| f in before && KeyOfEdge(f, k);
        }
        if f :| f in edges && KeyOfEdge(f, k) {
          EdgeKeys(e, f);
          EdgeKeys(f, e);
        }
      }
    }

    /** `scan_rels`: the edges anchored on one side of an id, in key order. */
    method ScanRels(dir: Byte, anchor: Bytes) returns (out: seq<Edge>)
      requires Valid() && NoNul(anchor) && (dir == OUT || dir == IN)
      ensures forall e :: e in out <==> e in edges && AnchorOf(dir, e) == anchor
    {
      hide RelKey, RelPrefix, Ascending, LexLe;
      var table := InOrder(rows);
      var prefix := RelPrefix(dir, anchor);
      var i := Seek(table, prefix);
      NoneBefore(table, prefix, i);
      forall e | e in edges && AnchorOf(dir, e) == anchor
        ensures prefix <= SideKey(dir, e) && SideKey(dir, e) in table && SideKey(dir, e) !in table[..i]
      {
        SideUnder(rows, edges, dir, e);
      }
      out := [];
      while i < |table| && prefix <= table[i]
        invariant i <= |table|
        invariant forall j :: i <= j < |table| ==> LexLe(prefix, table[j])
        invariant forall e :: e in out <==> e in edges && AnchorOf(dir, e) == anchor && SideKey(dir, e) in table[..i]
      {
        var k := table[i];
        assert table[..i + 1] == table[..i] + [k];
        RowOwner(rows, edges, k);
        var e := Decode(dir, anchor, k, edges);
        forall f | f in edges && SideKey(dir, f) == k ensures f == e {
          EdgeKeys(e, f);
        }
        out := out + [e];
        i := i + 1;
      }
      if i < |table| {
        NoneAfter(table, prefix, i);
      }
    }
  }

  function AnchorOf(dir: Byte, e: Edge): Bytes { if dir == OUT then e.from else e.to }

  function OtherOf(dir: Byte, e: Edge): Bytes { if dir == OUT then e.to else e.from }

  function SideKey(dir: Byte, e: Edge): Bytes { if dir == OUT then OutKey(e) else InKey(e) }

  lemma RowOwner(rows: set<Bytes>, edges: set<Edge>, k: Bytes)
    requires Mirrored(rows, edges) && k in rows
    ensures exists f :: f in edges && CleanEdge(f) && KeyOfEdge(f, k)
  {
    var f :| f in edges && KeyOfEdge(f, k);
    assert CleanEdge(f);
  }

  lemma SideUnder(rows: set<Bytes>, edges: set<Edge>, dir: Byte, e: Edge)
    requires Mirrored(rows, edges) && e in edges && (dir == OUT || dir == IN)
    ensures SideKey(dir, e) in rows && RelPrefix(dir, AnchorOf(dir, e)) <= SideKey(dir, e)
  {
    assert KeyOfEdge(e, SideKey(dir, e));
  }

  /** Split at the first separator. */
  method SplitCompound(k: Bytes) returns (res: Option<(Bytes, Bytes)>)
    ensures match res
            case Some((a, b)) => NoNul(a) && k == FieldPrefix(a) + b
            case None => NoNul(k)
  {
    var i := 0;
    while i < |k| && k[i] != SEP
      invariant i <= |k| && NoNul(k[..i])
    {
      assert k[..i + 1] == k[..i] + [k[i]];
      i := i + 1;
    }
    if i == |k| {
      assert k[..i] == k;
      return None;
    }
    assert k == FieldPrefix(k[..i]) + k[i + 1..];
    res := Some((k[..i], k[i + 1..]));
  }

  /** `rel_suffix`: verb and other end of a row under an anchor's prefix. */
  method Decode(dir: Byte, anchor: Bytes, k: Bytes, ghost edges: set<Edge>) returns (e: Edge)
    requires NoNul(anchor) && (dir == OUT || dir == IN) && RelPrefix(dir, anchor) <= k
    requires exists f :: f in edges && CleanEdge(f) && KeyOfEdge(f, k)
    ensures e in edges && CleanEdge(e) && k == SideKey(dir, e) && AnchorOf(dir, e) == anchor
  {
    var rest := k[|RelPrefix(dir, anchor)|..];
    assert k == RelPrefix(dir, anchor) + rest;
    ghost var f := RowParts(dir, anchor, k, rest, edges);
    var split := SplitCompound(rest);
    assert rest[|f.verb|] == SEP;
    var parts := split.value;
    SplitField(parts.0, parts.1, f.verb, OtherOf(dir, f));
    e := if dir == OUT then Edge(anchor, parts.0, parts.1) else Edge(parts.1, parts.0, anchor);
  }

  /** The edge a row under an anchor's prefix belongs to, on the anchor's side. */
  lemma RowParts(dir: Byte, anchor: Bytes, k: Bytes, rest: Bytes, edges: set<Edge>) returns (f: Edge)
    requires NoNul(anchor) && (dir == OUT || dir == IN) && k == RelPrefix(dir, anchor) + rest
    requires exists f :: f in edges && CleanEdge(f) && KeyOfEdge(f, k)
    ensures f in edges && CleanEdge(f) && k == SideKey(dir, f) && AnchorOf(dir, f) == anchor
    ensures rest == FieldPrefix(f.verb) + OtherOf(dir, f)
  {
    f :| f in edges && CleanEdge(f) && KeyOfEdge(f, k);
    var d := if k == OutKey(f) then OUT else IN;
    assert k == SideKey(d, f) && CleanEdge(f);
    hide FieldPrefix, KeyOfEdge, NoNul, OtherOf, OutKey, RelPrefix, SideKey;
    var tail := FieldPrefix(f.verb) + OtherOf(d, f);
    SideBytes(d, f);
    PrefixBytes(dir, anchor, rest);
    assert k[0] == d && k[0] == dir;
    assert k[1..] == FieldPrefix(anchor) + rest && k[1..] == FieldPrefix(AnchorOf(d, f)) + tail;
    SplitField(anchor, rest, AnchorOf(d, f), tail);
  }

  lemma SideBytes(d: Byte, f: Edge)
    requires d == OUT || d == IN
    ensures SideKey(d, f) == [d] + (FieldPrefix(AnchorOf(d, f)) + (FieldPrefix(f.verb) + OtherOf(d, f)))
  {
    hide FieldPrefix;
    var a, v := FieldPrefix(AnchorOf(d, f)), FieldPrefix(f.verb) + OtherOf(d, f);
    assert ([d] + a) + v == [d] + (a + v);
  }

  lemma PrefixBytes(dir: Byte, anchor: Bytes, rest: Bytes)
    ensures RelPrefix(dir, anchor) + rest == [dir] + (FieldPrefix(anchor) + rest)
  {
  }
}
