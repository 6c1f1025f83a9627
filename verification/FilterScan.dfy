/**
 * Ordered scans of the payload index: seek to a start key, walk forward, stop early. Each scan is
 * proved to return exactly the rows under its prefix that lie inside its window of codes.
 */
module FilterScan {
  import opened Wrappers
  import opened ByteStrings
  import opened PayloadKeys

  // ---- order facts -----------------------------------------------------------------

  lemma {:induction false} PrefixLe(p: Bytes, k: Bytes)
    requires p <= k
    ensures LexLe(p, k)
  {
    if p != [] {
      PrefixLe(p[1..], k[1..]);
    }
  }

  /** Keys between a prefix and a key under it are under it. */
  lemma {:induction false} PrefixConvex(p: Bytes, a: Bytes, k: Bytes)
    requires LexLe(p, a) && LexLe(a, k) && p <= k
    ensures p <= a
  {
    if p != [] {
      PrefixConvex(p[1..], a[1..], k[1..]);
      assert p == [p[0]] + p[1..] && a == [a[0]] + a[1..];
    }
  }

  /** The least member of a set. */
  method Least(ids: set<Bytes>) returns (least: Bytes)
    requires ids != {}
    ensures least in ids && forall id :: id in ids ==> LexLe(least, id)
  {
    least :| least in ids;
    var todo := ids - {least};
    LexRefl(least);
    while todo != {}
      invariant todo <= ids && least in ids
      invariant forall id :: id in ids - todo ==> LexLe(least, id)
      decreases |todo|
    {
      var id :| id in todo;
      LexTotal(least, id);
      if !LexLe(least, id) {
        forall x | x in ids - todo ensures LexLe(id, x) {
          LexTrans(id, least, x);
        }
        LexRefl(id);
        least := id;
      }
      todo := todo - {id};
    }
  }

  /** The members of a set, in byte order. */
  method InOrder(ids: set<Bytes>) returns (out: seq<Bytes>)
    ensures Ascending(out) && forall id :: id in out <==> id in ids
  {
    var todo := ids;
    out := [];
    while todo != {}
      invariant todo <= ids
      invariant forall id :: id in out <==> id in ids - todo
      invariant Ascending(out)
      invariant forall i, id :: 0 <= i < |out| && id in todo ==> LexLt(out[i], id)
      decreases |todo|
    {
      var id := Least(todo);
      out := out + [id];
      todo := todo - {id};
    }
  }

  /** `iter_from`: the first key at or after `start`. */
  method Seek(table: seq<Bytes>, start: Bytes) returns (i: nat)
    requires Ascending(table)
    ensures i <= |table|
    ensures forall j :: 0 <= j < i ==> !LexLe(start, table[j])
    ensures forall j :: i <= j < |table| ==> LexLe(start, table[j])
  {
    i := 0;
    while i < |table| && !LexLe(start, table[i])
      invariant i <= |table|
      invariant forall j :: 0 <= j < i ==> !LexLe(start, table[j])
    {
      i := i + 1;
    }
    forall j | i <= j < |table| ensures LexLe(start, table[j]) {
      if i < j {
        LexTrans(start, table[i], table[j]);
      }
    }
  }

  /** Rows before the seek point, and all rows once one past the prefix is met, are not under it. */
  lemma NoneBefore(table: seq<Bytes>, prefix: Bytes, i: nat)
    requires i <= |table| && forall j :: 0 <= j < i ==> !LexLe(prefix, table[j])
    ensures forall j :: 0 <= j < i ==> !(prefix <= table[j])
  {
    forall j | 0 <= j < i ensures !(prefix <= table[j]) {
      if prefix <= table[j] {
        PrefixLe(prefix, table[j]);
      }
    }
  }

  lemma NoneAfter(table: seq<Bytes>, prefix: Bytes, i: nat)
    requires Ascending(table) && i < |table|
    requires LexLe(prefix, table[i]) && !(prefix <= table[i])
    ensures forall j :: i <= j < |table| ==> !(prefix <= table[j])
  {
    forall j | i <= j < |table| ensures !(prefix <= table[j]) {
      if i < j && prefix <= table[j] {
        PrefixConvex(prefix, table[i], table[j]);
      }
    }
  }

  /** The ids of everything under a prefix, found by seeking to it and stopping at the first key
      outside. `idOf` reads a row's id. */
  method ScanPrefix(table: seq<Bytes>, prefix: Bytes, idOf: Bytes -> Bytes) returns (ids: set<Bytes>)
    requires Ascending(table)
    ensures forall id :: id in ids <==> exists k :: k in table && prefix <= k && idOf(k) == id
  {
    var i := Seek(table, prefix);
    NoneBefore(table, prefix, i);
    ids := {};
    ghost var rows: seq<Bytes> := [];
    while i < |table| && prefix <= table[i]
      invariant i <= |table|
      invariant forall j :: i <= j < |table| ==> LexLe(prefix, table[j])
      invariant forall k :: k in rows <==> k in table[..i] && prefix <= k
      invariant forall id :: id in ids <==> exists k :: k in rows && idOf(k) == id
    {
      assert table[..i + 1] == table[..i] + [table[i]];
      rows := rows + [table[i]];
      ids := ids + {idOf(table[i])};
      i := i + 1;
    }
    if i < |table| {
      NoneAfter(table, prefix, i);
    }
    assert forall k :: k in table && prefix <= k ==> k in table[..i];
  }

  // ---- coded rows -------------------------------------------------------------------------

  /** A row long enough to hold eight code bytes after the prefix. */
  predicate Long(prefix: Bytes, k: Bytes) {
    prefix <= k && |k| >= |prefix| + 8
  }

  function CodeAt(prefix: Bytes, k: Bytes): nat
    requires Long(prefix, k)
  {
    FromBe(k[|prefix|..|prefix| + 8])
  }

  /** `prefix code SEP id` */
  predicate CodeRow(prefix: Bytes, k: Bytes) {
    Long(prefix, k) && |k| > |prefix| + 8 && k[|prefix| + 8] == SEP
  }

  function IdAt(prefix: Bytes, k: Bytes): Bytes
    requires CodeRow(prefix, k)
  {
    k[|prefix| + 9..]
  }

  /** The bounds of a coded scan: where it starts, where it stops, and what it passes over. */
  datatype Window = Window(lo: nat, over: nat -> bool, under: nat -> bool, accept: Bytes -> bool)

  predicate Wanted(w: Window, prefix: Bytes, k: Bytes) {
    && CodeRow(prefix, k)
    && w.lo <= CodeAt(prefix, k) && !w.over(CodeAt(prefix, k)) && !w.under(CodeAt(prefix, k))
    && w.accept(IdAt(prefix, k))
  }

  /** Once a row is past the upper bound, so is every later one. */
  ghost predicate StaysOver(w: Window, prefix: Bytes, table: seq<Bytes>) {
    forall i, j :: 0 <= i <= j < |table| && Long(prefix, table[i]) && Long(prefix, table[j]) ==>
      w.over(CodeAt(prefix, table[i])) ==> w.over(CodeAt(prefix, table[j]))
  }

  /** Rows at or after `prefix lo` are those with a code of at least `lo`. */
  lemma StartCode(prefix: Bytes, lo: nat, k: Bytes)
    requires lo < Pow256(8) && Long(prefix, k)
    ensures LexLe(prefix + Be(lo, 8), k) <==> lo <= CodeAt(prefix, k)
  {
    var code, tail := k[|prefix|..|prefix| + 8], k[|prefix| + 8..];
    assert k == prefix + (code + tail);
    LexAppend(prefix, prefix, Be(lo, 8), code + tail);
    assert Be(lo, 8) + [] == Be(lo, 8);
    LexAppend(Be(lo, 8), code, [], tail);
    FromBeBound(code);
    BeOfFromBe(code);
    assert Be(FromBe(code), 8) == code;
    LexRefl(code);
    BeOrder(lo, FromBe(code), 8);
  }

  /** Rows under one prefix sort by code. */
  lemma CodesAscend(prefix: Bytes, k: Bytes, k': Bytes)
    requires Long(prefix, k) && Long(prefix, k') && LexLe(k, k')
    ensures CodeAt(prefix, k) <= CodeAt(prefix, k')
  {
    hide LexLe, Be, FromBe, Pow256;
    var code, tail := k[|prefix|..|prefix| + 8], k[|prefix| + 8..];
    FromBeBound(code);
    StartCode(prefix, CodeAt(prefix, k), k');
    assert k == (prefix + code) + tail;
    BeOfFromBe(code);
    assert Be(CodeAt(prefix, k), 8) == code;
    PrefixLe(prefix + code, k);
    LexTrans(prefix + code, k, k');
  }

  /** The shared shape of `scan_range`, `scan_dt_range` and `scan_geo`: seek to the lower bound, break
      at the upper, skip what an exclusive bound excludes, and take the id after the separator. */
  method ScanCodes(table: seq<Bytes>, prefix: Bytes, w: Window) returns (ids: set<Bytes>)
    requires Ascending(table) && w.lo < Pow256(8) && StaysOver(w, prefix, table)
    ensures forall id :: id in ids <==> exists k :: k in table && Wanted(w, prefix, k) && IdIs(prefix, k, id)
  {
    var start := prefix + Be(w.lo, 8);
    var i := Seek(table, start);
    ids := {};
    ghost var rows: seq<Bytes> := [];
    forall j | 0 <= j < i ensures !Wanted(w, prefix, table[j]) {
      if Long(prefix, table[j]) {
        StartCode(prefix, w.lo, table[j]);
      }
    }
    PrefixLe(prefix, start);
    while i < |table| && prefix <= table[i]
      invariant i <= |table|
      invariant forall j :: i <= j < |table| ==> LexLe(start, table[j])
      invariant forall k :: k in rows <==> k in table[..i] && Wanted(w, prefix, k)
      invariant forall id :: id in ids <==> exists k :: k in rows && IdIs(prefix, k, id)
    {
      var k := table[i];
      assert table[..i + 1] == table[..i] + [k];
      if Long(prefix, k) {
        StartCode(prefix, w.lo, k);
        if w.over(CodeAt(prefix, k)) {
          forall j | i <= j < |table| ensures !Wanted(w, prefix, table[j]) {
          }
          break;
        }
        if !w.under(CodeAt(prefix, k)) && CodeRow(prefix, k) && w.accept(IdAt(prefix, k)) {
          ghost var before := rows;
          rows := rows + [k];
          ids := ids + {IdAt(prefix, k)};
          assert forall x :: x in rows <==> x in before || x == k;
          assert IdIs(prefix, k, IdAt(prefix, k));
        }
      }
      i := i + 1;
    }
    forall j | i <= j < |table| ensures !Wanted(w, prefix, table[j]) {
      if !(prefix <= table[i]) {
        LexTrans(prefix, start, table[i]);
        NoneAfter(table, prefix, i);
      }
    }
    assert forall k :: k in table && Wanted(w, prefix, k) ==> k in table[..i];
  }

  predicate IdIs(prefix: Bytes, k: Bytes, id: Bytes) {
    CodeRow(prefix, k) && IdAt(prefix, k) == id
  }
}
