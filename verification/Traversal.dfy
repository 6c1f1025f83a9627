/**
 * Bounded breadth-first traversal over the mirrored edge rows.
 */
module Traversal {
  import opened ByteStrings
  import opened PayloadKeys
  import opened Relations

  // No duplicates, starts first, hop distance never decreasing, nothing beyond the depth, and
  // everything within it unless the limit was reached.

  datatype Spec = Spec(verbs: seq<Bytes>, outbound: bool, inbound: bool, depth: nat, limit: nat)

  predicate VerbOk(spec: Spec, v: Bytes) { spec.verbs == [] || v in spec.verbs }

  predicate Along(spec: Spec, e: Edge, a: Bytes, b: Bytes) {
    VerbOk(spec, e.verb) && ((spec.outbound && e.from == a && e.to == b) || (spec.inbound && e.to == a && e.from == b))
  }

  ghost predicate Adjacent(edges: set<Edge>, spec: Spec, a: Bytes, b: Bytes) {
    exists e :: e in edges && Along(spec, e, a, b)
  }

  /** Reachable from a start in at most `n` allowed hops. */
  ghost predicate Within(edges: set<Edge>, spec: Spec, start: seq<Bytes>, n: nat, x: Bytes)
    decreases n, 0
  {
    if n == 0 then x in start
    else Within(edges, spec, start, n - 1, x) || ReachedFrom(edges, spec, start, n - 1, x)
  }

  ghost predicate ReachedFrom(edges: set<Edge>, spec: Spec, start: seq<Bytes>, n: nat, x: Bytes)
    decreases n, 1
  {
    exists y :: Within(edges, spec, start, n, y) && Adjacent(edges, spec, y, x)
  }

  lemma {:induction false} WithinMono(edges: set<Edge>, spec: Spec, start: seq<Bytes>, m: nat, n: nat, x: Bytes)
    requires m <= n && Within(edges, spec, start, m, x)
    ensures Within(edges, spec, start, n, x)
    decreases n
  {
    if m < n {
      WithinMono(edges, spec, start, m, n - 1, x);
    }
  }

  /** `h` is the exact distance of `x`. */
  ghost predicate AtHop(edges: set<Edge>, spec: Spec, start: seq<Bytes>, h: nat, x: Bytes) {
    Within(edges, spec, start, h, x) && (h > 0 ==> !Within(edges, spec, start, h - 1, x))
  }

  lemma AtHopLeast(edges: set<Edge>, spec: Spec, start: seq<Bytes>, h: nat, n: nat, x: Bytes)
    requires AtHop(edges, spec, start, h, x) && Within(edges, spec, start, n, x)
    ensures h <= n
  {
    if n < h {
      WithinMono(edges, spec, start, n, h - 1, x);
    }
  }

  /** One hop further: within reach already, or over one edge of an allowed verb in an allowed direction. */
  lemma WithinStep(edges: set<Edge>, spec: Spec, start: seq<Bytes>, n: nat, x: Bytes)
    ensures Within(edges, spec, start, n + 1, x)
       <==> Within(edges, spec, start, n, x)
            || exists e :: e in edges && (spec.verbs == [] || e.verb in spec.verbs)
                 && ((spec.outbound && e.to == x && Within(edges, spec, start, n, e.from))
                     || (spec.inbound && e.from == x && Within(edges, spec, start, n, e.to)))
  {
    if ReachedFrom(edges, spec, start, n, x) {
      var y :| Within(edges, spec, start, n, y) && Adjacent(edges, spec, y, x);
      var e :| e in edges && Along(spec, e, y, x);
    }
    if e :| e in edges && (spec.verbs == [] || e.verb in spec.verbs)
            && ((spec.outbound && e.to == x && Within(edges, spec, start, n, e.from))
                || (spec.inbound && e.from == x && Within(edges, spec, start, n, e.to)))
    {
      var y := if spec.outbound && e.to == x && Within(edges, spec, start, n, e.from) then e.from else e.to;
      assert Along(spec, e, y, x);
      assert Adjacent(edges, spec, y, x);
    }
  }

  /** The walk so far: visited ids in order with their exact distances; those before `head` have been
      expanded. */
  ghost predicate Walk(edges: set<Edge>, spec: Spec, start: seq<Bytes>, order: seq<Bytes>, hops: seq<nat>) {
    && |hops| == |order|
    && (forall i, j :: 0 <= i < j < |order| ==> order[i] != order[j])
    && (forall i, j :: 0 <= i < j < |order| ==> hops[i] <= hops[j])
    && (forall i :: 0 <= i < |order| ==> AtHop(edges, spec, start, hops[i], order[i]) && (hops[i] == 0 || hops[i] <= spec.depth))
  }

  ghost predicate Started(start: seq<Bytes>, order: seq<Bytes>) {
    forall x :: x in start ==> x in order
  }

  /** Every expanded id within the depth has all its neighbours visited. */
  ghost predicate Expanded(edges: set<Edge>, spec: Spec, order: seq<Bytes>, hops: seq<nat>, head: nat)
    requires |hops| == |order|
  {
    forall i, b :: 0 <= i < head && i < |order| && hops[i] < spec.depth && Adjacent(edges, spec, order[i], b) ==> b in order
  }

  /** Once everything nearer than `m` hops is expanded, everything within `m` hops is visited. */
  lemma {:induction false} LevelsCovered(edges: set<Edge>, spec: Spec, start: seq<Bytes>, order: seq<Bytes>, hops: seq<nat>,
                                         head: nat, m: nat, x: Bytes)
    requires Walk(edges, spec, start, order, hops) && Started(start, order)
    requires head <= |order| && Expanded(edges, spec, order, hops, head)
    requires m <= spec.depth
    requires forall i :: 0 <= i < |order| && hops[i] < m ==> i < head
    requires Within(edges, spec, start, m, x)
    ensures x in order
    decreases m
  {
    if m == 0 {
    } else if Within(edges, spec, start, m - 1, x) {
      LevelsCovered(edges, spec, start, order, hops, head, m - 1, x);
    } else {
      var y :| Within(edges, spec, start, m - 1, y) && Adjacent(edges, spec, y, x);
      LevelsCovered(edges, spec, start, order, hops, head, m - 1, y);
      var i :| 0 <= i < |order| && order[i] == y;
      AtHopLeast(edges, spec, start, hops[i], m - 1, y);
    }
  }

  /** A neighbour first met from distance `h`, with everything within `h` visited, is at `h + 1`. */
  lemma NewAtNext(edges: set<Edge>, spec: Spec, start: seq<Bytes>, h: nat, a: Bytes, b: Bytes)
    requires AtHop(edges, spec, start, h, a) && Adjacent(edges, spec, a, b) && !Within(edges, spec, start, h, b)
    ensures AtHop(edges, spec, start, h + 1, b)
  {
    assert ReachedFrom(edges, spec, start, h, b);
  }

  /** Appending a new id one hop beyond the one being expanded keeps the walk. */
  lemma WalkAppend(edges: set<Edge>, spec: Spec, start: seq<Bytes>, order: seq<Bytes>, hops: seq<nat>, b: Bytes, h: nat)
    requires Walk(edges, spec, start, order, hops) && b !in order
    requires AtHop(edges, spec, start, h, b) && (h == 0 || h <= spec.depth)
    requires forall i :: 0 <= i < |hops| ==> hops[i] <= h
    ensures Walk(edges, spec, start, order + [b], hops + [h])
  {
    hide AtHop;
  }

  // ---- the walk -------------------------------------------------------------------------

  /** `e` leads from `id` to `b` in one direction, under an allowed verb. */
  predicate Leads(spec: Spec, dir: Byte, e: Edge, id: Bytes, b: Bytes) {
    VerbOk(spec, e.verb) && AnchorOf(dir, e) == id && OtherOf(dir, e) == b
  }

  method SideNeighbors(t: RelTable, spec: Spec, dir: Byte, id: Bytes) returns (out: seq<Bytes>)
    requires t.Valid() && NoNul(id) && (dir == OUT || dir == IN)
    ensures forall b :: b in out <==> exists e :: e in t.edges && Leads(spec, dir, e, id, b)
  {
    out := [];
    var rels := t.ScanRels(dir, id);
    for i := 0 to |rels|
      invariant forall b :: b in out <==> exists e :: e in rels[..i] && Leads(spec, dir, e, id, b)
    {
      assert rels[..i + 1] == rels[..i] + [rels[i]];
      ghost var before := out;
      assert rels[i] in rels;
      if VerbOk(spec, rels[i].verb) {
        out := out + [OtherOf(dir, rels[i])];
      }
      forall b ensures b in out <==> exists e :: e in rels[..i + 1] && Leads(spec, dir, e, id, b) {
        assert b in out <==> b in before || Leads(spec, dir, rels[i], id, b);
        assert rels[i] in rels[..i + 1];
      }
    }
    assert rels[..|rels|] == rels;
  }

  /** The neighbours of an id, outbound first. */
  method Neighbors(t: RelTable, spec: Spec, id: Bytes) returns (out: seq<Bytes>)
    requires t.Valid() && NoNul(id)
    ensures forall b :: b in out <==> Adjacent(t.edges, spec, id, b)
    ensures forall b :: b in out ==> NoNul(b)
  {
    out := [];
    if spec.outbound {
      out := SideNeighbors(t, spec, OUT, id);
    }
    ghost var first := out;
    if spec.inbound {
      var more := SideNeighbors(t, spec, IN, id);
      out := out + more;
    }
    forall b ensures b in out <==> Adjacent(t.edges, spec, id, b)
             ensures b in out ==> NoNul(b)
    {
      if b in first {
        var e :| e in t.edges && Leads(spec, OUT, e, id, b);
        assert Along(spec, e, id, b) && CleanEdge(e);
      } else if b in out {
        var e :| e in t.edges && Leads(spec, IN, e, id, b);
        assert Along(spec, e, id, b) && CleanEdge(e);
      }
      if Adjacent(t.edges, spec, id, b) {
        var e :| e in t.edges && Along(spec, e, id, b);
        assert Leads(spec, OUT, e, id, b) || Leads(spec, IN, e, id, b);
      }
    }
  }

  /** The starts, each once. */
  method Begin(start: seq<Bytes>) returns (order: seq<Bytes>)
    ensures forall i, j :: 0 <= i < j < |order| ==> order[i] != order[j]
    ensures forall x :: x in order <==> x in start
  {
    order := [];
    for i := 0 to |start|
      invariant forall i, j :: 0 <= i < j < |order| ==> order[i] != order[j]
      invariant forall x :: x in order <==> x in start[..i]
    {
      assert start[..i + 1] == start[..i] + [start[i]];
      if start[i] !in order {
        order := order + [start[i]];
      }
    }
    assert start[..|start|] == start;
  }

  /** The queue holds the visited ids from `head` on, with their distances. */
  ghost predicate Queued(frontier: seq<(Bytes, nat)>, order: seq<Bytes>, hops: seq<nat>, head: nat) {
    && |hops| == |order| && head + |frontier| == |order|
    && forall i :: 0 <= i < |frontier| ==> frontier[i] == (order[head + i], hops[head + i])
  }

  ghost predicate Capped(hops: seq<nat>, h: nat) {
    forall i :: 0 <= i < |hops| ==> hops[i] <= h
  }

  ghost predicate AllClean(order: seq<Bytes>) {
    forall x :: x in order ==> NoNul(x)
  }

  /** A neighbour not yet visited, met while expanding distance `h`, is at `h + 1`. */
  lemma FreshNeighbor(edges: set<Edge>, spec: Spec, start: seq<Bytes>, order: seq<Bytes>, hops: seq<nat>, at: nat, b: Bytes)
    requires Walk(edges, spec, start, order, hops) && Started(start, order)
    requires at < |order| && hops[at] < spec.depth && Expanded(edges, spec, order, hops, at)
    requires Adjacent(edges, spec, order[at], b) && b !in order
    ensures AtHop(edges, spec, start, hops[at] + 1, b)
  {
    hide Adjacent, Within, Expanded, AtHop;
    if Within(edges, spec, start, hops[at], b) {
      assert forall i :: 0 <= i < |order| && hops[i] < hops[at] ==> i < at;
      LevelsCovered(edges, spec, start, order, hops, at, hops[at], b);
    }
    NewAtNext(edges, spec, start, hops[at], order[at], b);
  }

  /** Everything within `h` hops is visited. */
  ghost predicate LevelIn(edges: set<Edge>, spec: Spec, start: seq<Bytes>, h: nat, order: seq<Bytes>) {
    forall x :: Within(edges, spec, start, h, x) ==> x in order
  }

  /** Nothing nearer than a visited id is left out. */
  ghost predicate NoneSkipped(edges: set<Edge>, spec: Spec, start: seq<Bytes>, order: seq<Bytes>, hops: seq<nat>) {
    forall i: nat :: i < |hops| && hops[i] > 0 ==> LevelIn(edges, spec, start, hops[i] - 1, order)
  }

  lemma LevelVisited(edges: set<Edge>, spec: Spec, start: seq<Bytes>, order: seq<Bytes>, hops: seq<nat>, at: nat)
    requires Walk(edges, spec, start, order, hops) && Started(start, order)
    requires at < |order| && hops[at] < spec.depth && Expanded(edges, spec, order, hops, at)
    ensures LevelIn(edges, spec, start, hops[at], order)
  {
    hide Adjacent, Within, Expanded, AtHop;
    forall x | Within(edges, spec, start, hops[at], x) ensures x in order {
      assert forall i :: 0 <= i < |order| && hops[i] < hops[at] ==> i < at;
      LevelsCovered(edges, spec, start, order, hops, at, hops[at], x);
    }
  }

  lemma SkippedAppend(edges: set<Edge>, spec: Spec, start: seq<Bytes>, order: seq<Bytes>, hops: seq<nat>, b: Bytes, h: nat)
    requires NoneSkipped(edges, spec, start, order, hops) && LevelIn(edges, spec, start, h, order)
    ensures NoneSkipped(edges, spec, start, order + [b], hops + [h + 1]) && LevelIn(edges, spec, start, h, order + [b])
  {
    hide Within;
    var hops' := hops + [h + 1];
    forall i: nat | i < |hops'| && hops'[i] > 0 ensures LevelIn(edges, spec, start, hops'[i] - 1, order + [b]) {
      if i < |hops| {
        assert LevelIn(edges, spec, start, hops[i] - 1, order);
      }
    }
  }

  /** Visit the neighbours of the id at `at`, stopping at the limit. */
  method Expand(t: RelTable, start: seq<Bytes>, spec: Spec, order: seq<Bytes>, ghost hops: seq<nat>,
                frontier: seq<(Bytes, nat)>, ghost at: nat, id: Bytes, h: nat)
    returns (order': seq<Bytes>, ghost hops': seq<nat>, frontier': seq<(Bytes, nat)>)
    requires t.Valid() && AllClean(order) && |order| < spec.limit && h < spec.depth
    requires Walk(t.edges, spec, start, order, hops) && Started(start, order)
    requires at < |order| && order[at] == id && hops[at] == h
    requires Queued(frontier, order, hops, at + 1) && Capped(hops, h + 1)
    requires Expanded(t.edges, spec, order, hops, at) && NoneSkipped(t.edges, spec, start, order, hops)
    ensures Walk(t.edges, spec, start, order', hops') && order <= order' && hops <= hops' && AllClean(order')
    ensures NoneSkipped(t.edges, spec, start, order', hops')
    ensures Queued(frontier', order', hops', at + 1) && Capped(hops', h + 1)
    ensures forall x :: x in order' ==> x in order || Adjacent(t.edges, spec, id, x)
    ensures |order'| < spec.limit ==> Expanded(t.edges, spec, order', hops', at + 1)
    ensures |order'| <= spec.limit
  {
    hide Walk, Adjacent, Expanded, AtHop, NoneSkipped, LevelIn;
    WalkFacts(t.edges, spec, start, order, hops);
    LevelVisited(t.edges, spec, start, order, hops, at);
    order', hops', frontier' := order, hops, frontier;
    var neighbors := Neighbors(t, spec, id);
    var i := 0;
    while i < |neighbors|
      invariant i <= |neighbors|
      invariant Walk(t.edges, spec, start, order', hops') && order <= order' && AllClean(order')
      invariant hops <= hops' && Queued(frontier', order', hops', at + 1) && Capped(hops', h + 1)
      invariant forall x :: x in order' ==> x in order || Adjacent(t.edges, spec, id, x)
      invariant |order'| <= spec.limit
      invariant NoneSkipped(t.edges, spec, start, order', hops') && LevelIn(t.edges, spec, start, h, order')
      invariant |order'| < spec.limit ==> forall j :: 0 <= j < i ==> neighbors[j] in order'
    {
      if |order'| >= spec.limit {
        return;
      }
      var n := neighbors[i];
      assert n in neighbors;
      if n !in order' {
        FreshNeighbor(t.edges, spec, start, order, hops, at, n);
        WalkAppend(t.edges, spec, start, order', hops', n, h + 1);
        SkippedAppend(t.edges, spec, start, order', hops', n, h);
        order' := order' + [n];
        hops' := hops' + [h + 1];
        frontier' := frontier' + [(n, h + 1)];
      }
      i := i + 1;
    }
    if |order'| < spec.limit {
      ExpandedNext(t.edges, spec, order, hops, order', hops', at);
    }
  }

  lemma WalkFacts(edges: set<Edge>, spec: Spec, start: seq<Bytes>, order: seq<Bytes>, hops: seq<nat>)
    requires Walk(edges, spec, start, order, hops)
    ensures |hops| == |order|
  {
  }

  lemma ExpandedNext(edges: set<Edge>, spec: Spec, order: seq<Bytes>, hops: seq<nat>,
                     order': seq<Bytes>, hops': seq<nat>, at: nat)
    requires |hops| == |order| && |hops'| == |order'| && order <= order' && hops <= hops' && at < |order|
    requires Expanded(edges, spec, order, hops, at)
    requires forall b :: Adjacent(edges, spec, order[at], b) ==> b in order'
    ensures Expanded(edges, spec, order', hops', at + 1)
  {
    hide Adjacent;
    forall i, b | 0 <= i < at + 1 && i < |order'| && hops'[i] < spec.depth && Adjacent(edges, spec, order'[i], b)
      ensures b in order'
    {
      assert order'[i] == order[i] && hops'[i] == hops[i];
      assert order' == order + order'[|order|..];
    }
  }

  /** Every id a walk can meet. */
  function Universe(start: seq<Bytes>, edges: set<Edge>): set<Bytes> {
    (set x | x in start) + (set e | e in edges :: e.from) + (set e | e in edges :: e.to)
  }

  lemma AdjacentKnown(edges: set<Edge>, spec: Spec, start: seq<Bytes>, a: Bytes, b: Bytes)
    requires Adjacent(edges, spec, a, b)
    ensures b in Universe(start, edges)
  {
    var e :| e in edges && Along(spec, e, a, b);
  }

  lemma {:induction false} DistinctInside(order: seq<Bytes>, all: set<Bytes>)
    requires forall i, j :: 0 <= i < j < |order| ==> order[i] != order[j]
    requires forall x :: x in order ==> x in all
    ensures |order| <= |all|
  {
    if order != [] {
      var init, x := order[..|order| - 1], order[|order| - 1];
      assert x in order;
      assert x !in init;
      DistinctInside(init, all - {x});
    }
  }

  lemma WalkInside(edges: set<Edge>, spec: Spec, start: seq<Bytes>, order: seq<Bytes>, hops: seq<nat>, all: set<Bytes>)
    requires Walk(edges, spec, start, order, hops) && forall x :: x in order ==> x in all
    ensures |hops| == |order| <= |all|
  {
    DistinctInside(order, all);
  }

  lemma WalkStart(edges: set<Edge>, spec: Spec, start: seq<Bytes>, order: seq<Bytes>)
    requires forall i, j :: 0 <= i < j < |order| ==> order[i] != order[j]
    requires forall x :: x in order <==> x in start
    ensures Walk(edges, spec, start, order, Zeros(|order|)) && Started(start, order)
  {
  }

  /** After the walk: everything visited is within the depth, and everything within it is visited if every
      id has been expanded. */
  lemma WalkDone(edges: set<Edge>, spec: Spec, start: seq<Bytes>, order: seq<Bytes>, hops: seq<nat>, x: Bytes)
    requires Walk(edges, spec, start, order, hops) && Started(start, order)
    requires Expanded(edges, spec, order, hops, |order|)
    ensures x in order <==> Within(edges, spec, start, spec.depth, x)
  {
    hide Adjacent, Expanded;
    if x in order {
      var i :| 0 <= i < |order| && order[i] == x;
      WithinMono(edges, spec, start, hops[i], spec.depth, x);
    }
    if Within(edges, spec, start, spec.depth, x) {
      LevelsCovered(edges, spec, start, order, hops, |order|, spec.depth, x);
    }
  }

  /** The state between two pops: `head` ids expanded, the rest queued, all of them in `all`. */
  ghost predicate Searching(edges: set<Edge>, spec: Spec, start: seq<Bytes>, order: seq<Bytes>, hops: seq<nat>,
                            frontier: seq<(Bytes, nat)>, head: nat, all: set<Bytes>)
  {
    && Walk(edges, spec, start, order, hops) && Started(start, order) && AllClean(order)
    && Queued(frontier, order, hops, head)
    && (frontier != [] ==> Capped(hops, frontier[0].1 + 1))
    && (|order| < spec.limit ==> Expanded(edges, spec, order, hops, head))
    && (forall x :: x in order ==> x in all)
    && head <= |order| <= |all|
    && Bounded(spec, start, order) && NoneSkipped(edges, spec, start, order, hops)
  }

  /** At most `limit` ids, unless the starts alone are more. */
  ghost predicate Bounded(spec: Spec, start: seq<Bytes>, order: seq<Bytes>) {
    |order| <= spec.limit || forall x :: x in order ==> x in start
  }

  /** Pop one id, and expand it unless it is at the depth or the limit is reached. */
  method Pop(t: RelTable, start: seq<Bytes>, spec: Spec, order: seq<Bytes>, ghost hops: seq<nat>,
             frontier: seq<(Bytes, nat)>, ghost head: nat, ghost all: set<Bytes>)
    returns (order': seq<Bytes>, ghost hops': seq<nat>, frontier': seq<(Bytes, nat)>)
    requires t.Valid() && all == Universe(start, t.edges) && frontier != []
    requires Searching(t.edges, spec, start, order, hops, frontier, head, all)
    ensures Searching(t.edges, spec, start, order', hops', frontier', head + 1, all)
    ensures head < |all|
  {
    hide Walk, Adjacent, Expanded, AtHop, Within, Universe, Started, NoneSkipped;
    var (id, h) := frontier[0];
    assert frontier[0] == (order[head], hops[head]);
    assert id in order;
    order', hops', frontier' := order, hops, frontier[1..];
    if h < spec.depth && |order| < spec.limit {
      order', hops', frontier' := Expand(t, start, spec, order', hops', frontier', head, id, h);
      forall x | x in order' ensures x in all {
        if x !in order {
          AdjacentKnown(t.edges, spec, start, id, x);
        }
      }
      StartedMore(start, order, order');
    } else if |order| < spec.limit {
      ExpandedPast(t.edges, spec, order, hops, head);
    }
    if frontier' != [] {
      Later(t.edges, spec, start, order', hops', head, head + 1);
      assert frontier'[0] == (order'[head + 1], hops'[head + 1]);
    }
    WalkInside(t.edges, spec, start, order', hops', all);
  }

  lemma StartedMore(start: seq<Bytes>, order: seq<Bytes>, order': seq<Bytes>)
    requires Started(start, order) && order <= order'
    ensures Started(start, order')
  {
    assert order' == order + order'[|order|..];
  }

  /** An id at the depth counts as expanded. */
  lemma ExpandedPast(edges: set<Edge>, spec: Spec, order: seq<Bytes>, hops: seq<nat>, head: nat)
    requires |hops| == |order| && head < |order| && hops[head] >= spec.depth
    requires Expanded(edges, spec, order, hops, head)
    ensures Expanded(edges, spec, order, hops, head + 1)
  {
  }

  function Zeros(n: nat): seq<nat> { seq(n, i => 0) }

  function AtZero(order: seq<Bytes>): seq<(Bytes, nat)> {
    seq(|order|, i requires 0 <= i < |order| => (order[i], 0))
  }

  lemma SearchStart(edges: set<Edge>, spec: Spec, start: seq<Bytes>, order: seq<Bytes>)
    requires AllClean(start)
    requires forall i, j :: 0 <= i < j < |order| ==> order[i] != order[j]
    requires forall x :: x in order <==> x in start
    ensures Searching(edges, spec, start, order, Zeros(|order|), AtZero(order), 0, Universe(start, edges))
  {
    WalkStart(edges, spec, start, order);
    assert NoneSkipped(edges, spec, start, order, Zeros(|order|));
    hide Walk, Within, NoneSkipped;
    WalkInside(edges, spec, start, order, Zeros(|order|), Universe(start, edges));
  }

  /** `traverse`: every visited id, nearest hops first; `hops` are the exact distances. */
  method Traverse(t: RelTable, start: seq<Bytes>, spec: Spec) returns (order: seq<Bytes>, ghost hops: seq<nat>)
    requires t.Valid() && AllClean(start)
    ensures Walk(t.edges, spec, start, order, hops)
    ensures Started(start, order) && Bounded(spec, start, order)
    ensures |order| < spec.limit ==> forall x :: x in order <==> Within(t.edges, spec, start, spec.depth, x)
    ensures NoneSkipped(t.edges, spec, start, order, hops)
  {
    hide AllClean, AtZero, NoneSkipped, Bounded, Capped, Expanded, RelTable.Valid, Started, Universe, Walk, Within, Zeros;
    order := Begin(start);
    hops := Zeros(|order|);
    var frontier := AtZero(order);
    ghost var head: nat, all := 0, Universe(start, t.edges);
    SearchStart(t.edges, spec, start, order);
    while frontier != []
      invariant Searching(t.edges, spec, start, order, hops, frontier, head, all)
      decreases |all| - head
    {
      order, hops, frontier := Pop(t, start, spec, order, hops, frontier, head, all);
      head := head + 1;
    }
    if |order| < spec.limit {
      forall x ensures x in order <==> Within(t.edges, spec, start, spec.depth, x) {
        WalkDone(t.edges, spec, start, order, hops, x);
      }
    }
  }

  lemma Later(edges: set<Edge>, spec: Spec, start: seq<Bytes>, order: seq<Bytes>, hops: seq<nat>, i: nat, j: nat)
    requires Walk(edges, spec, start, order, hops) && i < j < |order|
    ensures |hops| == |order| && hops[i] <= hops[j]
  {
  }
}
