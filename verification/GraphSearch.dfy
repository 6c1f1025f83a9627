/**
 * Walking the layered graph.
 */
module GraphSearch {
  import opened Sets

  // Greedy descent and beam search. Distance is an arbitrary function of the node; a heap is the set of
  // its entries (entries never repeat, because a node is pushed at most once), and popping takes any
  // entry of extremal distance, so nothing here depends on how ties break.

  /** `links[node][layer]` lists the neighbours of `node` at `layer`. */
  type Links = seq<seq<seq<nat>>>

  datatype Scored = Scored(dist: real, node: nat)

  /** The neighbours of `x` at `layer`; a node that does not own the layer has none. */
  function Nbrs(links: Links, x: nat, layer: nat): seq<nat>
    requires x < |links|
  {
    if layer < |links[x]| then links[x][layer] else []
  }

  ghost predicate InRange(links: Links, layer: nat) {
    forall x: nat, i: nat :: x < |links| && i < |Nbrs(links, x, layer)| ==> Nbrs(links, x, layer)[i] < |links|
  }

  // ---- reachability -------------------------------------------------------------

  ghost predicate IsPath(links: Links, layer: nat, p: seq<nat>) {
    && p != []
    && (forall i: nat :: i < |p| ==> p[i] < |links|)
    && (forall i: nat :: i + 1 < |p| ==> p[i + 1] in Nbrs(links, p[i], layer))
  }

  ghost predicate Reachable(links: Links, layer: nat, from: nat, to: nat) {
    exists p: seq<nat> :: IsPath(links, layer, p) && p[0] == from && p[|p| - 1] == to
  }

  lemma ReachSelf(links: Links, layer: nat, x: nat)
    requires x < |links|
    ensures Reachable(links, layer, x, x)
  {
    assert IsPath(links, layer, [x]);
  }

  lemma ReachStep(links: Links, layer: nat, from: nat, x: nat, y: nat)
    requires Reachable(links, layer, from, x) && x < |links| && y < |links|
    requires y in Nbrs(links, x, layer)
    ensures Reachable(links, layer, from, y)
  {
    var p :| IsPath(links, layer, p) && p[0] == from && p[|p| - 1] == x;
    assert IsPath(links, layer, p + [y]);
  }

  ghost predicate Closed(links: Links, layer: nat, s: set<nat>) {
    forall x: nat, i: nat :: x in s && x < |links| && i < |Nbrs(links, x, layer)| ==> Nbrs(links, x, layer)[i] in s
  }

  /** A set closed under the links of a layer keeps everything reachable from inside it. */
  lemma {:induction false} ReachClosed(links: Links, layer: nat, s: set<nat>, p: seq<nat>)
    requires IsPath(links, layer, p) && p[0] in s && Closed(links, layer, s)
    ensures p[|p| - 1] in s
    decreases |p|
  {
    if |p| > 1 {
      var q := p[..|p| - 1];
      assert IsPath(links, layer, q);
      ReachClosed(links, layer, s, q);
      assert p[|p| - 2 + 1] in Nbrs(links, p[|p| - 2], layer);
    }
  }

  // ---- greedy descent -----------------------------------------------------------

  /** The nodes strictly closer than `d`. */
  ghost function Closer(dist: nat -> real, n: nat, d: real): set<nat> {
    set x: nat | x < n && dist(x) < d
  }

  method GreedyAt(links: Links, dist: nat -> real, start: nat, layer: nat) returns (cur: nat)
    requires start < |links| && InRange(links, layer)
    ensures cur < |links| && Reachable(links, layer, start, cur)
    ensures dist(cur) <= dist(start)
    ensures forall nb :: nb in Nbrs(links, cur, layer) ==> dist(cur) <= dist(nb)
  {
    cur := start;
    var curDist := dist(cur);
    ReachSelf(links, layer, start);
    while true
      invariant cur < |links| && curDist == dist(cur) <= dist(start)
      invariant Reachable(links, layer, start, cur)
      decreases Closer(dist, |links|, curDist)
    {
      var improved := false;
      var neigh := Nbrs(links, cur, layer);
      ghost var from, fromDist := cur, curDist;
      for j := 0 to |neigh|
        invariant cur < |links| && curDist == dist(cur) <= fromDist
        invariant Reachable(links, layer, start, cur)
        invariant improved ==> curDist < fromDist
        invariant !improved ==> cur == from
        invariant forall i: nat :: i < j ==> curDist <= dist(neigh[i])
      {
        var nb := neigh[j];
        var d := dist(nb);
        if d < curDist {
          ReachStep(links, layer, start, from, nb);
          cur := nb;
          curDist := d;
          improved := true;
        }
      }
      if !improved {
        return;
      }
      assert cur in Closer(dist, |links|, fromDist) && cur !in Closer(dist, |links|, curDist);
    }
  }

  /** What a greedy walk at one layer arrives at: a reachable local minimum, no farther than its start. */
  ghost predicate WalksTo(links: Links, dist: nat -> real, layer: nat, a: nat, b: nat) {
    && b < |links| && Reachable(links, layer, a, b) && dist(b) <= dist(a)
    && forall nb :: nb in Nbrs(links, b, layer) ==> dist(b) <= dist(nb)
  }

  /** From `a`, one greedy walk at each layer from `top` down to just above `layer` ends at `b`. */
  ghost predicate DescendsTo(links: Links, dist: nat -> real, top: nat, layer: nat, a: nat, b: nat)
    requires layer <= top
    decreases top - layer
  {
    if layer == top then b == a
    else
      var above := layer + 1;
      exists c: nat :: DescendsTo(links, dist, top, above, a, c) && WalksTo(links, dist, above, c, b)
  }

  // ---- heaps --------------------------------------------------------------------

  method PopNearest(heap: set<Scored>) returns (s: Scored, rest: set<Scored>)
    requires heap != {}
    ensures s in heap && rest == heap - {s}
    ensures forall t :: t in heap ==> s.dist <= t.dist
  {
    SomeNearest(heap);
    s :| s in heap && forall t :: t in heap ==> s.dist <= t.dist;
    rest := heap - {s};
  }

  method PeekFarthest(heap: set<Scored>) returns (s: Scored)
    requires heap != {}
    ensures s in heap
    ensures forall t :: t in heap ==> t.dist <= s.dist
  {
    SomeFarthest(heap);
    s :| s in heap && forall t :: t in heap ==> t.dist <= s.dist;
  }

  lemma {:induction false} SomeNearest(heap: set<Scored>)
    requires heap != {}
    ensures exists s :: s in heap && forall t :: t in heap ==> s.dist <= t.dist
  {
    var a :| a in heap;
    if heap == {a} {
    } else {
      SomeNearest(heap - {a});
      var s :| s in heap - {a} && forall t :: t in heap - {a} ==> s.dist <= t.dist;
      assert forall t :: t in heap ==> t == a || t in heap - {a};
      assert if s.dist <= a.dist then forall t :: t in heap ==> s.dist <= t.dist
             else forall t :: t in heap ==> a.dist <= t.dist;
    }
  }

  lemma {:induction false} SomeFarthest(heap: set<Scored>)
    requires heap != {}
    ensures exists s :: s in heap && forall t :: t in heap ==> t.dist <= s.dist
  {
    var a :| a in heap;
    if heap == {a} {
    } else {
      SomeFarthest(heap - {a});
      var s :| s in heap - {a} && forall t :: t in heap - {a} ==> t.dist <= s.dist;
      assert forall t :: t in heap ==> t == a || t in heap - {a};
      assert if a.dist <= s.dist then forall t :: t in heap ==> t.dist <= s.dist
             else forall t :: t in heap ==> t.dist <= a.dist;
    }
  }

  ghost predicate Sorted(s: seq<Scored>) {
    forall i: nat, j: nat :: i < j < |s| ==> s[i].dist <= s[j].dist
  }

  ghost predicate DistinctNodes(s: seq<Scored>) {
    forall i: nat, j: nat :: i < j < |s| ==> s[i].node != s[j].node
  }

  function NodeSet(s: seq<Scored>): set<nat> { set x | x in s :: x.node }

  /** Each entry carries the distance of its node. */
  ghost predicate Measured(heap: set<Scored>, dist: nat -> real) {
    forall s :: s in heap ==> s.dist == dist(s.node)
  }

  /** Draining a heap nearest first. */
  method Drain(heap: set<Scored>, ghost dist: nat -> real) returns (out: seq<Scored>)
    requires Measured(heap, dist)
    ensures Sorted(out) && DistinctNodes(out) && |out| == |heap|
    ensures forall s :: s in out <==> s in heap
  {
    out := [];
    var rest := heap;
    while rest != {}
      invariant rest <= heap && |out| + |rest| == |heap|
      invariant Sorted(out) && DistinctNodes(out)
      invariant forall s :: s in heap <==> s in out || s in rest
      invariant forall s :: s in out ==> s !in rest
      invariant forall s, t :: s in out && t in rest ==> s.dist <= t.dist
      decreases rest
    {
      var s, rest' := PopNearest(rest);
      forall i: nat | i < |out| ensures out[i].node != s.node {
        assert out[i] in out;
      }
      out := out + [s];
      rest := rest';
    }
  }

  // ---- beam search --------------------------------------------------------------

  predicate Admits(deleted: seq<bool>, includeDeleted: bool, admit: nat -> bool, x: nat)
    requires x < |deleted|
  {
    (includeDeleted || !deleted[x]) && admit(x)
  }

  /** The filter of a search without one. */
  predicate Anyone(x: nat) { true }

  /** The result heap is full and holds nothing farther than `d`. */
  ghost predicate Full(results: set<Scored>, ef: nat, d: real) {
    |results| >= ef && forall s :: s in results ==> s.dist <= d
  }

  /**
   * What a beam establishes about the nodes it visited: its output is the best `ef`
   * admitted ones, and the search stopped only at nodes no closer than its worst hit.
   */
  ghost predicate BeamResult(links: Links, deleted: seq<bool>, dist: nat -> real, start: nat, layer: nat,
                             ef: nat, includeDeleted: bool, admit: nat -> bool,
                             out: seq<Scored>, visited: set<nat>)
    requires |deleted| == |links|
  {
    var found := set s | s in out;
    && Sorted(out) && DistinctNodes(out) && |out| <= (if ef == 0 then 1 else ef)
    && start in visited
    && (forall x :: x in visited ==> x < |links| && Reachable(links, layer, start, x))
    && (forall s :: s in out ==> s.node in visited && s.dist == dist(s.node)
                                 && Admits(deleted, includeDeleted, admit, s.node))
    && (forall x :: x in visited && Admits(deleted, includeDeleted, admit, x) && Scored(dist(x), x) !in out
                    ==> Full(found, ef, dist(x)))
    && (forall x :: x in visited ==> NbrsIn(links, layer, x, visited) || Full(found, ef, dist(x)))
    && (start < |links| && Admits(deleted, includeDeleted, admit, start) ==> out != [])
  }

  ghost predicate NbrsIn(links: Links, layer: nat, x: nat, s: set<nat>)
    requires x < |links|
  {
    forall i: nat :: i < |Nbrs(links, x, layer)| ==> Nbrs(links, x, layer)[i] in s
  }

  /** Whether a node at distance `d` may still enter the heap: `d < worst || len < ef`. */
  ghost predicate Near(results: set<Scored>, ef: nat, d: real) {
    results == {} || |results| < ef || exists s :: s in results && d < s.dist
  }

  method IsNear(results: set<Scored>, ef: nat, d: real) returns (near: bool)
    ensures near <==> Near(results, ef, d)
    ensures !near ==> Full(results, ef, d)
  {
    if results == {} {
      return true;
    }
    var worst := PeekFarthest(results);
    near := d < worst.dist || |results| < ef;
  }

  /** Push a near entry; evict the farthest when the heap overflows. */
  method Offer(results: set<Scored>, ef: nat, s: Scored) returns (results': set<Scored>)
    requires s !in results && Near(results, ef, s.dist)
    requires |results| <= if ef == 0 then 1 else ef
    ensures results' <= results + {s} && |results'| <= if ef == 0 then 1 else ef
    ensures forall d :: Full(results, ef, d) ==> Full(results', ef, d)
    ensures forall t :: t in results + {s} && t !in results' ==> Full(results', ef, t.dist)
    ensures results != {} ==> results' != {}
  {
    results' := results + {s};
    if |results'| > ef {
      var f := PeekFarthest(results');
      results' := results' - {f};
      assert |results'| == |results|;
    }
  }

  /** The result heap holds admitted, visited nodes; an admitted visited node is missing only when it is full. */
  ghost predicate Keeps(deleted: seq<bool>, dist: nat -> real, ef: nat, includeDeleted: bool, admit: nat -> bool,
                        seen: set<nat>, results: set<Scored>)
  {
    && Measured(results, dist) && |results| <= (if ef == 0 then 1 else ef)
    && (forall s :: s in results ==> s.node in seen)
    && (forall x :: x in seen ==> x < |deleted|)
    && (forall s :: s in results ==> s.node < |deleted| && Admits(deleted, includeDeleted, admit, s.node))
    && (forall x :: x in seen && Admits(deleted, includeDeleted, admit, x) && Scored(dist(x), x) !in results
                    ==> Full(results, ef, dist(x)))
  }

  /** Every visited node is expanded, waiting, being expanded (`open`), or too far to matter. */
  ghost predicate Explores(links: Links, layer: nat, dist: nat -> real, ef: nat, seen: set<nat>, expanded: set<nat>,
                           open: set<nat>, candidates: set<Scored>, results: set<Scored>)
  {
    && Measured(candidates, dist)
    && (forall s :: s in candidates ==> s.node in seen && s.node !in expanded && s.node !in open)
    && expanded <= seen && open <= seen && open !! expanded
    && (forall x :: x in expanded ==> x < |links| && NbrsIn(links, layer, x, seen))
    && (forall x :: x in seen ==> x in expanded || x in open || Scored(dist(x), x) in candidates
                                  || Full(results, ef, dist(x)))
  }

  /** One neighbour visited: both invariants move to the enlarged visited set. */
  lemma VisitKeeps(links: Links, layer: nat, deleted: seq<bool>, dist: nat -> real, ef: nat, includeDeleted: bool,
                   admit: nat -> bool, seen: set<nat>, expanded: set<nat>, open: set<nat>,
                   candidates: set<Scored>, results: set<Scored>, nb: nat,
                   candidates': set<Scored>, results': set<Scored>)
    requires Keeps(deleted, dist, ef, includeDeleted, admit, seen, results)
    requires Explores(links, layer, dist, ef, seen, expanded, open, candidates, results)
    requires nb < |deleted| && nb !in seen
    requires forall d :: Full(results, ef, d) ==> Full(results', ef, d)
    requires |results'| <= (if ef == 0 then 1 else ef)
    requires results' <= results + (if Admits(deleted, includeDeleted, admit, nb) then {Scored(dist(nb), nb)} else {})
    requires forall t :: t in results && t !in results' ==> Full(results', ef, t.dist)
    requires Full(results', ef, dist(nb)) || candidates' == candidates + {Scored(dist(nb), nb)}
    requires candidates' <= candidates + {Scored(dist(nb), nb)} && candidates <= candidates'
    requires Admits(deleted, includeDeleted, admit, nb) && Scored(dist(nb), nb) !in results'
             ==> Full(results', ef, dist(nb))
    ensures Keeps(deleted, dist, ef, includeDeleted, admit, seen + {nb}, results')
    ensures Explores(links, layer, dist, ef, seen + {nb}, expanded, open, candidates', results')
  {
    hide Full, Admits, Explores, Keeps;
    VisitExplores(links, layer, deleted, dist, ef, seen, expanded, open, candidates, results, nb, candidates', results');
    VisitHolds(deleted, dist, ef, includeDeleted, admit, seen, results, nb, results');
  }

  lemma VisitHolds(deleted: seq<bool>, dist: nat -> real, ef: nat, includeDeleted: bool, admit: nat -> bool,
                   seen: set<nat>, results: set<Scored>, nb: nat, results': set<Scored>)
    requires Keeps(deleted, dist, ef, includeDeleted, admit, seen, results)
    requires nb < |deleted|
    requires forall d :: Full(results, ef, d) ==> Full(results', ef, d)
    requires |results'| <= (if ef == 0 then 1 else ef)
    requires results' <= results + (if Admits(deleted, includeDeleted, admit, nb) then {Scored(dist(nb), nb)} else {})
    requires forall t :: t in results && t !in results' ==> Full(results', ef, t.dist)
    requires Admits(deleted, includeDeleted, admit, nb) && Scored(dist(nb), nb) !in results'
             ==> Full(results', ef, dist(nb))
    ensures Keeps(deleted, dist, ef, includeDeleted, admit, seen + {nb}, results')
  {
    hide Full, Admits;
    forall x | x in seen + {nb} && Admits(deleted, includeDeleted, admit, x) && Scored(dist(x), x) !in results'
      ensures Full(results', ef, dist(x))
    {
      if x in seen {
        if Scored(dist(x), x) !in results {
          assert Full(results, ef, dist(x));
        }
      }
    }
  }

  lemma VisitExplores(links: Links, layer: nat, deleted: seq<bool>, dist: nat -> real, ef: nat, seen: set<nat>,
                      expanded: set<nat>, open: set<nat>, candidates: set<Scored>, results: set<Scored>, nb: nat,
                      candidates': set<Scored>, results': set<Scored>)
    requires Explores(links, layer, dist, ef, seen, expanded, open, candidates, results)
    requires nb < |deleted| && nb !in seen
    requires forall d :: Full(results, ef, d) ==> Full(results', ef, d)
    requires Full(results', ef, dist(nb)) || candidates' == candidates + {Scored(dist(nb), nb)}
    requires candidates' <= candidates + {Scored(dist(nb), nb)} && candidates <= candidates'
    ensures Explores(links, layer, dist, ef, seen + {nb}, expanded, open, candidates', results')
  {
    hide Full;
    assert forall x :: x in expanded ==> NbrsIn(links, layer, x, seen);
  }

  lemma NewEntry(deleted: seq<bool>, dist: nat -> real, ef: nat, includeDeleted: bool, admit: nat -> bool,
                 seen: set<nat>, results: set<Scored>, nb: nat)
    requires Keeps(deleted, dist, ef, includeDeleted, admit, seen, results) && nb !in seen
    ensures Scored(dist(nb), nb) !in results && |results| <= if ef == 0 then 1 else ef
  {
  }

  lemma StartKeeps(links: Links, layer: nat, deleted: seq<bool>, dist: nat -> real, ef: nat, includeDeleted: bool,
                   admit: nat -> bool, start: nat)
    requires start < |deleted|
    ensures Keeps(deleted, dist, ef, includeDeleted, admit, {start},
                  if Admits(deleted, includeDeleted, admit, start) then {Scored(dist(start), start)} else {})
    ensures Explores(links, layer, dist, ef, {start}, {}, {}, {Scored(dist(start), start)},
                     if Admits(deleted, includeDeleted, admit, start) then {Scored(dist(start), start)} else {})
  {
  }

  lemma Opens(links: Links, layer: nat, dist: nat -> real, ef: nat, seen: set<nat>, expanded: set<nat>,
              candidates: set<Scored>, results: set<Scored>, c: Scored)
    requires Explores(links, layer, dist, ef, seen, expanded, {}, candidates, results) && c in candidates
    ensures Explores(links, layer, dist, ef, seen, expanded, {c.node}, candidates - {c}, results)
    ensures c.node in seen && c.node !in expanded && expanded <= seen && c.dist == dist(c.node)
  {
  }

  lemma Closes(links: Links, layer: nat, dist: nat -> real, ef: nat, seen: set<nat>, expanded: set<nat>,
               candidates: set<Scored>, results: set<Scored>, x: nat)
    requires Explores(links, layer, dist, ef, seen, expanded, {x}, candidates, results)
    requires x < |links| && NbrsIn(links, layer, x, seen)
    ensures Explores(links, layer, dist, ef, seen, expanded + {x}, {}, candidates, results)
  {
  }

  /** When every waiting candidate is too far to matter, the heap holds the answer. */
  lemma Finishes(links: Links, deleted: seq<bool>, dist: nat -> real, start: nat, layer: nat, ef: nat,
                 includeDeleted: bool, admit: nat -> bool, seen: set<nat>, expanded: set<nat>,
                 candidates: set<Scored>, results: set<Scored>, out: seq<Scored>)
    requires |deleted| == |links|
    requires start in seen && forall x :: x in seen ==> x < |links| && Reachable(links, layer, start, x)
    requires Keeps(deleted, dist, ef, includeDeleted, admit, seen, results)
    requires Explores(links, layer, dist, ef, seen, expanded, {}, candidates, results)
    requires forall s :: s in candidates ==> Full(results, ef, s.dist)
    requires Admits(deleted, includeDeleted, admit, start) ==> results != {}
    requires Sorted(out) && DistinctNodes(out) && |out| == |results| && forall s :: s in out <==> s in results
    ensures BeamResult(links, deleted, dist, start, layer, ef, includeDeleted, admit, out, seen)
  {
    hide Reachable;
    assert (set s | s in out) == results;
  }

  ghost function Below(n: nat): (s: set<nat>)
    ensures forall x: nat :: x in s <==> x < n
    ensures |s| == n
  {
    if n == 0 then {} else var b := Below(n - 1); assert n - 1 !in b; b + {n - 1}
  }

  /** Mark and offer every unvisited neighbour of the popped node `x`. */
  method Expand(links: Links, deleted: seq<bool>, dist: nat -> real, ghost start: nat, layer: nat, ef: nat,
                includeDeleted: bool, admit: nat -> bool, visited: array<bool>, x: nat, candidates: set<Scored>,
                results: set<Scored>, ghost seen: set<nat>, ghost expanded: set<nat>)
    returns (candidates': set<Scored>, results': set<Scored>, ghost seen': set<nat>)
    requires |links| == |deleted| == visited.Length && InRange(links, layer) && x < |links|
    requires forall y: nat :: y < |links| ==> (visited[y] <==> y in seen)
    requires x in seen && forall y :: y in seen ==> y < |links| && Reachable(links, layer, start, y)
    requires Keeps(deleted, dist, ef, includeDeleted, admit, seen, results)
    requires Explores(links, layer, dist, ef, seen, expanded, {x}, candidates, results)
    modifies visited
    ensures forall y: nat :: y < |links| ==> (visited[y] <==> y in seen')
    ensures seen <= seen' && forall y :: y in seen' ==> y < |links| && Reachable(links, layer, start, y)
    ensures Keeps(deleted, dist, ef, includeDeleted, admit, seen', results')
    ensures Explores(links, layer, dist, ef, seen', expanded, {x}, candidates', results')
    ensures NbrsIn(links, layer, x, seen')
    ensures results != {} ==> results' != {}
  {
    hide Keeps, Explores, Reachable;
    candidates', results', seen' := candidates, results, seen;
    var neigh := Nbrs(links, x, layer);
    for j := 0 to |neigh|
      invariant forall y: nat :: y < |links| ==> (visited[y] <==> y in seen')
      invariant seen <= seen' && forall y :: y in seen' ==> y < |links| && Reachable(links, layer, start, y)
      invariant Keeps(deleted, dist, ef, includeDeleted, admit, seen', results')
      invariant Explores(links, layer, dist, ef, seen', expanded, {x}, candidates', results')
      invariant forall i: nat :: i < j ==> neigh[i] in seen'
      invariant results != {} ==> results' != {}
    {
      var nb := neigh[j];
      if visited[nb] {
        continue;
      }
      visited[nb] := true;
      ReachStep(links, layer, start, x, nb);
      NewEntry(deleted, dist, ef, includeDeleted, admit, seen', results', nb);
      var s := Scored(dist(nb), nb);
      ghost var candidates0, results0 := candidates', results';
      var near := IsNear(results', ef, s.dist);
      if near {
        candidates' := candidates' + {s};
        if Admits(deleted, includeDeleted, admit, nb) {
          results' := Offer(results', ef, s);
        }
      }
      VisitKeeps(links, layer, deleted, dist, ef, includeDeleted, admit, seen', expanded, {x},
                 candidates0, results0, nb, candidates', results');
      seen' := seen' + {nb};
    }
  }

  method BeamAdmit(links: Links, deleted: seq<bool>, dist: nat -> real, start: nat, layer: nat,
                   ef: nat, includeDeleted: bool, admit: nat -> bool)
    returns (out: seq<Scored>, ghost seen: set<nat>)
    requires start < |links| == |deleted| && InRange(links, layer)
    ensures BeamResult(links, deleted, dist, start, layer, ef, includeDeleted, admit, out, seen)
  {
    hide Keeps, Explores, Reachable, BeamResult;
    var visited := new bool[|links|](i => false);
    visited[start] := true;
    seen := {start};
    ReachSelf(links, layer, start);
    var candidates := {Scored(dist(start), start)};
    var results: set<Scored> := {};
    if Admits(deleted, includeDeleted, admit, start) {
      results := {Scored(dist(start), start)};
    }
    StartKeeps(links, layer, deleted, dist, ef, includeDeleted, admit, start);
    ghost var expanded: set<nat> := {};
    while candidates != {}
      invariant forall x: nat :: x < |links| ==> (visited[x] <==> x in seen)
      invariant start in seen && forall x :: x in seen ==> x < |links| && Reachable(links, layer, start, x)
      invariant Keeps(deleted, dist, ef, includeDeleted, admit, seen, results)
      invariant Explores(links, layer, dist, ef, seen, expanded, {}, candidates, results)
      invariant Admits(deleted, includeDeleted, admit, start) ==> results != {}
      decreases Below(|links|) - expanded
    {
      var c, rest := PopNearest(candidates);
      if results != {} {
        var worst := PeekFarthest(results);
        if c.dist > worst.dist && |results| >= ef {
          break;
        }
      }
      Opens(links, layer, dist, ef, seen, expanded, candidates, results, c);
      candidates, results, seen := Expand(links, deleted, dist, start, layer, ef, includeDeleted, admit,
                                          visited, c.node, rest, results, seen, expanded);
      Closes(links, layer, dist, ef, seen, expanded, candidates, results, c.node);
      assert c.node in Below(|links|);
      expanded := expanded + {c.node};
    }
    KeepsMeasured(deleted, dist, ef, includeDeleted, admit, seen, results);
    out := Drain(results, dist);
    Finishes(links, deleted, dist, start, layer, ef, includeDeleted, admit, seen, expanded, candidates, results, out);
  }

  lemma KeepsMeasured(deleted: seq<bool>, dist: nat -> real, ef: nat, includeDeleted: bool, admit: nat -> bool,
                      seen: set<nat>, results: set<Scored>)
    requires Keeps(deleted, dist, ef, includeDeleted, admit, seen, results)
    ensures Measured(results, dist)
  {
  }

  // ---- completeness -------------------------------------------------------------

  lemma {:induction false} DistinctCard(s: seq<Scored>)
    requires DistinctNodes(s)
    ensures |NodeSet(s)| == |s| == |set x | x in s|
    decreases |s|
  {
    if s != [] {
      hide NodeSet;
      var t, last := s[..|s| - 1], s[|s| - 1];
      DistinctCard(t);
      LastNodeNew(s);
      assert s == t + [last];
      NodeSetSnoc(t, last);
      assert (set x | x in s) == (set x | x in t) + {last};
    }
  }

  lemma NodeSetSnoc(t: seq<Scored>, last: Scored)
    ensures NodeSet(t + [last]) == NodeSet(t) + {last.node}
  {
    forall n ensures n in NodeSet(t + [last]) <==> n in NodeSet(t) + {last.node} {
      if n == last.node {
        assert last in t + [last];
      }
      if n in NodeSet(t) {
        var x :| x in t && x.node == n;
        assert x in t + [last];
      }
    }
  }

  lemma LastNodeNew(s: seq<Scored>)
    requires DistinctNodes(s) && s != []
    ensures var t, last := s[..|s| - 1], s[|s| - 1]; last.node !in NodeSet(t) && last !in t
  {
    var t := s[..|s| - 1];
    forall x | x in t ensures x.node != s[|s| - 1].node {
      var i: nat :| i < |t| && t[i] == x;
      assert s[i] == x;
    }
  }

  /** A full heap as wide as the graph holds every node. */
  lemma FullIsEverything(n: nat, out: seq<Scored>, ef: nat)
    requires DistinctNodes(out) && (forall s :: s in out ==> s.node < n) && |out| >= ef >= n
    ensures NodeSet(out) == Below(n)
  {
    DistinctCard(out);
    SubsetCard(NodeSet(out), Below(n));
  }

  /** A beam that came back short of its width missed nothing: it visited everything reachable. */
  lemma ShortBeamSawAll(links: Links, deleted: seq<bool>, dist: nat -> real, start: nat, layer: nat,
                        ef: nat, includeDeleted: bool, admit: nat -> bool, out: seq<Scored>, visited: set<nat>)
    requires |deleted| == |links| && start < |links| && |out| < ef
    requires BeamResult(links, deleted, dist, start, layer, ef, includeDeleted, admit, out, visited)
    ensures forall x: nat :: x < |links| ==>
              (Scored(dist(x), x) in out <==> Admits(deleted, includeDeleted, admit, x) && Reachable(links, layer, start, x))
  {
    DistinctCard(out);
    var found := set s | s in out;
    assert forall d :: !Full(found, ef, d);
    forall x: nat | x < |links| && Reachable(links, layer, start, x) ensures x in visited {
      var p :| IsPath(links, layer, p) && p[0] == start && p[|p| - 1] == x;
      assert forall y :: y in visited ==> NbrsIn(links, layer, y, visited);
      ReachClosed(links, layer, visited, p);
    }
  }

  /** An admitted node the beam visited is in its output, or the output is full of nodes no farther. */
  lemma VisitedOrFull(links: Links, deleted: seq<bool>, dist: nat -> real, start: nat, layer: nat, ef: nat,
                      includeDeleted: bool, admit: nat -> bool, out: seq<Scored>, visited: set<nat>, x: nat)
    requires |deleted| == |links| && x < |links| && x in visited && Admits(deleted, includeDeleted, admit, x)
    requires BeamResult(links, deleted, dist, start, layer, ef, includeDeleted, admit, out, visited)
    ensures Scored(dist(x), x) in out || (|out| >= ef && forall s :: s in out ==> s.dist <= dist(x))
  {
    DistinctCard(out);
    var found := set s | s in out;
    if Scored(dist(x), x) !in out {
      assert Full(found, ef, dist(x));
      assert forall s :: s in out ==> s in found;
    }
  }

  /** The head of a beam that admits everything is a nearest of all it visited. */
  lemma BeamHeadNearest(links: Links, deleted: seq<bool>, dist: nat -> real, start: nat, layer: nat, ef: nat,
                        out: seq<Scored>, visited: set<nat>)
    requires |deleted| == |links| && start < |links|
    requires BeamResult(links, deleted, dist, start, layer, ef, true, Anyone, out, visited)
    ensures out != [] && forall x :: x in visited ==> x < |links| && out[0].dist <= dist(x)
  {
    forall x | x in visited ensures x < |links| && out[0].dist <= dist(x) {
      VisitedOrFull(links, deleted, dist, start, layer, ef, true, Anyone, out, visited, x);
      if Scored(dist(x), x) in out {
        var i: nat :| i < |out| && out[i] == Scored(dist(x), x);
      } else {
        assert out[0] in out;
      }
    }
  }

  /** With a beam as wide as the graph, the answer is exactly the admitted reachable nodes. */
  lemma BeamExhaustive(links: Links, deleted: seq<bool>, dist: nat -> real, start: nat, layer: nat,
                       ef: nat, includeDeleted: bool, admit: nat -> bool, out: seq<Scored>, visited: set<nat>)
    requires |deleted| == |links| <= ef && start < |links|
    requires BeamResult(links, deleted, dist, start, layer, ef, includeDeleted, admit, out, visited)
    ensures forall x: nat :: x < |links| ==>
              (Scored(dist(x), x) in out <==> Admits(deleted, includeDeleted, admit, x) && Reachable(links, layer, start, x))
  {
    DistinctCard(out);
    if |out| >= ef {
      FullIsEverything(|links|, out, ef);
      forall x: nat | x < |links| ensures Scored(dist(x), x) in out {
        assert x in NodeSet(out);
      }
    } else {
      ShortBeamSawAll(links, deleted, dist, start, layer, ef, includeDeleted, admit, out, visited);
    }
  }
}
