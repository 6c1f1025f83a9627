/**
 * Neighbour selection.
 */
module Diversity {
  import opened GraphSearch
  import opened Sets

  // A candidate is kept only if it is closer to the query than to every neighbour already kept; the
  // rest is padded with the nearest remaining candidates.

  /** Some kept neighbour is closer to the candidate than the query is. */
  predicate Dominated(kept: seq<Scored>, c: Scored, pair: (nat, nat) -> real) {
    exists i: nat :: i < |kept| && pair(c.node, kept[i].node) < c.dist
  }

  predicate HasNode(kept: seq<Scored>, node: nat) {
    exists i: nat :: i < |kept| && kept[i].node == node
  }

  /** The diverse neighbours kept from the first `i` candidates. */
  function Diverse(cands: seq<Scored>, i: nat, m: nat, pair: (nat, nat) -> real): seq<Scored>
    requires i <= |cands|
  {
    if i == 0 then []
    else
      var kept := Diverse(cands, i - 1, m, pair);
      if |kept| >= m || Dominated(kept, cands[i - 1], pair) then kept else kept + [cands[i - 1]]
  }

  /** `kept` padded, up to `m`, with the first `i` candidates it misses. */
  function Padded(kept: seq<Scored>, cands: seq<Scored>, i: nat, m: nat): seq<Scored>
    requires i <= |cands|
  {
    if i == 0 then kept
    else
      var r := Padded(kept, cands, i - 1, m);
      if |r| >= m || HasNode(r, cands[i - 1].node) then r else r + [cands[i - 1]]
  }

  function SelectDiverse(cands: seq<Scored>, m: nat, pair: (nat, nat) -> real): seq<Scored> {
    Padded(Diverse(cands, |cands|, m, pair), cands, |cands|, m)
  }

  method Select(cands: seq<Scored>, m: nat, pair: (nat, nat) -> real) returns (kept: seq<Scored>)
    ensures kept == SelectDiverse(cands, m, pair)
  {
    kept := [];
    var i := 0;
    while i < |cands| && |kept| < m
      invariant 0 <= i <= |cands|
      invariant kept == Diverse(cands, i, m, pair)
    {
      if !Dominated(kept, cands[i], pair) {
        kept := kept + [cands[i]];
      }
      i := i + 1;
    }
    DiverseStops(cands, i, m, pair);
    ghost var base := kept;
    if |kept| < m {
      i := 0;
      while i < |cands| && |kept| < m
        invariant 0 <= i <= |cands|
        invariant kept == Padded(base, cands, i, m)
      {
        if !HasNode(kept, cands[i].node) {
          kept := kept + [cands[i]];
        }
        i := i + 1;
      }
      PaddedStops(base, cands, i, |cands|, m);
    } else {
      PaddedStops(base, cands, 0, |cands|, m);
    }
  }

  lemma {:induction false} DiverseStops(cands: seq<Scored>, i: nat, m: nat, pair: (nat, nat) -> real)
    requires i <= |cands| && (i == |cands| || |Diverse(cands, i, m, pair)| >= m)
    ensures Diverse(cands, |cands|, m, pair) == Diverse(cands, i, m, pair)
    decreases |cands| - i
  {
    if i < |cands| {
      DiverseStops(cands, i + 1, m, pair);
    }
  }

  lemma {:induction false} PaddedStops(kept: seq<Scored>, cands: seq<Scored>, i: nat, n: nat, m: nat)
    requires i <= n <= |cands| && (i == n || |Padded(kept, cands, i, m)| >= m)
    ensures Padded(kept, cands, n, m) == Padded(kept, cands, i, m)
    decreases n - i
  {
    if i < n {
      PaddedStops(kept, cands, i + 1, n, m);
    }
  }

  // ---- what the selection guarantees ----------------------------------------------

  lemma {:induction false} DiverseFrom(cands: seq<Scored>, i: nat, m: nat, pair: (nat, nat) -> real)
    requires i <= |cands| && DistinctNodes(cands)
    ensures var kept := Diverse(cands, i, m, pair);
            && |kept| <= m && DistinctNodes(kept)
            && (forall s :: s in kept ==> s in cands[..i])
            && (m > 0 && i > 0 ==> kept != [] && kept[0] == cands[0])
  {
    if i > 0 {
      DiverseFrom(cands, i - 1, m, pair);
      var kept := Diverse(cands, i - 1, m, pair);
      assert cands[..i] == cands[..i - 1] + [cands[i - 1]];
      forall j: nat | j < |kept| ensures kept[j].node != cands[i - 1].node {
        assert kept[j] in cands[..i - 1];
      }
    }
  }

  /** Every kept neighbour is at least as close to the query as to each neighbour kept before it. */
  ghost predicate PairwiseDiverse(kept: seq<Scored>, pair: (nat, nat) -> real) {
    forall a: nat, b: nat :: a < b < |kept| ==> kept[b].dist <= pair(kept[b].node, kept[a].node)
  }

  lemma {:induction false} DiverseIsDiverse(cands: seq<Scored>, i: nat, m: nat, pair: (nat, nat) -> real)
    requires i <= |cands|
    ensures PairwiseDiverse(Diverse(cands, i, m, pair), pair)
  {
    if i > 0 {
      DiverseIsDiverse(cands, i - 1, m, pair);
      var kept, c := Diverse(cands, i - 1, m, pair), cands[i - 1];
      if !Dominated(kept, c, pair) {
        forall a: nat, b: nat | a < b < |kept + [c]|
          ensures (kept + [c])[b].dist <= pair((kept + [c])[b].node, (kept + [c])[a].node)
        {
          assert (kept + [c])[a] == kept[a];
        }
      }
    }
  }

  lemma {:induction false} PaddedFrom(kept: seq<Scored>, cands: seq<Scored>, i: nat, m: nat)
    requires i <= |cands| && DistinctNodes(kept) && |kept| <= m
    ensures var r := Padded(kept, cands, i, m);
            && kept <= r && |r| <= m && DistinctNodes(r)
            && (forall s :: s in r ==> s in kept || s in cands[..i])
            && (|r| < m ==> forall j: nat :: j < i ==> HasNode(r, cands[j].node))
  {
    if i > 0 {
      PaddedFrom(kept, cands, i - 1, m);
      assert cands[..i] == cands[..i - 1] + [cands[i - 1]];
      var r0, r := Padded(kept, cands, i - 1, m), Padded(kept, cands, i, m);
      if |r| < m {
        forall j: nat | j < i ensures HasNode(r, cands[j].node) {
          if j < i - 1 {
            assert HasNode(r0, cands[j].node);
            var k: nat :| k < |r0| && r0[k].node == cands[j].node;
            assert r[k].node == cands[j].node;
          } else if r != r0 {
            assert r[|r| - 1] == cands[j];
          }
        }
      }
    }
  }

  /** A candidate the heuristic passes over is closer to some kept neighbour than to the query, or came after `m` were kept. */
  lemma {:induction false} DiverseMaximal(cands: seq<Scored>, i: nat, m: nat, pair: (nat, nat) -> real, j: nat)
    requires j < i <= |cands|
    ensures var kept := Diverse(cands, i, m, pair);
            || cands[j] in kept
            || (exists s :: s in kept && pair(cands[j].node, s.node) < cands[j].dist)
            || (|kept| >= m && forall s :: s in kept ==> s in cands[..j])
  {
    var kept0, kept := Diverse(cands, i - 1, m, pair), Diverse(cands, i, m, pair);
    if j < i - 1 {
      DiverseMaximal(cands, i - 1, m, pair, j);
    } else if |kept0| >= m {
      DiverseKept(cands, j, m, pair);
    } else if Dominated(kept0, cands[j], pair) {
      var a: nat :| a < |kept0| && pair(cands[j].node, kept0[a].node) < cands[j].dist;
      assert kept0[a] in kept;
    }
  }

  lemma {:induction false} DiverseKept(cands: seq<Scored>, i: nat, m: nat, pair: (nat, nat) -> real)
    requires i <= |cands|
    ensures forall s :: s in Diverse(cands, i, m, pair) ==> s in cands[..i]
  {
    if i > 0 {
      DiverseKept(cands, i - 1, m, pair);
      assert cands[..i] == cands[..i - 1] + [cands[i - 1]];
    }
  }

  /** Padding takes the nearest of what was passed over: whatever it leaves out is no closer than anything it added. */
  lemma {:induction false} PaddedNearest(kept: seq<Scored>, cands: seq<Scored>, i: nat, m: nat, j: nat, k: nat)
    requires j < i <= |cands| && Sorted(cands)
    requires var r := Padded(kept, cands, i, m); !HasNode(r, cands[j].node) && |kept| <= k < |r|
    ensures Padded(kept, cands, i, m)[k].dist <= cands[j].dist
  {
    var r0 := Padded(kept, cands, i - 1, m);
    PaddedGrows(kept, cands, i, m, cands[j].node);
    if j == i - 1 {
      PaddedNear(kept, cands, j, m, k);
    } else if k < |r0| {
      PaddedNearest(kept, cands, i - 1, m, j, k);
    } else {
      PaddedStays(kept, cands, j, i - 1, m);
    }
  }

  lemma PaddedGrows(kept: seq<Scored>, cands: seq<Scored>, i: nat, m: nat, node: nat)
    requires 0 < i <= |cands|
    ensures var r0, r := Padded(kept, cands, i - 1, m), Padded(kept, cands, i, m);
            (HasNode(r0, node) ==> HasNode(r, node)) && (r != r0 ==> HasNode(r, cands[i - 1].node) && r == r0 + [cands[i - 1]])
  {
    var r0, r := Padded(kept, cands, i - 1, m), Padded(kept, cands, i, m);
    if HasNode(r0, node) {
      var a: nat :| a < |r0| && r0[a].node == node;
      assert r[a].node == node;
    }
    if r != r0 {
      assert r[|r| - 1].node == cands[i - 1].node;
    }
  }

  lemma {:induction false} PaddedNear(kept: seq<Scored>, cands: seq<Scored>, i: nat, m: nat, k: nat)
    requires i < |cands| && Sorted(cands) && |kept| <= k < |Padded(kept, cands, i, m)|
    ensures Padded(kept, cands, i, m)[k].dist <= cands[i].dist
  {
    if i > 0 {
      var r0, r := Padded(kept, cands, i - 1, m), Padded(kept, cands, i, m);
      if k < |r0| {
        PaddedNear(kept, cands, i - 1, m, k);
      }
    }
  }

  /** A candidate still missing after it was looked at was looked at with the list full, and nothing follows. */
  lemma {:induction false} PaddedStays(kept: seq<Scored>, cands: seq<Scored>, j: nat, i: nat, m: nat)
    requires j < i <= |cands| && !HasNode(Padded(kept, cands, i, m), cands[j].node)
    ensures |Padded(kept, cands, i, m)| >= m
  {
    PaddedGrows(kept, cands, i, m, cands[j].node);
    if j < i - 1 {
      PaddedStays(kept, cands, j, i - 1, m);
    }
  }

  /**
   * The selection never under-fills: from distinct candidates it returns exactly
   * `min(m, |cands|)` distinct candidates, the diverse ones first, led by the nearest.
   */
  lemma SelectFills(cands: seq<Scored>, m: nat, pair: (nat, nat) -> real)
    requires DistinctNodes(cands)
    ensures var r := SelectDiverse(cands, m, pair);
            && |r| == (if m < |cands| then m else |cands|) && DistinctNodes(r)
            && (forall s :: s in r ==> s in cands)
            && Diverse(cands, |cands|, m, pair) <= r
            && (m > 0 && cands != [] ==> r != [] && r[0] == cands[0])
  {
    var kept := Diverse(cands, |cands|, m, pair);
    DiverseFrom(cands, |cands|, m, pair);
    PaddedFrom(kept, cands, |cands|, m);
    assert cands[..|cands|] == cands;
    var r := SelectDiverse(cands, m, pair);
    DistinctCard(r);
    DistinctCard(cands);
    assert NodeSet(r) <= NodeSet(cands);
    SubsetCard(NodeSet(r), NodeSet(cands));
    if |r| < m {
      forall x | x in NodeSet(cands) ensures x in NodeSet(r) {
        var j: nat :| j < |cands| && cands[j].node == x;
        assert HasNode(r, x);
        var k: nat :| k < |r| && r[k].node == x;
        assert r[k] in r;
      }
      assert NodeSet(r) == NodeSet(cands);
    }
  }

  lemma PassedOver(cands: seq<Scored>, m: nat, pair: (nat, nat) -> real, c: Scored)
    requires DistinctNodes(cands) && Sorted(cands) && c in cands
    ensures var kept := Diverse(cands, |cands|, m, pair);
            || c in kept
            || (exists s :: s in kept && pair(c.node, s.node) < c.dist)
            || (|kept| == m && forall s :: s in kept ==> s.dist <= c.dist)
  {
    hide Diverse;
    var kept := Diverse(cands, |cands|, m, pair);
    DiverseFrom(cands, |cands|, m, pair);
    var j: nat :| j < |cands| && cands[j] == c;
    DiverseMaximal(cands, |cands|, m, pair, j);
    forall s | s in kept && s in cands[..j] ensures s.dist <= c.dist {
      var a: nat :| a < j && cands[a] == s;
    }
  }

  lemma LeftOut(cands: seq<Scored>, m: nat, pair: (nat, nat) -> real, c: Scored)
    requires DistinctNodes(cands) && Sorted(cands) && c in cands
    ensures var kept, r := Diverse(cands, |cands|, m, pair), SelectDiverse(cands, m, pair);
            c !in r ==> |r| == m && forall k: nat :: |kept| <= k < |r| ==> r[k].dist <= c.dist
  {
    hide Diverse, Padded, HasNode;
    var kept, r := Diverse(cands, |cands|, m, pair), SelectDiverse(cands, m, pair);
    SelectFills(cands, m, pair);
    if c !in r {
      NotAmong(cands, r, c);
      var j: nat :| j < |cands| && cands[j] == c;
      PaddedStays(kept, cands, j, |cands|, m);
      forall k: nat | |kept| <= k < |r| ensures r[k].dist <= c.dist {
        PaddedNearest(kept, cands, |cands|, m, j, k);
      }
    }
  }

  lemma NotAmong(cands: seq<Scored>, r: seq<Scored>, c: Scored)
    requires DistinctNodes(cands) && c in cands && c !in r && forall s :: s in r ==> s in cands
    ensures !HasNode(r, c.node)
  {
    forall a: nat | a < |r| ensures r[a].node != c.node {
      assert r[a] in r && r[a] in cands;
    }
  }

  /**
   * Which candidates the selection takes. The diverse ones come first: no two of them closer to each other than the
   * later is to the query, and a candidate is passed over only for a kept neighbour closer to it than the query, or
   * because `m` nearer ones were kept. The rest are the nearest of what was passed over.
   */
  lemma SelectHeuristic(cands: seq<Scored>, m: nat, pair: (nat, nat) -> real, c: Scored)
    requires DistinctNodes(cands) && Sorted(cands) && c in cands
    ensures var kept, r := Diverse(cands, |cands|, m, pair), SelectDiverse(cands, m, pair);
            && PairwiseDiverse(kept, pair) && kept <= r
            && (c !in kept ==>
                  || (exists s :: s in kept && pair(c.node, s.node) < c.dist)
                  || (|kept| == m && forall s :: s in kept ==> s.dist <= c.dist))
            && (c !in r ==> |r| == m && forall k: nat :: |kept| <= k < |r| ==> r[k].dist <= c.dist)
  {
    hide Diverse, SelectDiverse, PairwiseDiverse;
    DiverseIsDiverse(cands, |cands|, m, pair);
    SelectFills(cands, m, pair);
    PassedOver(cands, m, pair, c);
    LeftOut(cands, m, pair, c);
  }
}
