/**
 * Linking a fresh node.
 */
module GraphLinks {
  import opened GraphSearch
  import opened Diversity

  // The write side of the layered graph: a fresh node is connected layer by layer, and the neighbour lists that
  // overflow are pruned. `Attached` says what all layers together look like.

  /** The longest list a layer allows: `m`, twice that at layer 0. */
  function Cap(m: nat, layer: nat): nat { if layer == 0 then 2 * m else m }

  ghost predicate NoRepeats(ns: seq<nat>) {
    forall i: nat, j: nat :: i < j < |ns| ==> ns[i] != ns[j]
  }

  predicate Owns(links: Links, x: nat, layer: nat) {
    x < |links| && layer < |links[x]|
  }

  /** One list: short enough, repetition-free, never the node itself, only owners of the layer. */
  ghost predicate ListOk(links: Links, m: nat, x: nat, layer: nat)
    requires Owns(links, x, layer)
  {
    var ns := links[x][layer];
    && |ns| <= Cap(m, layer) && NoRepeats(ns)
    && forall y :: y in ns ==> y != x && Owns(links, y, layer)
  }

  ghost predicate LinksOk(links: Links, m: nat) {
    forall x: nat, layer: nat :: Owns(links, x, layer) ==> ListOk(links, m, x, layer)
  }

  lemma LinksInRange(links: Links, m: nat, layer: nat)
    requires LinksOk(links, m)
    ensures InRange(links, layer)
  {
    forall x: nat, i: nat | x < |links| && i < |Nbrs(links, x, layer)| ensures Nbrs(links, x, layer)[i] < |links| {
      assert Owns(links, x, layer) && ListOk(links, m, x, layer);
      assert Nbrs(links, x, layer)[i] in links[x][layer];
    }
  }

  ghost predicate SameShape(links: Links, links': Links) {
    && |links| == |links'|
    && forall x: nat :: x < |links| ==> |links[x]| == |links'[x]|
  }

  /** No list at `layer` mentions `node`. */
  ghost predicate Unlinked(links: Links, node: nat, layer: nat) {
    forall x: nat :: x < |links| ==> node !in Nbrs(links, x, layer)
  }

  /** A walk at a layer where nothing points to `node` stays on other owners of the layer. */
  lemma WalkAvoids(links: Links, m: nat, node: nat, layer: nat, from: nat, to: nat)
    requires LinksOk(links, m) && Unlinked(links, node, layer)
    requires Owns(links, from, layer) && from != node && Reachable(links, layer, from, to)
    ensures Owns(links, to, layer) && to != node
  {
    var p :| IsPath(links, layer, p) && p[0] == from && p[|p| - 1] == to;
    var all := set x | x in Below(|links|) && Owns(links, x, layer) && x != node;
    forall x: nat, i: nat | x in all && i < |Nbrs(links, x, layer)| ensures Nbrs(links, x, layer)[i] in all {
      assert ListOk(links, m, x, layer);
      assert Nbrs(links, x, layer)[i] in links[x][layer];
    }
    ReachClosed(links, layer, all, p);
  }

  /** Replace one list. */
  function SetList(links: Links, x: nat, layer: nat, ns: seq<nat>): Links
    requires Owns(links, x, layer)
  {
    links[x := links[x][layer := ns]]
  }

  lemma SetListOk(links: Links, m: nat, x: nat, layer: nat, ns: seq<nat>)
    requires LinksOk(links, m) && Owns(links, x, layer)
    requires |ns| <= Cap(m, layer) && NoRepeats(ns)
    requires forall y :: y in ns ==> y != x && Owns(links, y, layer)
    ensures LinksOk(SetList(links, x, layer, ns), m) && SameShape(links, SetList(links, x, layer, ns))
  {
    var links' := SetList(links, x, layer, ns);
    forall y: nat, l: nat | Owns(links', y, l) ensures ListOk(links', m, y, l) {
      assert Owns(links, y, l) && ListOk(links, m, y, l);
      assert forall z :: Owns(links, z, l) ==> Owns(links', z, l);
    }
  }

  function Nodes(s: seq<Scored>): (ns: seq<nat>)
    ensures |ns| == |s|
  {
    seq(|s|, i requires 0 <= i < |s| => s[i].node)
  }

  /** The neighbours of a list, each with its distance. */
  function Score(ns: seq<nat>, dist: nat -> real): set<Scored> {
    set x | x in ns :: Scored(dist(x), x)
  }

  lemma {:induction false} ScoreCard(ns: seq<nat>, dist: nat -> real)
    requires NoRepeats(ns)
    ensures |Score(ns, dist)| == |ns|
    decreases |ns|
  {
    if ns != [] {
      var t, last := ns[..|ns| - 1], ns[|ns| - 1];
      ScoreCard(t, dist);
      assert ns == t + [last];
      assert last !in t;
      assert Score(ns, dist) == Score(t, dist) + {Scored(dist(last), last)};
    }
  }

  /** The members of a list in the order pruning looks at them: nearest first by their own distances. */
  ghost predicate Ranked(cands: seq<Scored>, ns: seq<nat>, dist: nat -> real) {
    Sorted(cands) && DistinctNodes(cands) && |cands| == |ns| && forall s :: s in cands <==> s in Score(ns, dist)
  }

  /** `kept` is the selection heuristic's choice of `max` members of `ns`. */
  ghost predicate Pruned(ns: seq<nat>, kept: seq<nat>, max: nat, dist: nat -> real, pair: (nat, nat) -> real) {
    exists cands :: Ranked(cands, ns, dist) && kept == Nodes(SelectDiverse(cands, max, pair))
  }

  /** Re-select a neighbour list down to `max`: exactly `max` of its own members, the nearest among them. */
  method Prune(ns: seq<nat>, max: nat, dist: nat -> real, pair: (nat, nat) -> real) returns (kept: seq<nat>)
    requires NoRepeats(ns) && |ns| > max
    ensures |kept| == max && NoRepeats(kept) && forall y :: y in kept ==> y in ns
    ensures max > 0 ==> exists y :: y in kept && forall z :: z in ns ==> dist(y) <= dist(z)
    ensures Pruned(ns, kept, max, dist, pair)
  {
    ScoreCard(ns, dist);
    var cands := Drain(Score(ns, dist), dist);
    var chosen := Select(cands, max, pair);
    SelectFills(cands, max, pair);
    kept := Nodes(chosen);
    assert Ranked(cands, ns, dist);
    forall y | y in kept ensures y in ns {
      var i: nat :| i < |chosen| && chosen[i].node == y;
      assert chosen[i] in cands;
    }
    if max > 0 {
      assert kept[0] == cands[0].node;
      forall z | z in ns ensures dist(kept[0]) <= dist(z) {
        assert Scored(dist(z), z) in cands && cands[0] in cands;
      }
    }
  }

  /** What connecting `node` at `layer` may change. */
  ghost predicate Connected(links: Links, links': Links, node: nat, layer: nat, own: seq<nat>) {
    && SameShape(links, links')
    && (forall x: nat, l: nat :: Owns(links, x, l) && l != layer ==> links'[x][l] == links[x][l])
    && Owns(links, node, layer) && links'[node][layer] == own
    && (forall x: nat :: Owns(links, x, layer) && x !in own && x != node ==> links'[x][layer] == links[x][layer])
    && (forall x: nat, y :: Owns(links, x, layer) && x != node && y in links'[x][layer]
                            ==> y == node || y in links[x][layer])
  }

  /** What linking back to `node` makes of a neighbour's list: one entry longer, or at its cap and re-selected. */
  ghost predicate BackLinked(ns: seq<nat>, ns': seq<nat>, node: nat, cap: nat, dist: nat -> real, pair: (nat, nat) -> real) {
    if |ns| < cap then ns' == ns + [node] else |ns'| == cap && Pruned(ns + [node], ns', cap, dist, pair)
  }

  /** Every member of `own` links back. */
  ghost predicate LinkedBack(links: Links, links': Links, m: nat, node: nat, layer: nat, own: seq<nat>,
                             distFrom: nat -> nat -> real, pair: (nat, nat) -> real)
  {
    forall x :: x in own ==>
      Owns(links, x, layer) && Owns(links', x, layer)
      && BackLinked(links[x][layer], links'[x][layer], node, Cap(m, layer), distFrom(x), pair)
  }

  /**
   * Link `node` and each chosen neighbour to one another at `layer`, pruning any
   * neighbour list that overflows. `distFrom(nb)` is the distance from `nb`'s own vector.
   */
  method Connect(links: Links, m: nat, node: nat, layer: nat, chosen: seq<nat>,
                 distFrom: nat -> nat -> real, pair: (nat, nat) -> real)
    returns (links': Links)
    requires LinksOk(links, m) && Owns(links, node, layer) && links[node][layer] == []
    requires Unlinked(links, node, layer)
    requires |chosen| <= m && NoRepeats(chosen)
    requires forall y :: y in chosen ==> y != node && Owns(links, y, layer)
    ensures LinksOk(links', m) && Connected(links, links', node, layer, chosen)
    ensures LinkedBack(links, links', m, node, layer, chosen, distFrom, pair)
  {
    hide LinksOk, BackLinked;
    links' := links;
    assert Connected(links, links', node, layer, chosen[..0]);
    for j := 0 to |chosen|
      invariant LinksOk(links', m) && Connected(links, links', node, layer, chosen[..j])
      invariant LinkedBack(links, links', m, node, layer, chosen[..j], distFrom, pair)
    {
      var nb := chosen[j];
      assert chosen[..j + 1] == chosen[..j] + [nb];
      assert nb in chosen && nb !in chosen[..j];
      links' := ConnectOne(links, links', m, node, layer, chosen[..j], nb, distFrom, pair);
    }
    assert chosen[..|chosen|] == chosen;
  }

  /** Link `node` and one more neighbour to each other. */
  method ConnectOne(ghost links0: Links, links: Links, m: nat, node: nat, layer: nat, own: seq<nat>, nb: nat,
                    distFrom: nat -> nat -> real, pair: (nat, nat) -> real)
    returns (links': Links)
    requires LinksOk(links0, m) && Unlinked(links0, node, layer)
    requires LinksOk(links, m) && Connected(links0, links, node, layer, own)
    requires LinkedBack(links0, links, m, node, layer, own, distFrom, pair)
    requires |own| < m && nb !in own && node !in own + [nb] && Owns(links0, nb, layer)
    ensures LinksOk(links', m) && Connected(links0, links', node, layer, own + [nb])
    ensures LinkedBack(links0, links', m, node, layer, own + [nb], distFrom, pair)
  {
    NewNeighbour(links0, links, m, node, layer, own, nb);
    hide LinksOk, Pruned, Connected, LinkedBack, Unlinked;
    links' := LinkOwn(links, m, node, layer, own, nb);
    var theirs := links'[nb][layer] + [node];
    if |theirs| > Cap(m, layer) {
      theirs := Prune(theirs, Cap(m, layer), distFrom(nb), pair);
    }
    SetListOk(links', m, nb, layer, theirs);
    ConnectsOne(links0, links, SetList(links', nb, layer, theirs), node, layer, own, nb, theirs);
    BacksStay(links0, links, SetList(links', nb, layer, theirs), m, node, layer, own, nb, distFrom, pair);
    links' := SetList(links', nb, layer, theirs);
  }

  lemma NewNeighbour(links0: Links, links: Links, m: nat, node: nat, layer: nat, own: seq<nat>, nb: nat)
    requires LinksOk(links, m) && Connected(links0, links, node, layer, own) && Unlinked(links0, node, layer)
    requires nb !in own && nb != node && Owns(links0, nb, layer)
    ensures Owns(links, nb, layer) && Owns(links, node, layer) && links[node][layer] == own
    ensures links[nb][layer] == links0[nb][layer] && |links[nb][layer]| <= Cap(m, layer)
    ensures NoRepeats(links[nb][layer] + [node]) && forall y :: y in links[nb][layer] ==> y != nb && Owns(links, y, layer)
  {
    assert Owns(links, nb, layer);
    assert ListOk(links, m, nb, layer) && links[nb][layer] == links0[nb][layer];
    assert node !in Nbrs(links0, nb, layer);
  }

  lemma ConnectsOne(links0: Links, links: Links, links': Links, node: nat, layer: nat, own: seq<nat>, nb: nat, theirs: seq<nat>)
    requires Connected(links0, links, node, layer, own) && nb !in own && nb != node && Owns(links0, nb, layer)
    requires Owns(links, node, layer) && Owns(SetList(links, node, layer, own + [nb]), nb, layer)
    requires links' == SetList(SetList(links, node, layer, own + [nb]), nb, layer, theirs)
    requires forall y :: y in theirs ==> y == node || y in links0[nb][layer]
    ensures Connected(links0, links', node, layer, own + [nb])
    ensures |links| == |links'| && forall x: nat :: x < |links| && x != node && x != nb ==> links'[x] == links[x]
  {
  }

  /** Neighbours already linked back stay so while another one is. */
  lemma BacksStay(links0: Links, links: Links, links': Links, m: nat, node: nat, layer: nat, own: seq<nat>, nb: nat,
                  distFrom: nat -> nat -> real, pair: (nat, nat) -> real)
    requires LinkedBack(links0, links, m, node, layer, own, distFrom, pair)
    requires |links| == |links'| && forall x: nat :: x < |links| && x != node && x != nb ==> links'[x] == links[x]
    requires node !in own && nb !in own
    requires Owns(links0, nb, layer) && Owns(links', nb, layer)
    requires BackLinked(links0[nb][layer], links'[nb][layer], node, Cap(m, layer), distFrom(nb), pair)
    ensures LinkedBack(links0, links', m, node, layer, own + [nb], distFrom, pair)
  {
    hide BackLinked;
  }

  /** `links[node][layer].push(nb)`. */
  function LinkOwn(links: Links, m: nat, node: nat, layer: nat, own: seq<nat>, nb: nat): (links': Links)
    requires LinksOk(links, m) && Owns(links, node, layer) && links[node][layer] == own
    requires |own| < m && nb !in own && nb != node && Owns(links, nb, layer)
    ensures LinksOk(links', m) && links' == SetList(links, node, layer, own + [nb])
  {
    assert ListOk(links, m, node, layer);
    SetListOk(links, m, node, layer, own + [nb]);
    SetList(links, node, layer, own + [nb])
  }

  // ---- a fresh node at all its layers ---------------------------------------------

  /** What linking a node goes by: the tuning, the liveness flags, and the distances it measures. */
  datatype Build = Build(m: nat, ef: nat, deleted: seq<bool>, dist: nat -> real, from: nat -> nat -> real,
                         pair: (nat, nat) -> real)

  /** Where the beam of a layer starts: at the end of the descent, below that at the head of the list one layer up. */
  ghost predicate StartsAt(links: Links, links': Links, b: Build, node: nat, entry: nat, top: nat, level: nat, layer: nat,
                           start: nat)
    requires layer <= level && layer <= top && node < |links'|
    decreases top - layer
  {
    if layer == level || layer == top then DescendsTo(links, b.dist, top, layer, entry, start)
    else
      var above := layer + 1;
      var own := Nbrs(links', node, above);
      if own != [] then start == own[0] else StartsAt(links, links', b, node, entry, top, level, above, start)
  }

  /** The node's list at one layer is the heuristic's choice among what the beam found there; each member links back. */
  ghost predicate LinkedAt(links: Links, links': Links, b: Build, node: nat, layer: nat, start: nat, found: seq<Scored>,
                           seen: set<nat>)
  {
    && |b.deleted| == |links| && start < |links|
    && BeamResult(links, b.deleted, b.dist, start, layer, b.ef, true, Anyone, found, seen)
    && Owns(links', node, layer) && links'[node][layer] == Nodes(SelectDiverse(found, b.m, b.pair))
    && LinkedBack(links, links', b.m, node, layer, links'[node][layer], b.from, b.pair)
    && node !in links'[node][layer]
    && forall x: nat :: Owns(links, x, layer) && x != node && x !in links'[node][layer] ==>
         Owns(links', x, layer) && links'[x][layer] == links[x][layer]
  }

  ghost predicate AttachedAt(links: Links, links': Links, b: Build, node: nat, entry: nat, top: nat, level: nat, layer: nat)
    requires layer <= level && layer <= top && node < |links'|
  {
    exists start: nat, found, seen ::
      StartsAt(links, links', b, node, entry, top, level, layer, start)
      && LinkedAt(links, links', b, node, layer, start, found, seen)
  }

  /** The two graphs have the same lists at the layers from `layer` up. */
  ghost predicate SameFrom(links: Links, links': Links, layer: nat) {
    SameShape(links, links') && forall x: nat, l: nat :: Owns(links, x, l) && l >= layer ==> links'[x][l] == links[x][l]
  }

  /** ... and at the layers below `layer`. */
  ghost predicate SameBelow(links: Links, links': Links, layer: nat) {
    SameShape(links, links') && forall x: nat, l: nat :: Owns(links, x, l) && l < layer ==> links'[x][l] == links[x][l]
  }

  /** ... and at the layers the node does not share with the rest. */
  ghost predicate SameOutside(links: Links, links': Links, level: nat, top: nat) {
    SameShape(links, links') &&
    forall x: nat, l: nat :: Owns(links, x, l) && (l > level || l > top) ==> links'[x][l] == links[x][l]
  }

  /** The lists of the other nodes gain no member but `node`. */
  ghost predicate GainsOnly(links: Links, links': Links, node: nat) {
    SameShape(links, links') &&
    forall x: nat, l: nat, y :: Owns(links, x, l) && x != node && y in links'[x][l] ==> y == node || y in links[x][l]
  }

  /** From the unlinked `links`, `node` is linked at every layer it shares with the rest, and nothing else changes. */
  ghost predicate Attached(links: Links, links': Links, b: Build, node: nat, entry: nat, top: nat, level: nat) {
    && SameShape(links, links') && node < |links'|
    && (forall layer: nat :: layer <= level && layer <= top ==> AttachedAt(links, links', b, node, entry, top, level, layer))
    && SameOutside(links, links', level, top)
  }

  /** A beam sees only its own layer. */
  lemma BeamSameLayer(links: Links, links': Links, b: Build, layer: nat, start: nat, found: seq<Scored>, seen: set<nat>)
    requires |links| == |links'| == |b.deleted|
    requires forall x: nat :: x < |links| ==> Nbrs(links, x, layer) == Nbrs(links', x, layer)
    requires BeamResult(links', b.deleted, b.dist, start, layer, b.ef, true, Anyone, found, seen)
    ensures BeamResult(links, b.deleted, b.dist, start, layer, b.ef, true, Anyone, found, seen)
  {
    forall x | x in seen ensures Reachable(links, layer, start, x) {
      var p :| IsPath(links', layer, p) && p[0] == start && p[|p| - 1] == x;
      assert IsPath(links, layer, p);
    }
    forall x | x in seen ensures NbrsIn(links, layer, x, seen) == NbrsIn(links', layer, x, seen) {
    }
  }

  lemma SameLists(links: Links, links': Links, layer: nat)
    requires SameBelow(links, links', layer + 1)
    ensures forall x: nat :: x < |links| ==> Nbrs(links, x, layer) == Nbrs(links', x, layer)
    ensures forall x: nat :: Owns(links, x, layer) ==> Owns(links', x, layer) && links'[x][layer] == links[x][layer]
  {
    forall x: nat | x < |links| ensures Nbrs(links, x, layer) == Nbrs(links', x, layer) {
      if layer < |links[x]| { assert Owns(links, x, layer); }
    }
  }

  /** Linking one layer down leaves a linked layer as it is. */
  lemma {:induction false} StartsStay(links: Links, ls: Links, ls': Links, b: Build, node: nat, entry: nat, top: nat,
                                      level: nat, layer: nat, start: nat)
    requires layer <= level && layer <= top && node < |ls| == |ls'| && SameFrom(ls, ls', layer + 1)
    requires StartsAt(links, ls, b, node, entry, top, level, layer, start)
    ensures StartsAt(links, ls', b, node, entry, top, level, layer, start)
    decreases top - layer
  {
    if layer != level && layer != top {
      var above := layer + 1;
      assert Nbrs(ls, node, above) == Nbrs(ls', node, above) by {
        if above < |ls[node]| { assert Owns(ls, node, above); }
      }
      if Nbrs(ls, node, above) == [] {
        StartsStay(links, ls, ls', b, node, entry, top, level, above, start);
      }
    }
  }

  lemma LinkedStays(links: Links, ls: Links, ls': Links, b: Build, node: nat, layer: nat, start: nat, found: seq<Scored>,
                    seen: set<nat>)
    requires SameShape(links, ls) && SameFrom(ls, ls', layer) && LinkedAt(links, ls, b, node, layer, start, found, seen)
    ensures LinkedAt(links, ls', b, node, layer, start, found, seen)
  {
    hide BeamResult, SelectDiverse, BackLinked;
    assert forall x: nat :: Owns(ls, x, layer) ==> Owns(ls', x, layer) && ls'[x][layer] == ls[x][layer];
  }

  lemma AttachedStays(links: Links, ls: Links, ls': Links, b: Build, node: nat, entry: nat, top: nat, level: nat, layer: nat)
    requires layer <= level && layer <= top && node < |ls| == |ls'| && SameShape(links, ls) && SameFrom(ls, ls', layer)
    requires AttachedAt(links, ls, b, node, entry, top, level, layer)
    ensures AttachedAt(links, ls', b, node, entry, top, level, layer)
  {
    hide LinkedAt, StartsAt;
    var start: nat, found, seen :|
      StartsAt(links, ls, b, node, entry, top, level, layer, start) && LinkedAt(links, ls, b, node, layer, start, found, seen);
    StartsStay(links, ls, ls', b, node, entry, top, level, layer, start);
    LinkedStays(links, ls, ls', b, node, layer, start, found, seen);
  }

  /** Connecting the layer the beam just searched links it in the sense of the unlinked graph. */
  lemma LinkedNow(links: Links, ls: Links, ls': Links, b: Build, node: nat, layer: nat, start: nat, found: seq<Scored>,
                  seen: set<nat>, chosen: seq<nat>)
    requires SameBelow(links, ls, layer + 1) && |links| == |b.deleted| && start < |links|
    requires BeamResult(ls, b.deleted, b.dist, start, layer, b.ef, true, Anyone, found, seen)
    requires chosen == Nodes(SelectDiverse(found, b.m, b.pair)) && node !in chosen
    requires Connected(ls, ls', node, layer, chosen) && LinkedBack(ls, ls', b.m, node, layer, chosen, b.from, b.pair)
    ensures LinkedAt(links, ls', b, node, layer, start, found, seen)
  {
    SameLists(links, ls, layer);
    BeamSameLayer(links, ls, b, layer, start, found, seen);
    hide BeamResult, SelectDiverse, BackLinked;
    assert forall x: nat :: Owns(ls, x, layer) <==> Owns(links, x, layer);
  }

  /** Linked at a layer of a graph that was not empty there, the node has neighbours, led by a nearest of all the beam visited. */
  lemma AttachedReads(links: Links, links': Links, b: Build, node: nat, entry: nat, top: nat, level: nat, layer: nat)
    requires layer <= level && layer <= top && node < |links'| && |b.deleted| == |links| && b.m > 0
    requires AttachedAt(links, links', b, node, entry, top, level, layer)
    ensures Owns(links', node, layer) && links'[node][layer] != [] && LedByNearest(links, links', b, node, layer)
    ensures forall nb :: nb in links'[node][layer] ==>
              && nb != node && Owns(links, nb, layer) && Owns(links', nb, layer)
              && var cap := if layer == 0 then 2 * b.m else b.m;
                 if |links[nb][layer]| < cap then links'[nb][layer] == links[nb][layer] + [node]
                 else |links'[nb][layer]| == cap
  {
    var start: nat, found, seen :|
      StartsAt(links, links', b, node, entry, top, level, layer, start) && LinkedAt(links, links', b, node, layer, start, found, seen);
    hide StartsAt;
    HeadOf(links, b, layer, start, found, seen);
    hide BeamResult, SelectDiverse, Pruned;
    assert LedBy(links, b, layer, start, found, seen, links'[node][layer][0]);
  }

  /** `head` is a nearest of the nodes a construction beam from `start` visited. */
  ghost predicate LedBy(links: Links, b: Build, layer: nat, start: nat, found: seq<Scored>, seen: set<nat>, head: nat) {
    && |b.deleted| == |links|
    && BeamResult(links, b.deleted, b.dist, start, layer, b.ef, true, Anyone, found, seen)
    && head in seen && forall x :: x in seen ==> b.dist(head) <= b.dist(x)
  }

  ghost predicate LedByNearest(links: Links, links': Links, b: Build, node: nat, layer: nat)
    requires Owns(links', node, layer) && links'[node][layer] != []
  {
    exists start: nat, found, seen :: LedBy(links, b, layer, start, found, seen, links'[node][layer][0])
  }

  lemma HeadOf(links: Links, b: Build, layer: nat, start: nat, found: seq<Scored>, seen: set<nat>)
    requires |b.deleted| == |links| && start < |links| && b.m > 0
    requires BeamResult(links, b.deleted, b.dist, start, layer, b.ef, true, Anyone, found, seen)
    ensures found != [] && SelectDiverse(found, b.m, b.pair) != []
    ensures LedBy(links, b, layer, start, found, seen, SelectDiverse(found, b.m, b.pair)[0].node)
  {
    BeamHeadNearest(links, b.deleted, b.dist, start, layer, b.ef, found, seen);
    SelectFills(found, b.m, b.pair);
    assert found[0] in found;
  }
}
