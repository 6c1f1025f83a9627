/**
 * Rankings of scored ids: score descending, ties by id ascending, cut to the best `k`. A ranking of
 * a set is unique, order included, so two methods that return one return the same answer.
 */
module Ranking {
  import opened ByteStrings
  import opened Sets

  type Id = Bytes

  type Hit = (Id, real)

  /** `b.1.total_cmp(&a.1).then_with(|| a.0.cmp(&b.0))` puts `a` no later than `b`. */
  predicate Before(a: Hit, b: Hit) {
    a.1 > b.1 || (a.1 == b.1 && LexLe(a.0, b.0))
  }

  lemma BeforeTotal(a: Hit, b: Hit)
    ensures Before(a, b) || Before(b, a)
  {
    LexTotal(a.0, b.0);
  }

  lemma BeforeAntisym(a: Hit, b: Hit)
    requires Before(a, b) && Before(b, a)
    ensures a == b
  {
    LexAntisym(a.0, b.0);
  }

  lemma BeforeTrans(a: Hit, b: Hit, c: Hit)
    requires Before(a, b) && Before(b, c)
    ensures Before(a, c)
  {
    if a.1 == b.1 == c.1 {
      LexTrans(a.0, b.0, c.0);
    }
  }

  /** Ranked best first, without repetition. */
  ghost predicate Ranked(r: seq<Hit>) {
    forall i: nat, j: nat :: i < j < |r| ==> Before(r[i], r[j]) && r[i] != r[j]
  }

  /** `r` is the ranking of the best `k` of `items`. */
  ghost predicate IsTop(r: seq<Hit>, items: set<Hit>, k: nat) {
    && Ranked(r)
    && (forall h :: h in r ==> h in items)
    && |r| <= k
    && (forall h :: h in items && h !in r ==> |r| == k && forall g :: g in r ==> Before(g, h))
  }

  predicate Best(h: Hit, items: set<Hit>) {
    h in items && forall g :: g in items ==> Before(h, g)
  }

  method PopBest(items: set<Hit>) returns (h: Hit)
    requires items != {}
    ensures h in items && forall g :: g in items ==> Before(h, g)
  {
    var a :| a in items;
    h := a;
    var todo := items - {a};
    LexRefl(a.0);
    assert Best(h, items - todo);
    while todo != {}
      invariant todo <= items && Best(h, items - todo)
      decreases |todo|
    {
      var g :| g in todo;
      BetterOf(h, g, items - todo);
      assert items - (todo - {g}) == items - todo + {g};
      if !Before(h, g) {
        h := g;
      }
      todo := todo - {g};
    }
    assert items - todo == items;
  }

  /** The better of a set's best and one more hit is the best of both. */
  lemma BetterOf(h: Hit, g: Hit, seen: set<Hit>)
    requires Best(h, seen)
    ensures Best(if Before(h, g) then h else g, seen + {g})
  {
    hide LexLe;
    BeforeTotal(h, g);
    BeforeTotal(g, g);
    forall x | x in seen && !Before(h, g) ensures Before(g, x) {
      BeforeTrans(g, h, x);
    }
  }

  /** Sort a collection of distinct hits and cut it to `k`. */
  method SortAndCut(items: set<Hit>, k: nat) returns (r: seq<Hit>)
    ensures IsTop(r, items, k)
  {
    r := [];
    var rest := items;
    while rest != {} && |r| < k
      invariant rest <= items && |r| <= k
      invariant Ranked(r) && (forall h :: h in r ==> h in items && h !in rest)
      invariant forall h :: h in items ==> h in r || h in rest
      invariant forall g, h :: g in r && h in rest ==> Before(g, h)
      decreases rest
    {
      var h := PopBest(rest);
      r := r + [h];
      rest := rest - {h};
    }
  }

  ghost function SetOf(r: seq<Hit>): set<Hit> { set h | h in r }

  lemma {:induction false} RankedCard(r: seq<Hit>)
    requires Ranked(r)
    ensures |SetOf(r)| == |r|
    decreases |r|
  {
    if r != [] {
      var k := |r| - 1;
      RankedCard(r[..k]);
      assert r[k] !in r[..k];
      assert SetOf(r) == SetOf(r[..k]) + {r[k]};
    }
  }

  /** A ranking is determined by the set it ranks. */
  lemma {:induction false} RankedUnique(r: seq<Hit>, s: seq<Hit>)
    requires Ranked(r) && Ranked(s) && SetOf(r) == SetOf(s)
    ensures r == s
    decreases |r|
  {
    RankedCard(r);
    RankedCard(s);
    if r != [] {
      assert r[0] in SetOf(s) && s[0] in SetOf(r);
      if r[0] != s[0] {
        BeforeAntisym(r[0], s[0]);
      }
      forall h ensures h in SetOf(r[1..]) <==> h in SetOf(s[1..]) {
        assert h in r[1..] <==> h in SetOf(r) && h != r[0];
        assert h in s[1..] <==> h in SetOf(s) && h != s[0];
      }
      RankedUnique(r[1..], s[1..]);
      assert r == [r[0]] + r[1..] && s == [s[0]] + s[1..];
    }
  }

  lemma TopNotMissing(r: seq<Hit>, s: seq<Hit>, items: set<Hit>, k: nat, h: Hit)
    requires IsTop(r, items, k) && IsTop(s, items, k) && h in r
    ensures h in s
  {
    if h !in s {
      RankedCard(r);
      RankedCard(s);
      assert h in SetOf(r) && h !in SetOf(s) && |s| == k;
      if SetOf(s) <= SetOf(r) {
        SubsetCard(SetOf(s), SetOf(r));
        assert false;
      }
      var g :| g in SetOf(s) && g !in SetOf(r);
      BeforeAntisym(g, h);
    }
  }

  /** The best `k` of a set are uniquely determined, order included. */
  lemma TopUnique(r: seq<Hit>, s: seq<Hit>, items: set<Hit>, k: nat)
    requires IsTop(r, items, k) && IsTop(s, items, k)
    ensures r == s
  {
    forall h ensures h in SetOf(r) <==> h in SetOf(s) {
      if h in r { TopNotMissing(r, s, items, k, h); }
      if h in s { TopNotMissing(s, r, items, k, h); }
    }
    RankedUnique(r, s);
  }

  /** A ranking reads by falling score, and equal scores by id, bytewise ascending. */
  lemma RankedOrder(r: seq<Hit>, items: set<Hit>, k: nat, i: nat, j: nat)
    requires IsTop(r, items, k) && i < j < |r|
    ensures r[i].1 >= r[j].1
    ensures r[i].1 == r[j].1 ==> exists at: nat :: LessAt(r[i].0, r[j].0, at)
  {
    if r[i].1 == r[j].1 {
      LexLtIff(r[i].0, r[j].0);
    }
  }
}
