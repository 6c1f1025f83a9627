/**
 * Replication over the changefeed.
 */
module Replication {
  import opened Wrappers

  // A follower polls feed entries from its cursor, and the leader resolves each to its record at
  // read time.

  /** The dense record: the vector row and the document row, read separately. */
  datatype Record<V, D> = Record(vec: V, doc: D)

  datatype ChangeOp = Upsert | Remove

  datatype Change<Id> = Change(op: ChangeOp, id: Id)

  datatype Entry<Id, V, D> = Entry(op: ChangeOp, id: Id, record: Option<Record<V, D>>)

  function Clamp(i: nat, n: nat): nat { if i < n then i else n }

  /** `changes(since, limit)`: the feed rows from `since`, oldest first. Row `i` has sequence number `i`. */
  method Changes<Id>(feed: seq<Change<Id>>, since: nat, limit: nat) returns (out: seq<Change<Id>>)
    ensures out == feed[Clamp(since, |feed|)..Clamp(since + limit, |feed|)]
  {
    out := [];
    if since >= |feed| {
      return;
    }
    var i := since;
    while i < |feed| && |out| < limit
      invariant since <= i <= |feed| && i - since <= limit
      invariant out == feed[since..i]
      decreases |feed| - i
    {
      out := out + [feed[i]];
      i := i + 1;
    }
  }

  /** What applying one entry does to the follower: a superseded upsert is skipped. */
  function ApplyEntry<Id, V, D>(records: map<Id, Record<V, D>>, e: Entry<Id, V, D>): map<Id, Record<V, D>> {
    match e.op
    case Upsert => if e.record.Some? then records[e.id := e.record.value] else records
    case Remove => records - {e.id}
  }

  function ApplyEntries<Id, V, D>(records: map<Id, Record<V, D>>, es: seq<Entry<Id, V, D>>): map<Id, Record<V, D>> {
    if es == [] then records else ApplyEntry(ApplyEntries(records, es[..|es| - 1]), es[|es| - 1])
  }

  /** The follower: its mirrored records and the next sequence number it wants. */
  class Replica<Id(==, !new), V, D> {
    var records: map<Id, Record<V, D>>
    var cursor: nat

    constructor ()
      ensures records == map[] && cursor == 0
    {
      records, cursor := map[], 0;
    }

    /** Apply one poll's reply, entry by entry, advancing the cursor past each. */
    method Apply(entries: seq<Entry<Id, V, D>>) returns (n: nat)
      modifies this
      ensures records == ApplyEntries(old(records), entries)
      ensures cursor == old(cursor) + |entries| && n == |entries|
    {
      n := |entries|;
      for i := 0 to |entries|
        invariant records == ApplyEntries(old(records), entries[..i])
        invariant cursor == old(cursor) + i
      {
        var e := entries[i];
        assert entries[..i + 1][..i] == entries[..i];
        match e.op {
          case Upsert =>
            if e.record.Some? {
              records := records[e.id := e.record.value];
            }
          case Remove =>
            records := records - {e.id};
        }
        cursor := cursor + 1;
      }
      assert entries[..|entries|] == entries;
    }
  }

  // ---- the protocol -----------------------------------------------------------------

  /**
   * `leader` and `feed` are the leader's state; `records` and `cursor` the follower's.
   * A poll in progress holds the entries resolved so far, the number still to
   * resolve, and the vector half of the entry being read.
   */
  datatype Sys<Id, V, D> = Sys(leader: map<Id, Record<V, D>>, feed: seq<Change<Id>>,
                               records: map<Id, Record<V, D>>, cursor: nat,
                               fetched: seq<Entry<Id, V, D>>, todo: nat, half: Option<Option<V>>)

  datatype Step<Id, V, D> =
    | Write(id: Id, record: Record<V, D>)
    | Delete(id: Id)
    | Poll(limit: nat)
    | ReadVector
    | ReadDocument
    | ApplyNext
    | LosePoll

  ghost predicate Init<Id, V, D>(y: Sys<Id, V, D>) {
    y == Sys(map[], [], map[], 0, [], 0, None)
  }

  /** The feed row being resolved. */
  ghost function Row<Id, V, D>(y: Sys<Id, V, D>): nat { y.cursor + |y.fetched| }

  ghost predicate Next<Id(!new), V, D>(y: Sys<Id, V, D>, step: Step<Id, V, D>, z: Sys<Id, V, D>) {
    match step
    case Write(id, record) =>
      z == y.(leader := y.leader[id := record], feed := y.feed + [Change(Upsert, id)])
    case Delete(id) =>
      id in y.leader && z == y.(leader := y.leader - {id}, feed := y.feed + [Change(Remove, id)])
    case Poll(limit) =>
      && y.fetched == [] && y.todo == 0 && y.half == None && y.cursor <= |y.feed|
      && z == y.(todo := if y.cursor + limit < |y.feed| then limit else |y.feed| - y.cursor)
    case ReadVector =>
      && y.todo > 0 && y.half == None && Row(y) < |y.feed|
      && var id := y.feed[Row(y)].id;
         z == y.(half := Some(if id in y.leader then Some(y.leader[id].vec) else None))
    case ReadDocument =>
      && y.todo > 0 && y.half.Some? && Row(y) < |y.feed|
      && var c := y.feed[Row(y)];
         var record := if c.op == Upsert && y.half.value.Some? && c.id in y.leader
                       then Some(Record(y.half.value.value, y.leader[c.id].doc)) else None;
         z == y.(fetched := y.fetched + [Entry(c.op, c.id, record)], todo := y.todo - 1, half := None)
    case ApplyNext =>
      && y.todo == 0 && y.fetched != []
      && z == y.(records := ApplyEntry(y.records, y.fetched[0]), cursor := y.cursor + 1, fetched := y.fetched[1..])
    case LosePoll =>
      z == y.(fetched := [], todo := 0, half := None)
  }

  /** Some feed row at or above `from` names `id`. */
  ghost predicate Mentioned<Id>(feed: seq<Change<Id>>, from: nat, id: Id) {
    exists i: nat :: from <= i < |feed| && feed[i].id == id
  }

  ghost predicate SameAt<Id, V, D>(a: map<Id, Record<V, D>>, b: map<Id, Record<V, D>>, id: Id) {
    (id in a <==> id in b) && (id in a ==> a[id] == b[id])
  }

  /** After the first `j` fetched entries, the follower agrees on every id not mentioned later. */
  ghost predicate AgreesAfter<Id(!new), V, D>(y: Sys<Id, V, D>, j: nat)
    requires j <= |y.fetched|
  {
    forall id :: !Mentioned(y.feed, y.cursor + j, id) ==> SameAt(ApplyEntries(y.records, y.fetched[..j]), y.leader, id)
  }

  /** The last row naming an id says whether the leader has it. */
  ghost predicate FeedTellsLast<Id(!new), V, D>(y: Sys<Id, V, D>) {
    && (forall i: nat :: i < |y.feed| && !Mentioned(y.feed, i + 1, y.feed[i].id) ==>
          (y.feed[i].op == Upsert <==> y.feed[i].id in y.leader))
  }

  ghost predicate Inv<Id(!new), V, D>(y: Sys<Id, V, D>) {
    && Row(y) + y.todo <= |y.feed|
    && (y.half.Some? ==> y.todo > 0)
    && FeedTellsLast(y)
    && (forall j: nat :: j <= |y.fetched| ==> AgreesAfter(y, j))
    && (y.half.Some? ==>
          var id := y.feed[Row(y)].id;
          !Mentioned(y.feed, Row(y) + 1, id) ==>
            y.half.value == if id in y.leader then Some(y.leader[id].vec) else None)
  }

  lemma MentionGrows<Id>(feed: seq<Change<Id>>, c: Change<Id>, from: nat, id: Id)
    ensures from <= |feed| ==> (Mentioned(feed + [c], from, id) <==> Mentioned(feed, from, id) || c.id == id)
  {
    if from <= |feed| {
      if c.id == id {
        assert (feed + [c])[|feed|].id == id;
      }
      if Mentioned(feed, from, id) {
        var i: nat :| from <= i < |feed| && feed[i].id == id;
        assert (feed + [c])[i].id == id;
      }
    }
  }

  lemma MentionDrops<Id>(feed: seq<Change<Id>>, from: nat, id: Id)
    requires from < |feed|
    ensures Mentioned(feed, from, id) <==> feed[from].id == id || Mentioned(feed, from + 1, id)
  {
    if Mentioned(feed, from, id) && feed[from].id != id {
      var i: nat :| from <= i < |feed| && feed[i].id == id;
      assert from + 1 <= i;
    }
  }

  /** A leader write changes one id and mentions it at the end of the feed. */
  lemma LeaderWrites<Id(!new), V, D>(y: Sys<Id, V, D>, c: Change<Id>, leader: map<Id, Record<V, D>>)
    requires Inv(y)
    requires c.op == Upsert <==> c.id in leader
    requires forall id :: id != c.id ==> SameAt(leader, y.leader, id)
    ensures Inv(y.(leader := leader, feed := y.feed + [c]))
  {
    var z := y.(leader := leader, feed := y.feed + [c]);
    forall i: nat | i < |z.feed| && !Mentioned(z.feed, i + 1, z.feed[i].id)
      ensures z.feed[i].op == Upsert <==> z.feed[i].id in leader
    {
      if i < |y.feed| {
        MentionGrows(y.feed, c, i + 1, z.feed[i].id);
        assert SameAt(leader, y.leader, z.feed[i].id);
      }
    }
    assert FeedTellsLast(z);
    hide FeedTellsLast, Mentioned;
    forall j: nat | j <= |z.fetched| ensures AgreesAfter(z, j) {
      WriteKeepsAgreement(y, c, leader, j);
    }
    if y.half.Some? {
      var id := y.feed[Row(y)].id;
      MentionGrows(y.feed, c, Row(y) + 1, id);
      assert id != c.id ==> SameAt(leader, y.leader, id);
    }
  }

  lemma WriteKeepsAgreement<Id(!new), V, D>(y: Sys<Id, V, D>, c: Change<Id>, leader: map<Id, Record<V, D>>, j: nat)
    requires j <= |y.fetched| && Row(y) <= |y.feed| && AgreesAfter(y, j)
    requires forall id :: id != c.id ==> SameAt(leader, y.leader, id)
    ensures AgreesAfter(y.(leader := leader, feed := y.feed + [c]), j)
  {
    var z := y.(leader := leader, feed := y.feed + [c]);
    forall id | !Mentioned(z.feed, z.cursor + j, id)
      ensures SameAt(ApplyEntries(z.records, z.fetched[..j]), leader, id)
    {
      MentionGrows(y.feed, c, z.cursor + j, id);
      assert SameAt(ApplyEntries(y.records, y.fetched[..j]), y.leader, id);
      assert SameAt(leader, y.leader, id);
    }
  }

  /** Resolving the row just read extends agreement past it. */
  lemma Resolved<Id(!new), V, D>(y: Sys<Id, V, D>, z: Sys<Id, V, D>)
    requires Inv(y) && Next(y, ReadDocument, z)
    ensures Inv(z)
  {
    hide AgreesAfter, Mentioned;
    var k := |y.fetched|;
    forall j: nat | j <= |z.fetched| ensures AgreesAfter(z, j) {
      if j <= k {
        assert AgreesAfter(y, j);
        assert z.fetched[..j] == y.fetched[..j];
        SameAgreement(y, z, j);
      } else {
        assert AgreesAfter(y, k);
        AgreementGrows(y, z);
      }
    }
    assert FeedTellsLast(z);
  }

  lemma SameAgreement<Id(!new), V, D>(y: Sys<Id, V, D>, z: Sys<Id, V, D>, j: nat)
    requires Next(y, ReadDocument, z) && j <= |y.fetched| <= |z.fetched| && Row(y) + y.todo <= |y.feed|
    requires z.fetched[..j] == y.fetched[..j] && AgreesAfter(y, j)
    ensures AgreesAfter(z, j)
  {
  }

  /** The entry just resolved says what the leader holds, unless a later one will. */
  lemma AgreementGrows<Id(!new), V, D>(y: Sys<Id, V, D>, z: Sys<Id, V, D>)
    requires Inv(y) && Next(y, ReadDocument, z) && AgreesAfter(y, |y.fetched|)
    ensures AgreesAfter(z, |z.fetched|)
  {
    hide ApplyEntries, ApplyEntry, Mentioned, SameAt, FeedTellsLast;
    var k, c := |y.fetched|, y.feed[Row(y)];
    var e := z.fetched[k];
    assert z.fetched == y.fetched + [e];
    assert y.fetched[..k] == y.fetched && z.fetched[..|z.fetched|] == z.fetched;
    var now := ApplyEntries(y.records, y.fetched);
    ApplySnoc(y.records, y.fetched, e);
    forall id | !Mentioned(z.feed, z.cursor + |z.fetched|, id) ensures SameAt(ApplyEntry(now, e), z.leader, id) {
      MentionDrops(y.feed, Row(y), id);
      if id != c.id {
        assert SameAt(now, y.leader, id);
        OtherUntouched(now, e, y.leader, id);
      } else {
        LastResolved(y, e, now);
      }
    }
  }

  lemma ApplySnoc<Id, V, D>(records: map<Id, Record<V, D>>, es: seq<Entry<Id, V, D>>, e: Entry<Id, V, D>)
    ensures ApplyEntries(records, es + [e]) == ApplyEntry(ApplyEntries(records, es), e)
  {
    assert (es + [e])[..|es|] == es;
  }

  lemma OtherUntouched<Id, V, D>(now: map<Id, Record<V, D>>, e: Entry<Id, V, D>, leader: map<Id, Record<V, D>>, id: Id)
    requires e.id != id && SameAt(now, leader, id)
    ensures SameAt(ApplyEntry(now, e), leader, id)
  {
  }

  /** Resolving an id's last mention reads what the leader holds. */
  lemma LastResolved<Id(!new), V, D>(y: Sys<Id, V, D>, e: Entry<Id, V, D>, now: map<Id, Record<V, D>>)
    requires Inv(y) && y.todo > 0 && y.half.Some? && Row(y) < |y.feed|
    requires var c := y.feed[Row(y)];
             !Mentioned(y.feed, Row(y) + 1, c.id)
             && e == Entry(c.op, c.id, if c.op == Upsert && y.half.value.Some? && c.id in y.leader
                                       then Some(Record(y.half.value.value, y.leader[c.id].doc)) else None)
    ensures SameAt(ApplyEntry(now, e), y.leader, e.id)
  {
    hide AgreesAfter, Mentioned;
  }

  lemma {:induction false} ApplyHead<Id, V, D>(records: map<Id, Record<V, D>>, es: seq<Entry<Id, V, D>>)
    requires es != []
    ensures ApplyEntries(records, es) == ApplyEntries(ApplyEntry(records, es[0]), es[1..])
    decreases |es|
  {
    var k := |es| - 1;
    if k == 0 {
      assert es[..k] == [] && es[1..] == [];
    } else {
      ApplyHead(records, es[..k]);
      assert es[..k][1..] == es[1..][..k - 1];
      assert es[1..][k - 1] == es[k];
    }
  }

  lemma Applied<Id(!new), V, D>(y: Sys<Id, V, D>, z: Sys<Id, V, D>)
    requires Inv(y) && Next(y, ApplyNext, z)
    ensures Inv(z)
  {
    hide ApplyEntries, Mentioned, SameAt;
    assert FeedTellsLast(z);
    forall j: nat | j <= |z.fetched| ensures AgreesAfter(z, j) {
      assert AgreesAfter(y, j + 1);
      ApplyHead(y.records, y.fetched[..j + 1]);
      assert y.fetched[..j + 1][1..] == z.fetched[..j];
    }
  }

  lemma NextInv<Id(!new), V, D>(y: Sys<Id, V, D>, step: Step<Id, V, D>, z: Sys<Id, V, D>)
    requires Inv(y) && Next(y, step, z)
    ensures Inv(z)
  {
    match step
    case Write(id, record) => LeaderWrites(y, Change(Upsert, id), z.leader);
    case Delete(id) => LeaderWrites(y, Change(Remove, id), z.leader);
    case Poll(limit) =>
      assert AgreesAfter(y, 0);
      assert AgreesAfter(z, 0);
    case ReadVector =>
      forall j: nat | j <= |z.fetched| ensures AgreesAfter(z, j) {
        assert AgreesAfter(y, j);
      }
    case ReadDocument => Resolved(y, z);
    case ApplyNext => Applied(y, z);
    case LosePoll =>
      assert AgreesAfter(y, 0);
      assert z.fetched[..0] == y.fetched[..0];
      assert AgreesAfter(z, 0);
  }

  ghost predicate IsRun<Id(!new), V, D>(ys: seq<Sys<Id, V, D>>, steps: seq<Step<Id, V, D>>) {
    && |ys| == |steps| + 1 && Init(ys[0])
    && forall i: nat :: i < |steps| ==> Next(ys[i], steps[i], ys[i + 1])
  }

  lemma {:induction false} RunInv<Id(!new), V, D>(ys: seq<Sys<Id, V, D>>, steps: seq<Step<Id, V, D>>, i: nat)
    requires IsRun(ys, steps) && i < |ys|
    ensures Inv(ys[i])
  {
    if i == 0 {
      assert AgreesAfter(ys[0], 0);
    } else {
      RunInv(ys, steps, i - 1);
      NextInv(ys[i - 1], steps[i - 1], ys[i]);
    }
  }

  /**
   * Replication converges: in every reachable state the follower holds exactly the
   * leader's record of every id that no feed row at or above its cursor mentions.
   */
  lemma Converges<Id(!new), V, D>(ys: seq<Sys<Id, V, D>>, steps: seq<Step<Id, V, D>>, i: nat, id: Id)
    requires IsRun(ys, steps) && i < |ys| && !Mentioned(ys[i].feed, ys[i].cursor, id)
    ensures SameAt(ys[i].records, ys[i].leader, id)
  {
    RunInv(ys, steps, i);
    var y := ys[i];
    assert AgreesAfter(y, 0) && y.cursor + 0 == y.cursor;
    assert ApplyEntries(y.records, y.fetched[..0]) == y.records;
  }

  /** At the head of the feed the follower is the leader. */
  lemma AtHeadEqual<Id(!new), V, D>(ys: seq<Sys<Id, V, D>>, steps: seq<Step<Id, V, D>>, i: nat)
    requires IsRun(ys, steps) && i < |ys| && ys[i].cursor == |ys[i].feed|
    ensures ys[i].records == ys[i].leader
  {
    var a, b := ys[i].records, ys[i].leader;
    forall id ensures (id in a <==> id in b) && (id in a ==> a[id] == b[id]) {
      Converges(ys, steps, i, id);
    }
    assert a.Keys == b.Keys;
  }
}
