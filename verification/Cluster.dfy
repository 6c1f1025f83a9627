/**
 * Leader-side cluster coordination and election.
 */
module ClusterQuorum {
  import opened Wrappers
  import opened ByteStrings
  import opened Sets

  // Quorum acknowledgement is from poll cursors; the election picks the next leader among
  // survivors.

  type Name = Bytes

  function Majority(n: nat): nat { n / 2 + 1 }

  /** The cursor the leader knows for a follower; an unseen follower is at 0. */
  function CursorOf(followers: map<Name, nat>, f: Name): nat {
    if f in followers then followers[f] else 0
  }

  /** The followers known to have reached `target`. */
  function Reached(followers: map<Name, nat>, target: nat): set<Name> {
    set f | f in followers && followers[f] >= target
  }

  function Observed(followers: map<Name, nat>, f: Name, cursor: nat): map<Name, nat> {
    followers[f := if cursor > CursorOf(followers, f) then cursor else CursorOf(followers, f)]
  }

  predicate Committed(followers: map<Name, nat>, quorum: nat, target: nat) {
    1 + |Reached(followers, target)| >= quorum
  }

  class Cluster {
    const quorum: nat
    var followers: map<Name, nat>

    /** `quorum` is clamped to at least 1. */
    constructor (quorum: nat)
      ensures this.quorum == (if quorum < 1 then 1 else quorum) && followers == map[]
    {
      this.quorum := if quorum < 1 then 1 else quorum;
      followers := map[];
    }

    /** Record a poll; a stale lower cursor never rewinds. Returns whether waiters are woken. */
    method Observe(follower: Name, cursor: nat) returns (woken: bool)
      modifies this
      ensures followers == Observed(old(followers), follower, cursor)
      ensures woken <==> cursor > CursorOf(old(followers), follower)
    {
      if follower !in followers {
        followers := followers[follower := 0];
      }
      if cursor > followers[follower] {
        followers := followers[follower := cursor];
        return true;
      }
      return false;
    }

    /** The leader always holds every write: it is member 1. */
    method Holders(target: nat) returns (n: nat)
      ensures n == 1 + |Reached(followers, target)|
    {
      n := 1 + |Reached(followers, target)|;
    }

    method IsCommitted(target: nat) returns (ok: bool)
      ensures ok == Committed(followers, quorum, target)
    {
      var n := Holders(target);
      ok := n >= quorum;
    }
  }

  /** Commitment is stable under later polls and downward closed in the target. */
  lemma CommittedStable(followers: map<Name, nat>, quorum: nat, target: nat, lower: nat, f: Name, cursor: nat)
    requires Committed(followers, quorum, target) && lower <= target
    ensures Committed(Observed(followers, f, cursor), quorum, lower)
  {
    SubsetCard(Reached(followers, target), Reached(Observed(followers, f, cursor), lower));
  }

  /** Two sets of members that are together larger than the membership share a member. */
  lemma SetsMeet(members: set<Name>, a: set<Name>, b: set<Name>)
    requires a <= members && b <= members && |a| + |b| > |members|
    ensures exists x :: x in a && x in b
  {
    if a !! b {
      assert |a + b| == |a| + |b|;
      SubsetCard(a + b, members);
      assert false;
    }
  }

  /** Any two majorities share a member. */
  lemma QuorumsMeet(members: set<Name>, a: set<Name>, b: set<Name>)
    requires a <= members && b <= members
    requires |a| >= Majority(|members|) && |b| >= Majority(|members|)
    ensures exists x :: x in a && x in b
  {
    SetsMeet(members, a, b);
  }

  // ---- who is counted -----------------------------------------------------------------

  /** `is_committed` accepts a target only if a majority of the members hold it, the leader among them. */
  ghost predicate CountsMembers(followers: set<Name>, view: map<Name, nat>, target: nat) {
    var n := |followers| + 1;
    Committed(view, Majority(n), target) ==> 1 + |Reached(view, target) * followers| >= Majority(n)
  }

  /** The leader counts every poller it hears from: whatever they poll, that counts members exactly when every
      poller is a member, or the pollers are too few to commit anything, or the leader is alone. */
  lemma CountIff(followers: set<Name>, pollers: set<Name>)
    ensures (forall view: map<Name, nat>, target: nat :: view.Keys <= pollers ==> CountsMembers(followers, view, target))
       <==> pollers <= followers || |pollers| + 1 < Majority(|followers| + 1) || followers == {}
  {
    var quorum := Majority(|followers| + 1);
    if pollers <= followers || |pollers| + 1 < quorum || followers == {} {
      forall view: map<Name, nat>, target: nat | view.Keys <= pollers ensures CountsMembers(followers, view, target) {
        var reached := Reached(view, target);
        SubsetCard(reached, pollers);
        if pollers <= followers {
          assert reached * followers == reached;
        }
      }
    } else {
      var stray :| stray in pollers && stray !in followers;
      var others := SubsetOfSize(pollers - {stray}, quorum - 2);
      var view: map<Name, nat> := map f | f in others + {stray} :: 1;
      assert Reached(view, 1) == others + {stray};
      SubsetCard(Reached(view, 1) * followers, others);
      assert view.Keys <= pollers && !CountsMembers(followers, view, 1);
    }
  }

  // ---- election -------------------------------------------------------------------

  /** `max_by` on cursor, ties by id: `a` loses to `b`. */
  predicate Loses(a: (Name, nat), b: (Name, nat)) {
    a.1 < b.1 || (a.1 == b.1 && LexLt(a.0, b.0))
  }

  ghost predicate Wins(survivors: set<(Name, nat)>, w: (Name, nat)) {
    w in survivors && forall s :: s in survivors && s != w ==> Loses(s, w)
  }

  ghost predicate DistinctNames(survivors: seq<(Name, nat)>) {
    forall i: nat, j: nat :: i < j < |survivors| ==> survivors[i].0 != survivors[j].0
  }

  /** The highest cursor wins; ties go to the highest id. */
  method Elect(survivors: seq<(Name, nat)>) returns (leader: Option<Name>)
    requires DistinctNames(survivors)
    ensures survivors == [] <==> leader == None
    ensures leader.Some? ==> exists w :: Wins((set s | s in survivors), w) && w.0 == leader.value
  {
    if survivors == [] {
      return None;
    }
    var best := survivors[0];
    for i := 1 to |survivors|
      invariant exists k: nat :: k < i && survivors[k] == best
      invariant forall j: nat :: j < i && survivors[j] != best ==> Loses(survivors[j], best)
    {
      var s := survivors[i];
      if best.1 < s.1 || (best.1 == s.1 && LexLe(best.0, s.0)) {
        forall j: nat | j < i + 1 && survivors[j] != s ensures Loses(survivors[j], s) {
          if survivors[j] != best && j < i {
            LosesTrans(survivors[j], best, s);
          }
        }
        best := s;
      } else {
        LexTotal(best.0, s.0);
        assert s != best ==> Loses(s, best);
      }
    }
    assert Wins((set s | s in survivors), best);
    leader := Some(best.0);
  }

  lemma LosesTrans(a: (Name, nat), b: (Name, nat), c: (Name, nat))
    requires Loses(a, b) && (b.1 < c.1 || (b.1 == c.1 && LexLe(b.0, c.0)))
    ensures Loses(a, c)
  {
    if a.1 == b.1 == c.1 {
      LexTrans(a.0, b.0, c.0);
      if a.0 == c.0 {
        LexAntisym(a.0, b.0);
      }
    }
  }

  /** Every survivor computes the same winner, in whatever order it lists the survivors. */
  lemma WinnerUnique(survivors: set<(Name, nat)>, v: (Name, nat), w: (Name, nat))
    requires Wins(survivors, v) && Wins(survivors, w)
    ensures v == w
  {
    if v != w {
      assert Loses(v, w) && Loses(w, v);
      if v.1 == w.1 { LexAntisym(v.0, w.0); }
    }
  }

  // ---- the replicated system --------------------------------------------------------

  /**
   * The leader's log length, each follower's durable cursor, every poll ever sent
   * (delivered any number of times, in any order, or never), the leader's view, and
   * the targets acknowledged so far.
   */
  datatype Sys = Sys(log: nat, applied: map<Name, nat>, polls: set<(Name, nat)>,
                     view: map<Name, nat>, acked: set<nat>)

  datatype Step =
    | Write
    | Replicate(f: Name, upTo: nat)
    | Poll(f: Name)
    | Deliver(f: Name, cursor: nat)
    | Ack(target: nat)

  /** `leader` and the followers are the members, the quorum is their majority; strays replicate and poll
      without being members. */
  ghost predicate Init(leader: Name, followers: set<Name>, strays: set<Name>, y: Sys) {
    && leader !in followers + strays && followers !! strays
    && y == Sys(0, map f | f in followers + strays :: 0, {}, map[], {})
  }

  ghost predicate Next(followers: set<Name>, y: Sys, step: Step, z: Sys) {
    match step
    case Write => z == y.(log := y.log + 1)
    case Replicate(f, upTo) => // entries below upTo are applied; cursors only move forward, inside the log
      f in y.applied && y.applied[f] <= upTo <= y.log && z == y.(applied := y.applied[f := upTo])
    case Poll(f) => f in y.applied && z == y.(polls := y.polls + {(f, y.applied[f])})
    case Deliver(f, cursor) => (f, cursor) in y.polls && z == y.(view := Observed(y.view, f, cursor))
    case Ack(target) => // a written target that `is_committed` accepts
      && target <= y.log && Committed(y.view, Majority(|followers| + 1), target)
      && z == y.(acked := y.acked + {target})
  }

  /** Replicas that durably hold everything below `target`. */
  ghost function Holding(y: Sys, target: nat): set<Name> {
    set f | f in y.applied && y.applied[f] >= target
  }

  ghost predicate Inv(followers: set<Name>, strays: set<Name>, y: Sys) {
    && y.applied.Keys == followers + strays
    && (forall f :: f in y.applied ==> y.applied[f] <= y.log)
    && (forall p :: p in y.polls ==> p.0 in y.applied && p.1 <= y.applied[p.0])
    && (forall f :: f in y.view ==> f in y.applied && y.view[f] <= y.applied[f])
    && (forall t :: t in y.acked ==> t <= y.log && 1 + |Holding(y, t)| >= Majority(|followers| + 1))
  }

  lemma NextInv(followers: set<Name>, strays: set<Name>, y: Sys, step: Step, z: Sys)
    requires Inv(followers, strays, y) && Next(followers, y, step, z)
    ensures Inv(followers, strays, z)
  {
    forall t | t in z.acked ensures 1 + |Holding(z, t)| >= Majority(|followers| + 1) {
      if t in y.acked {
        SubsetCard(Holding(y, t), Holding(z, t));
      } else {
        SubsetCard(Reached(y.view, t), Holding(z, t));
      }
    }
  }

  ghost predicate IsRun(leader: Name, followers: set<Name>, strays: set<Name>, ys: seq<Sys>, steps: seq<Step>) {
    && |ys| == |steps| + 1 && Init(leader, followers, strays, ys[0])
    && forall i: nat :: i < |steps| ==> Next(followers, ys[i], steps[i], ys[i + 1])
  }

  lemma {:induction false} RunInv(leader: Name, followers: set<Name>, strays: set<Name>, ys: seq<Sys>, steps: seq<Step>,
                                  i: nat)
    requires IsRun(leader, followers, strays, ys, steps) && i < |ys|
    ensures Inv(followers, strays, ys[i])
  {
    if i > 0 {
      RunInv(leader, followers, strays, ys, steps, i - 1);
      NextInv(followers, strays, ys[i - 1], steps[i - 1], ys[i]);
    }
  }

  /** What a member holds: the leader its whole log, a follower what it applied. */
  ghost function Cursor(leader: Name, y: Sys, member: Name): nat {
    if member == leader then y.log else if member in y.applied then y.applied[member] else 0
  }

  /** The survivors of `alive` with the cursors they hold. */
  ghost function Survivors(leader: Name, y: Sys, alive: set<Name>): set<(Name, nat)> {
    set m | m in alive :: (m, Cursor(leader, y, m))
  }

  /** At some point of some run a majority of the members survives and elects `w`; `target` was acked before. */
  ghost predicate Elected(leader: Name, followers: set<Name>, strays: set<Name>, ys: seq<Sys>, steps: seq<Step>, i: nat,
                          alive: set<Name>, w: (Name, nat), target: nat)
  {
    && IsRun(leader, followers, strays, ys, steps) && i < |ys|
    && alive <= followers + {leader} && |alive| >= Majority(|followers| + 1)
    && Wins(Survivors(leader, ys[i], alive), w) && target in ys[i].acked
  }

  /** How many strays the majorities can carry: none when the membership is odd, one when it is even; with at
      most two members every majority is the whole membership. */
  predicate Tolerated(followers: nat, strays: nat) {
    followers < 2 || strays < 2 - (followers + 1) % 2
  }

  /**
   * No acked write is lost: in every reachable state, whatever polls were delayed,
   * duplicated or reordered, the member elected from any surviving majority holds
   * every acknowledged target.
   */
  lemma NoAckedWriteLost(leader: Name, followers: set<Name>, strays: set<Name>, ys: seq<Sys>, steps: seq<Step>, i: nat,
                         alive: set<Name>, w: (Name, nat), target: nat)
    requires Elected(leader, followers, strays, ys, steps, i, alive, w, target) && Tolerated(|followers|, |strays|)
    ensures target <= w.1 == Cursor(leader, ys[i], w.0) && w.0 in alive
  {
    RunInv(leader, followers, strays, ys, steps, i);
    var y, members := ys[i], followers + {leader};
    assert leader !in followers + strays;
    assert |members| == |followers| + 1;
    var held := Holding(y, target);
    assert held == held * followers + held * strays;
    SubsetCard(held * strays, strays);
    var holders := held * followers + {leader};
    assert |holders| == |held * followers| + 1;
    if |followers| < 2 {
      SubsetCard(alive, members);
      assert leader in alive && leader in holders;
    } else {
      SetsMeet(members, alive, holders);
    }
    var x :| x in alive && x in holders;
    assert (x, Cursor(leader, y, x)) in Survivors(leader, y, alive);
  }

  /** In every run, whoever is elected holds everything acknowledged. */
  ghost predicate NothingLost(leader: Name, followers: set<Name>, strays: set<Name>) {
    forall ys, steps, i: nat, alive, w, target ::
      Elected(leader, followers, strays, ys, steps, i, alive, w, target) ==> target <= w.1
  }

  /** Pollers outside the membership lose an acked write in some run exactly when there are more of them than the
      majorities carry. */
  lemma LossIff(leader: Name, followers: set<Name>, strays: set<Name>)
    requires leader !in followers + strays && followers !! strays
    ensures NothingLost(leader, followers, strays) <==> Tolerated(|followers|, |strays|)
  {
    if Tolerated(|followers|, |strays|) {
      forall ys, steps, i: nat, alive, w, target | Elected(leader, followers, strays, ys, steps, i, alive, w, target)
        ensures target <= w.1
      {
        NoAckedWriteLost(leader, followers, strays, ys, steps, i, alive, w, target);
      }
    } else {
      hide IsRun, Wins;
      var ys, steps, alive, w := LosingRun(leader, followers, strays);
      assert Elected(leader, followers, strays, ys, steps, |ys| - 1, alive, w, 1);
    }
  }

  /** One entry is written, and the replicas in `caught` have applied it, polled, and been heard. */
  ghost function CaughtUp(replicas: set<Name>, caught: set<Name>): Sys {
    Sys(1, map f | f in replicas :: if f in caught then 1 else 0, set f | f in caught :: (f, 1), map f | f in caught :: 1, {})
  }

  lemma Extend(leader: Name, followers: set<Name>, strays: set<Name>, ys: seq<Sys>, steps: seq<Step>, step: Step, z: Sys)
    requires IsRun(leader, followers, strays, ys, steps) && Next(followers, ys[|ys| - 1], step, z)
    ensures IsRun(leader, followers, strays, ys + [z], steps + [step])
  {
    hide Init, Next;
    var zs, all := ys + [z], steps + [step];
    forall i: nat | i < |all| ensures Next(followers, zs[i], all[i], zs[i + 1]) {
      if i < |steps| {
        assert zs[i] == ys[i] && zs[i + 1] == ys[i + 1] && all[i] == steps[i];
      }
    }
  }

  lemma {:induction false} CatchUp(leader: Name, followers: set<Name>, strays: set<Name>, caught: set<Name>)
    returns (ys: seq<Sys>, steps: seq<Step>)
    requires leader !in followers + strays && followers !! strays && caught <= followers + strays
    ensures IsRun(leader, followers, strays, ys, steps) && ys[|ys| - 1] == CaughtUp(followers + strays, caught)
    decreases |caught|
  {
    var replicas := followers + strays;
    if caught == {} {
      var y := Sys(0, map f | f in replicas :: 0, {}, map[], {});
      assert IsRun(leader, followers, strays, [y], []);
      Extend(leader, followers, strays, [y], [], Write, y.(log := 1));
      ys, steps := [y, y.(log := 1)], [Write];
      assert [y] + [y.(log := 1)] == ys && [] + [Write] == steps;
    } else {
      var f :| f in caught;
      ys, steps := CatchUp(leader, followers, strays, caught - {f});
      var y, z := ys[|ys| - 1], CaughtUp(replicas, caught);
      var applied := y.(applied := y.applied[f := 1]);
      var polled := applied.(polls := y.polls + {(f, 1)});
      var heard := polled.(view := Observed(y.view, f, 1));
      HeardIs(replicas, caught, f);
      Extend(leader, followers, strays, ys, steps, Replicate(f, 1), applied);
      Extend(leader, followers, strays, ys + [applied], steps + [Replicate(f, 1)], Poll(f), polled);
      Extend(leader, followers, strays, ys + [applied] + [polled], steps + [Replicate(f, 1)] + [Poll(f)], Deliver(f, 1), heard);
      ys, steps := ys + [applied] + [polled] + [heard], steps + [Replicate(f, 1)] + [Poll(f)] + [Deliver(f, 1)];
    }
  }

  lemma HeardIs(replicas: set<Name>, caught: set<Name>, f: Name)
    requires f in caught && caught <= replicas
    ensures var y, z := CaughtUp(replicas, caught - {f}), CaughtUp(replicas, caught);
            && y.applied[f := 1] == z.applied && y.polls + {(f, 1)} == z.polls && Observed(y.view, f, 1) == z.view
            && y.acked == z.acked && y.log == z.log && y.applied[f] == 0
  {
  }

  lemma {:induction false} WinnerExists(survivors: set<(Name, nat)>) returns (w: (Name, nat))
    requires survivors != {}
    ensures Wins(survivors, w)
  {
    var s :| s in survivors;
    if survivors == {s} {
      w := s;
    } else {
      var v := WinnerExists(survivors - {s});
      LexTotal(v.0, s.0);
      w := if Loses(v, s) then s else v;
      forall x | x in survivors && x != w ensures Loses(x, w) {
        if w == s && x != v {
          LosesTrans(x, v, s);
        }
      }
    }
  }

  /** A run in which strays make up a quorum, and an election among survivors that never saw the acked write. */
  lemma LosingRun(leader: Name, followers: set<Name>, strays: set<Name>)
    returns (ys: seq<Sys>, steps: seq<Step>, alive: set<Name>, w: (Name, nat))
    requires leader !in followers + strays && followers !! strays && !Tolerated(|followers|, |strays|)
    ensures IsRun(leader, followers, strays, ys, steps) && 1 in ys[|ys| - 1].acked
    ensures alive <= followers && |alive| >= Majority(|followers| + 1)
    ensures Wins(Survivors(leader, ys[|ys| - 1], alive), w) && w.1 == 0
  {
    var n := |followers| + 1;
    var some := SubsetOfSize(strays, 2 - n % 2);
    var few := SubsetOfSize(followers, n - Majority(n) - 1);
    var caught := some + few;
    assert |caught| == |some| + |few|;
    ys, steps := CatchUp(leader, followers, strays, caught);
    var y := CaughtUp(followers + strays, caught);
    var z := y.(acked := {1});
    assert Next(followers, y, Ack(1), z) by {
      assert Reached(y.view, 1) == caught;
      assert {} + {1} == {1};
    }
    Extend(leader, followers, strays, ys, steps, Ack(1), z);
    ys, steps := ys + [z], steps + [Ack(1)];
    alive := followers - few;
    assert |alive| == |followers| - |few|;
    var survivors := Survivors(leader, z, alive);
    var m :| m in alive;
    assert (m, Cursor(leader, z, m)) in survivors;
    w := WinnerExists(survivors);
  }

  // ---- waiting for a quorum -----------------------------------------------------------

  /** A waiter: armed (notified or not since), about to check, blocked, or done. */
  datatype Waiter = Start | Armed(notified: bool) | Blocked(notified: bool) | Done

  datatype Wait = Wait(view: map<Name, nat>, waiter: Waiter)

  datatype WStep = Arm | Check | Wake | PollArrives(f: Name, cursor: nat)

  function Notify(w: Waiter): Waiter {
    match w
    case Armed(_) => Armed(true)
    case Blocked(_) => Blocked(true)
    case _ => w
  }

  ghost predicate WNext(quorum: nat, target: nat, y: Wait, step: WStep, z: Wait) {
    match step
    case Arm => y.waiter == Start && z == y.(waiter := Armed(false))
    case Check =>
      && y.waiter.Armed?
      && z == y.(waiter := if Committed(y.view, quorum, target) then Done else Blocked(y.waiter.notified))
    case Wake => y.waiter == Blocked(true) && z == y.(waiter := Start)
    case PollArrives(f, cursor) =>
      && var view := Observed(y.view, f, cursor);
         z == Wait(view, if cursor > CursorOf(y.view, f) then Notify(y.waiter) else y.waiter)
  }

  /** A waiter blocked with no notification pending is right to block; a finished one saw the quorum. */
  ghost predicate WInv(quorum: nat, target: nat, y: Wait) {
    && (y.waiter == Blocked(false) ==> !Committed(y.view, quorum, target))
    && (y.waiter == Done ==> Committed(y.view, quorum, target))
  }

  /**
   * Arming before checking loses no wakeup, and no waiter finishes without a quorum.
   * A write's target is one past its sequence number, so it is positive.
   */
  lemma NoLostWakeup(quorum: nat, target: nat, y: Wait, step: WStep, z: Wait)
    requires target > 0
    requires WInv(quorum, target, y) && WNext(quorum, target, y, step, z)
    ensures WInv(quorum, target, z)
  {
    match step
    case PollArrives(f, cursor) =>
      if cursor > CursorOf(y.view, f) {
        if y.waiter == Done {
          CommittedStable(y.view, quorum, target, target, f, cursor);
        }
      } else {
        if f in y.view {
          assert Observed(y.view, f, cursor) == y.view;
        } else {
          UnseenAtZero(y.view, f, quorum, target);
        }
      }
    case _ =>
  }

  lemma UnseenAtZero(view: map<Name, nat>, f: Name, quorum: nat, target: nat)
    requires f !in view && target > 0
    ensures Reached(view[f := 0], target) == Reached(view, target)
  {
  }

  /** Any number of names. */
  lemma {:induction false} ManyNames(n: nat) returns (names: set<Name>)
    ensures |names| == n && forall f :: f in names ==> |f| < n
  {
    if n == 0 {
      names := {};
    } else {
      names := ManyNames(n - 1);
      names := names + {seq(n - 1, _ => 0 as Byte)};
    }
  }

  /** No wakeup is lost exactly when the target is positive or the leader alone is a quorum: a first poll at cursor 0
      can complete the quorum of target 0, and wakes nobody. */
  lemma WakeupIff(quorum: nat, target: nat)
    ensures (forall y, step, z :: WInv(quorum, target, y) && WNext(quorum, target, y, step, z) ==> WInv(quorum, target, z))
       <==> target > 0 || quorum <= 1
  {
    if target > 0 {
      forall y, step, z | WInv(quorum, target, y) && WNext(quorum, target, y, step, z) ensures WInv(quorum, target, z) {
        NoLostWakeup(quorum, target, y, step, z);
      }
    } else if quorum > 1 {
      var names := ManyNames(quorum - 1);
      var f :| f in names;
      var view := map g | g in names - {f} :: 0 as nat;
      var y, z := Wait(view, Blocked(false)), Wait(view[f := 0], Blocked(false));
      assert Reached(y.view, 0) == names - {f};
      assert Reached(z.view, 0) == names;
      assert WInv(quorum, target, y) && WNext(quorum, target, y, PollArrives(f, 0), z) && !WInv(quorum, target, z);
    }
  }
}
