/**
 * Creating a whole stack from a chain of protocol types: what a success returns, and what a failed
 * attempt leaves behind for the next cleanup.
 */
module ProtocolChain {
  import opened Options
  import opened ProtocolState
  import opened ProtocolLinking
  import opened ProtocolStack
  import Teardown = ProtocolTeardown
  import Deferred = ProtocolGraceful

  /** What the factory makes of one type: an unknown type, a failed Initialize, or a protocol with these fields. */
  datatype Spawn =
    | NotImplemented
    | NotInitialized(deleteFar: bool, deleteNear: bool, output: Output)
    | Spawned(deleteFar: bool, deleteNear: bool, output: Output)

  /** A failed ASSERT while linking ends the process. */
  datatype Outcome = Created(nearEndpoint: BaseProtocol) | Failed | Aborted

  // ---------------------------------------------------------------- the states on the way

  /** s with the first n protocols of the chain created and linked, the far endpoint first. */
  function Built(s: Registry, chain: seq<Kind>, spawns: seq<Spawn>, n: nat): Registry
    requires n <= |chain| == |spawns| && forall k | 0 <= k < n :: spawns[k].Spawned?
  {
    var base := s.lastId;
    Registry(s.protocols + (map i | base < i <= base + n :: Link(base, chain, spawns, n, i)),
             s.active + NewIds(base, n), s.dead, base + n)
  }

  function Link(base: Id, chain: seq<Kind>, spawns: seq<Spawn>, n: nat, i: Id): Protocol
    requires n <= |chain| == |spawns| && (forall k | 0 <= k < n :: spawns[k].Spawned?) && base < i <= base + n
  {
    var spawn := spawns[i - base - 1];
    Protocol(chain[i - base - 1],
             if i == base + 1 then None else Some(i - 1),
             if i == base + n then None else Some(i + 1),
             spawn.deleteFar, spawn.deleteNear, false, false, spawn.output)
  }

  predicate IsNewId(base: Id, n: nat, i: Id) {
    base < i <= base + n
  }

  function NewIds(base: Id, n: nat): set<Id> {
    set i | base < i <= base + n && IsNewId(base, n, i)
  }

  /** Adjacent types among the first n of the chain may be linked. */
  ghost predicate Linkable(rules: Rules, chain: seq<Kind>, n: nat)
    requires n <= |chain|
  {
    forall k | 0 < k < n :: rules.allowFar(chain[k], chain[k - 1]) && rules.allowNear(chain[k - 1], chain[k])
  }

  lemma LinkableNext(rules: Rules, chain: seq<Kind>, n: nat)
    requires n < |chain|
    ensures Linkable(rules, chain, n + 1) <==>
      Linkable(rules, chain, n) && (n > 0 ==> Compatible(rules, chain[n], chain[n - 1]))
    ensures n == 0 ==> Linkable(rules, chain, n)
  {
  }

  /** Who is in the built state, and what it looks like. */
  lemma BuiltAt(s: Registry, chain: seq<Kind>, spawns: seq<Spawn>, n: nat, i: Id)
    requires Partitioned(s)
    requires n <= |chain| == |spawns| && forall k | 0 <= k < n :: spawns[k].Spawned?
    ensures var t, base := Built(s, chain, spawns, n), s.lastId;
      && (i in t.protocols <==> i in s.protocols || base < i <= base + n)
      && (i in s.protocols ==> i <= base && t.protocols[i] == s.protocols[i])
      && (base < i <= base + n ==> t.protocols[i] == Link(base, chain, spawns, n, i))
      && (i in t.active <==> i in s.active || base < i <= base + n)
  {
  }

  lemma LinkFacts(s: Registry, i: Id, j: Id)
    requires WellFormed(s) && i in s.protocols
    ensures s.protocols[i].far.Some? ==> s.protocols[i].far.value in s.protocols
    ensures s.protocols[i].near.Some? ==> s.protocols[i].near.value in s.protocols
    ensures j in s.protocols ==> (s.protocols[i].far == Some(j) <==> s.protocols[j].near == Some(i))
  {
  }

  lemma BuiltLinkAt(s: Registry, chain: seq<Kind>, spawns: seq<Spawn>, n: nat, i: Id, j: Id)
    requires WellFormed(s)
    requires n <= |chain| == |spawns| && forall k | 0 <= k < n :: spawns[k].Spawned?
    requires i in Built(s, chain, spawns, n).protocols
    ensures var t := Built(s, chain, spawns, n);
      && (t.protocols[i].far == Some(j) ==> j in t.protocols)
      && (t.protocols[i].near == Some(j) ==> j in t.protocols)
      && (j in t.protocols ==> (t.protocols[i].far == Some(j) <==> t.protocols[j].near == Some(i)))
  {
    hide Built;
    hide Closed;
    hide Symmetric;
    BuiltAt(s, chain, spawns, n, i);
    BuiltAt(s, chain, spawns, n, j);
    if i in s.protocols {
      LinkFacts(s, i, j);
    }
    if j in s.protocols {
      LinkFacts(s, j, i);
    }
  }

  lemma BuiltLinks(s: Registry, chain: seq<Kind>, spawns: seq<Spawn>, n: nat)
    requires WellFormed(s)
    requires n <= |chain| == |spawns| && forall k | 0 <= k < n :: spawns[k].Spawned?
    ensures Closed(Built(s, chain, spawns, n)) && Symmetric(Built(s, chain, spawns, n))
  {
    hide Built;
    hide WellFormed;
    var t := Built(s, chain, spawns, n);
    forall i <- t.protocols, j: Id
      ensures t.protocols[i].far == Some(j) ==> j in t.protocols
      ensures t.protocols[i].near == Some(j) ==> j in t.protocols
      ensures j in t.protocols ==> (t.protocols[i].far == Some(j) <==> t.protocols[j].near == Some(i))
    {
      BuiltLinkAt(s, chain, spawns, n, i, j);
    }
  }

  lemma BuiltPartition(s: Registry, chain: seq<Kind>, spawns: seq<Spawn>, n: nat)
    requires Partitioned(s)
    requires n <= |chain| == |spawns| && forall k | 0 <= k < n :: spawns[k].Spawned?
    ensures Partitioned(Built(s, chain, spawns, n))
  {
    var t := Built(s, chain, spawns, n);
    forall i: Id
      ensures i in t.protocols <==> i in t.active || i in t.dead
      ensures !(i in t.active && i in t.dead)
      ensures i in t.protocols ==> i <= t.lastId && (t.protocols[i].enqueued ==> i in t.dead)
    {
      BuiltAt(s, chain, spawns, n, i);
      assert i in s.active + s.dead <==> i in s.protocols;
    }
    assert t.active + t.dead == t.protocols.Keys;
  }

  lemma BuiltInvariant(s: Registry, chain: seq<Kind>, spawns: seq<Spawn>, n: nat)
    requires Invariant(s)
    requires n <= |chain| == |spawns| && forall k | 0 <= k < n :: spawns[k].Spawned?
    ensures Invariant(Built(s, chain, spawns, n))
  {
    hide Built;
    hide Closed;
    hide Symmetric;
    var t, base := Built(s, chain, spawns, n), s.lastId;
    BuiltLinks(s, chain, spawns, n);
    BuiltPartition(s, chain, spawns, n);
    var rank := Rank(s) + (map i | i in NewIds(base, n) :: i);
    forall i <- t.protocols
      ensures i in rank
      ensures t.protocols[i].far.Some? && t.protocols[i].far.value in rank ==> rank[t.protocols[i].far.value] < rank[i]
    {
      BuiltAt(s, chain, spawns, n, i);
      if i in s.protocols && s.protocols[i].far.Some? {
        OldLinksStayOld(s, i);
      }
    }
    assert IsRank(t, rank);
  }

  lemma OldLinksStayOld(s: Registry, i: Id)
    requires WellFormed(s) && i in s.protocols
    ensures s.protocols[i].far.Some? ==> s.protocols[i].far.value <= s.lastId
    ensures s.protocols[i].near.Some? ==> s.protocols[i].near.value <= s.lastId
  {
  }

  /** The next protocol of the chain has been created, and is not linked yet. */
  function BuiltAndOne(s: Registry, chain: seq<Kind>, spawns: seq<Spawn>, n: nat): (t: Registry)
    requires n < |chain| == |spawns| && forall k | 0 <= k <= n :: spawns[k].Spawned?
    ensures s.lastId + n + 1 in t.protocols && (n > 0 ==> s.lastId + n in t.protocols)
  {
    LastIsBuilt(s, chain, spawns, n);
    ProtocolStack.Created(Built(s, chain, spawns, n), chain[n],
                          spawns[n].deleteFar, spawns[n].deleteNear, spawns[n].output)
  }

  lemma LastIsBuilt(s: Registry, chain: seq<Kind>, spawns: seq<Spawn>, n: nat)
    requires n <= |chain| == |spawns| && forall k | 0 <= k < n :: spawns[k].Spawned?
    ensures Built(s, chain, spawns, n).lastId == s.lastId + n
    ensures n > 0 ==> s.lastId + n in Built(s, chain, spawns, n).protocols
  {
  }

  /** Calling SetNearProtocol on the last protocol of t, if there is one before it, gives the next state. */
  predicate AttachingBuilds(rules: Rules, s: Registry, t: Registry, chain: seq<Kind>, spawns: seq<Spawn>, n: nat)
    requires s.lastId + n + 1 in t.protocols && (n > 0 ==> s.lastId + n in t.protocols)
    requires n < |chain| == |spawns| && forall k | 0 <= k <= n :: spawns[k].Spawned?
  {
    if n == 0 then t == Built(s, chain, spawns, 1)
    else
      var linking := SetNear(rules, t, s.lastId + n, s.lastId + n + 1);
      && linking.aborted == !Compatible(rules, chain[n], chain[n - 1])
      && (!linking.aborted ==> linking.state == Built(s, chain, spawns, n + 1))
  }

  lemma BuiltStep(rules: Rules, s: Registry, chain: seq<Kind>, spawns: seq<Spawn>, n: nat)
    requires n < |chain| == |spawns| && forall k | 0 <= k <= n :: spawns[k].Spawned?
    requires Invariant(s)
    ensures AttachingBuilds(rules, s, BuiltAndOne(s, chain, spawns, n), chain, spawns, n)
  {
    hide Built;
    hide Closed;
    hide Symmetric;
    hide Acyclic;
    var t := BuiltAndOne(s, chain, spawns, n);
    var u := Built(s, chain, spawns, n + 1);
    var q, p := s.lastId + n, s.lastId + n + 1;
    BuiltIdsAndDead(s, chain, spawns, n);
    BuiltIdsAndDead(s, chain, spawns, n + 1);
    BuiltAt(s, chain, spawns, n, q);
    var v := if n == 0 then t else WithNear(WithFar(t, p, Some(q)), q, Some(p));
    forall i: Id
      ensures i in v.protocols <==> i in u.protocols
      ensures i in v.protocols ==> v.protocols[i] == u.protocols[i]
      ensures i in v.active <==> i in u.active
    {
      BuiltAt(s, chain, spawns, n, i);
      BuiltAt(s, chain, spawns, n + 1, i);
    }
    assert v.protocols == u.protocols && v.active == u.active;
  }

  lemma BuiltIdsAndDead(s: Registry, chain: seq<Kind>, spawns: seq<Spawn>, n: nat)
    requires n <= |chain| == |spawns| && forall k | 0 <= k < n :: spawns[k].Spawned?
    ensures Built(s, chain, spawns, n).lastId == s.lastId + n
    ensures Built(s, chain, spawns, n).dead == s.dead
  {
  }

  lemma {:induction false} BuiltFarPart(s: Registry, chain: seq<Kind>, spawns: seq<Spawn>, n: nat, k: nat)
    requires Invariant(s)
    requires n <= |chain| == |spawns| && forall j | 0 <= j < n :: spawns[j].Spawned?
    requires 0 < k <= n
    requires Invariant(Built(s, chain, spawns, n)) && s.lastId + k in Built(s, chain, spawns, n).protocols
    ensures FarPart(Built(s, chain, spawns, n), s.lastId + k) == seq(k, j => s.lastId + 1 + j)
  {
    hide Built;
    hide Closed;
    hide Symmetric;
    hide Acyclic;
    BuiltAt(s, chain, spawns, n, s.lastId + k);
    if k > 1 {
      BuiltAt(s, chain, spawns, n, s.lastId + k - 1);
      BuiltFarPart(s, chain, spawns, n, k - 1);
    }
  }

  /** The ids of the new stack, far endpoint first. */
  lemma BuiltIds(s: Registry, chain: seq<Kind>, spawns: seq<Spawn>)
    requires Invariant(s) && |chain| == |spawns| > 0 && forall k | 0 <= k < |chain| :: spawns[k].Spawned?
    ensures var n := |chain|;
      var t := Built(s, chain, spawns, n);
      && Invariant(t) && s.lastId + n in t.protocols
      && Stack(t, s.lastId + n) == seq(n, j => s.lastId + 1 + j)
      && t.protocols[s.lastId + n].near.None?
  {
    hide Built;
    hide Closed;
    hide Symmetric;
    hide Acyclic;
    var n := |chain|;
    BuiltInvariant(s, chain, spawns, n);
    BuiltAt(s, chain, spawns, n, s.lastId + n);
    BuiltFarPart(s, chain, spawns, n, n);
    assert NearPart(Built(s, chain, spawns, n), s.lastId + n) == [s.lastId + n];
  }

  /** t holds s untouched and a new stack, ending at p, whose types from the far endpoint on are the chain. */
  ghost predicate HoldsNewStack(s: Registry, t: Registry, p: Id, chain: seq<Kind>) {
    && Invariant(t) && p in t.protocols && p !in s.protocols && t.protocols[p].near.None?
    && (forall i <- s.protocols :: i in t.protocols && t.protocols[i] == s.protocols[i])
    && |Stack(t, p)| == |chain|
    && forall k | 0 <= k < |chain| :: Stack(t, p)[k] in t.protocols && t.protocols[Stack(t, p)[k]].kind == chain[k]
  }

  /** A chain whose protocols could all be created is built as requested. */
  lemma BuiltStack(s: Registry, chain: seq<Kind>, spawns: seq<Spawn>)
    requires Invariant(s) && |chain| == |spawns| > 0 && forall k | 0 <= k < |chain| :: spawns[k].Spawned?
    ensures HoldsNewStack(s, Built(s, chain, spawns, |chain|), s.lastId + |chain|, chain)
  {
    hide Built;
    hide Closed;
    hide Symmetric;
    hide Acyclic;
    hide Stack;
    var t, p := Built(s, chain, spawns, |chain|), s.lastId + |chain|;
    BuiltIds(s, chain, spawns);
    forall i <- s.protocols ensures i in t.protocols && t.protocols[i] == s.protocols[i] {
      BuiltAt(s, chain, spawns, |chain|, i);
    }
    assert p !in s.protocols;
    forall k | 0 <= k < |chain| ensures Stack(t, p)[k] in t.protocols && t.protocols[Stack(t, p)[k]].kind == chain[k] {
      BuiltAt(s, chain, spawns, |chain|, s.lastId + 1 + k);
    }
  }

  // ---------------------------------------------------------------- a failed attempt

  /** The first n protocols were created, the next was not, and the far endpoint was deleted. */
  function Abandoned(s: Registry, chain: seq<Kind>, spawns: seq<Spawn>, n: nat, lastId: Id): Registry
    requires n <= |chain| == |spawns| && forall k | 0 <= k < n :: spawns[k].Spawned?
  {
    var t := Built(s, chain, spawns, n).(lastId := lastId);
    if n == 0 then t else Teardown.Destroy(t, s.lastId + 1)
  }

  /** Every spawned protocol but the last takes its near neighbour with it when it is deleted. */
  predicate AllButLastDeleteNear(spawns: seq<Spawn>, n: nat)
    requires n <= |spawns| && forall k | 0 <= k < n :: spawns[k].Spawned?
  {
    forall k | 0 <= k < n - 1 :: spawns[k].deleteNear
  }

  /**
   * What an abandoned attempt leaves before the cleanup: all but the far endpoint, the next one dead if it
   * was to go.
   */
  ghost predicate AbandonedAt(s: Registry, t: Registry, spawns: seq<Spawn>, n: nat, i: Id)
    requires 0 < n <= |spawns| && forall k | 0 <= k < n :: spawns[k].Spawned?
  {
    var base := s.lastId;
    && (i in t.protocols <==> i in s.protocols || base + 1 < i <= base + n)
    && (i in s.protocols ==> i <= base && t.protocols[i] == s.protocols[i])
    && (base + 1 < i <= base + n ==>
      && t.protocols[i].far == (if i == base + 2 then None else Some(i - 1))
      && t.protocols[i].near == (if i == base + n then None else Some(i + 1))
      && t.protocols[i].deleteNear == spawns[i - base - 1].deleteNear)
    && (i in t.dead <==> i in s.dead || (i == base + 2 && n > 1 && spawns[0].deleteNear))
  }

  lemma AbandonedShape(s: Registry, chain: seq<Kind>, spawns: seq<Spawn>, n: nat, lastId: Id)
    requires Invariant(s) && s.lastId + n <= lastId
    requires 0 < n <= |chain| == |spawns| && forall k | 0 <= k < n :: spawns[k].Spawned?
    ensures var t := Abandoned(s, chain, spawns, n, lastId);
      && Invariant(t) && t.lastId == lastId
      && forall i: Id :: AbandonedAt(s, t, spawns, n, i)
  {
    hide Built;
    hide Closed;
    hide Symmetric;
    hide Teardown.Destroy;
    var base := s.lastId;
    BuiltInvariant(s, chain, spawns, n);
    BuiltIdsAndDead(s, chain, spawns, n);
    BuiltAt(s, chain, spawns, n, base + 1);
    BuiltAt(s, chain, spawns, n, base + 2);
    LaterLastId(Built(s, chain, spawns, n), lastId);
    var b := Built(s, chain, spawns, n).(lastId := lastId);
    DestroyKeepsInvariant(b, base + 1);
    NoSelfLink(b, base + 1);
    Teardown.DestroyEffect(b, base + 1);
    var t := Teardown.Destroy(b, base + 1);
    forall i: Id ensures AbandonedAt(s, t, spawns, n, i) {
      DestroyedBuiltAt(s, b, t, chain, spawns, n, i);
    }
  }

  lemma DestroyedBuiltAt(s: Registry, b: Registry, t: Registry, chain: seq<Kind>, spawns: seq<Spawn>, n: nat, i: Id)
    requires WellFormed(s)
    requires 0 < n <= |chain| == |spawns| && forall k | 0 <= k < n :: spawns[k].Spawned?
    requires b.protocols == Built(s, chain, spawns, n).protocols && b.dead == s.dead
    requires Teardown.Destroyed(b, t, s.lastId + 1)
    ensures AbandonedAt(s, t, spawns, n, i)
  {
    hide Built;
    hide Closed;
    hide Symmetric;
    var d := s.lastId + 1;
    BuiltAt(s, chain, spawns, n, d);
    BuiltAt(s, chain, spawns, n, i);
    assert i != d ==> Teardown.DestroyedAt(b, t, d, i);
    assert i in s.active + s.dead <==> i in s.protocols;
    if i in s.protocols {
      OldLinksStayOld(s, i);
    }
  }

  lemma LaterLastId(s: Registry, lastId: Id)
    requires Invariant(s) && s.lastId <= lastId
    ensures Invariant(s.(lastId := lastId))
  {
    assert IsRank(s.(lastId := lastId), Rank(s));
  }

  lemma NoSelfLink(s: Registry, p: Id)
    requires Invariant(s) && p in s.protocols
    ensures s.protocols[p].far != Some(p)
  {
    assert IsRank(s, Rank(s));
  }

  /** The old protocols are doomed or not as if the attempt had not been made. */
  lemma OldDoomUnchanged(s: Registry, t: Registry, added: set<Id>)
    requires WellFormed(s) && WellFormed(t) && added !! s.protocols.Keys
    requires t.protocols.Keys == s.protocols.Keys + added
    requires forall i <- s.protocols :: t.protocols[i] == s.protocols[i]
    requires forall i: Id :: i !in added ==> (i in t.dead <==> i in s.dead)
    ensures Teardown.Doomed(s) == Teardown.Doomed(t) - added
  {
    var ds, dt := Teardown.Doomed(s), Teardown.Doomed(t);
    assert ds <= dt by {
      forall i <- s.dead | i in s.protocols ensures i in dt { Teardown.DeadIsDoomed(t, i); }
      forall p <- dt, q <- s.protocols | Teardown.Kills(s, p, q) ensures q in dt {
        assert Teardown.Kills(t, p, q);
        Teardown.DoomedClosed(t, p, q);
      }
      Teardown.DoomedIsLeast(s, dt);
    }
    assert dt <= ds + added by {
      forall i <- t.dead | i in t.protocols ensures i in ds + added {
        if i !in added { Teardown.DeadIsDoomed(s, i); }
      }
      forall p <- ds + added, q <- t.protocols | Teardown.Kills(t, p, q) ensures q in ds + added {
        if q !in added {
          assert t.protocols[q].far == Some(p) || t.protocols[q].near == Some(p);
          assert p in s.protocols && Teardown.Kills(s, p, q);
          Teardown.DoomedClosed(s, p, q);
        }
      }
      Teardown.DoomedIsLeast(t, ds + added);
    }
  }

  /** Up to the first protocol that spares its near neighbour, the abandoned ones are doomed ... */
  lemma {:induction false} AbandonedDoomed(s: Registry, t: Registry, spawns: seq<Spawn>, n: nat, i: Id)
    requires 0 < n <= |spawns| && forall k | 0 <= k < n :: spawns[k].Spawned?
    requires forall j: Id :: AbandonedAt(s, t, spawns, n, j)
    requires s.lastId + 1 < i <= s.lastId + n && forall k | 0 <= k < i - s.lastId - 1 :: spawns[k].deleteNear
    ensures i in Teardown.Doomed(t)
  {
    assert AbandonedAt(s, t, spawns, n, i);
    if i == s.lastId + 2 {
      Teardown.DeadIsDoomed(t, i);
    } else {
      AbandonedDoomed(s, t, spawns, n, i - 1);
      assert AbandonedAt(s, t, spawns, n, i - 1);
      assert Teardown.Kills(t, i - 1, i);
      Teardown.DoomedClosed(t, i - 1, i);
    }
  }

  /** ... and those after it are not. */
  lemma AbandonedSpared(s: Registry, t: Registry, spawns: seq<Spawn>, n: nat, k: nat, i: Id)
    requires WellFormed(s) && WellFormed(t)
    requires 0 < n <= |spawns| && forall k | 0 <= k < n :: spawns[k].Spawned?
    requires forall j: Id :: AbandonedAt(s, t, spawns, n, j)
    requires k < n - 1 && !spawns[k].deleteNear && s.lastId + k + 2 <= i <= s.lastId + n
    ensures i !in Teardown.Doomed(t) && i in t.protocols
  {
    hide Closed;
    hide Symmetric;
    var base := s.lastId;
    var D := set p | p in t.protocols && p <= base + k + 1;
    forall p <- D, q <- t.protocols | Teardown.Kills(t, p, q) ensures q in D {
      assert AbandonedAt(s, t, spawns, n, p) && AbandonedAt(s, t, spawns, n, q);
      if p in s.protocols {
        OldLinksStayOld(s, p);
      }
    }
    forall p <- t.dead | p in t.protocols ensures p in D {
      assert AbandonedAt(s, t, spawns, n, p);
    }
    Teardown.DoomedIsLeast(t, D);
    assert AbandonedAt(s, t, spawns, n, i);
  }

  /** One of the first j protocols spawned does not take its near neighbour with it. */
  ghost predicate Spared(spawns: seq<Spawn>, j: nat)
    requires j < |spawns| && forall k | 0 <= k <= j :: spawns[k].Spawned?
  {
    exists k | 0 <= k < j :: !spawns[k].deleteNear
  }

  /** Which of the spawned protocols are still live after the next cleanup: those behind one that spares. */
  lemma SurvivorsOfFailure(s: Registry, chain: seq<Kind>, spawns: seq<Spawn>, n: nat, lastId: Id, j: nat)
    requires Invariant(s) && s.lastId + n <= lastId && j < n
    requires n <= |chain| == |spawns| && forall k | 0 <= k < n :: spawns[k].Spawned?
    ensures var t := Abandoned(s, chain, spawns, n, lastId);
      s.lastId + 1 + j in Teardown.Purge(t, Teardown.Doomed(t)).protocols <==> Spared(spawns, j)
  {
    hide Built;
    hide Abandoned;
    hide Closed;
    hide Symmetric;
    hide Acyclic;
    hide Teardown.Doomed;
    var t, i := Abandoned(s, chain, spawns, n, lastId), s.lastId + 1 + j;
    AbandonedShape(s, chain, spawns, n, lastId);
    assert AbandonedAt(s, t, spawns, n, i);
    if Spared(spawns, j) {
      var k :| 0 <= k < j && !spawns[k].deleteNear;
      AbandonedSpared(s, t, spawns, n, k, i);
    } else if j > 0 {
      AbandonedDoomed(s, t, spawns, n, i);
    } else {
      NotYetLive(s, i);
    }
  }

  lemma NotYetLive(s: Registry, i: Id)
    requires Invariant(s) && s.lastId < i
    ensures i !in s.protocols
  {
  }

  /** None of the protocols a failed attempt spawned is live in u. */
  ghost predicate NoneLeft(s: Registry, n: nat, u: Registry) {
    forall i: Id :: s.lastId < i <= s.lastId + n ==> i !in u.protocols
  }

  /**
   * The next cleanup removes everything a failed attempt created, and leaves exactly what it would have
   * left without the attempt, if and only if every spawned protocol but the last deletes its near neighbour;
   * if not, one of them is still live.
   */
  lemma FailedChainLeavesNothing(s: Registry, chain: seq<Kind>, spawns: seq<Spawn>, n: nat, lastId: Id)
    requires Invariant(s) && s.lastId + n <= lastId
    requires n <= |chain| == |spawns| && forall k | 0 <= k < n :: spawns[k].Spawned?
    ensures var t := Abandoned(s, chain, spawns, n, lastId);
      var u := Teardown.Purge(t, Teardown.Doomed(t));
      && (AllButLastDeleteNear(spawns, n) <==> NoneLeft(s, n, u))
      && (AllButLastDeleteNear(spawns, n) <==> u == Teardown.Purge(s, Teardown.Doomed(s)).(lastId := lastId))
  {
    hide Built;
    hide Abandoned;
    hide Closed;
    hide Symmetric;
    hide Acyclic;
    hide Teardown.Doomed;
    var t := Abandoned(s, chain, spawns, n, lastId);
    var u := Teardown.Purge(t, Teardown.Doomed(t));
    forall i: Id | s.lastId < i <= s.lastId + n
      ensures i in u.protocols <==> Spared(spawns, i - s.lastId - 1)
    {
      SurvivorsOfFailure(s, chain, spawns, n, lastId, i - s.lastId - 1);
    }
    if n == 0 {
      NothingAbandoned(s, chain, spawns, lastId);
      OldDoomUnchanged(s, t, {});
    } else if AllButLastDeleteNear(spawns, n) {
      AllGone(s, chain, spawns, n, lastId);
    } else {
      var k :| 0 <= k < n - 1 && !spawns[k].deleteNear;
      var i := s.lastId + 1 + (k + 1);
      assert Spared(spawns, i - s.lastId - 1) && i in u.protocols;
      NotYetLive(s, i);
    }
  }

  lemma AllGone(s: Registry, chain: seq<Kind>, spawns: seq<Spawn>, n: nat, lastId: Id)
    requires Invariant(s) && s.lastId + n <= lastId
    requires 0 < n <= |chain| == |spawns| && forall k | 0 <= k < n :: spawns[k].Spawned?
    requires AllButLastDeleteNear(spawns, n)
    ensures var t := Abandoned(s, chain, spawns, n, lastId);
      Teardown.Purge(t, Teardown.Doomed(t)) == Teardown.Purge(s, Teardown.Doomed(s)).(lastId := lastId)
  {
    hide Built;
    hide Abandoned;
    hide Closed;
    hide Symmetric;
    hide Acyclic;
    hide Teardown.Doomed;
    var t := Abandoned(s, chain, spawns, n, lastId);
    AbandonedShape(s, chain, spawns, n, lastId);
    var added := NewIds(s.lastId, n) - {s.lastId + 1};
    AddedIsNew(s, t, spawns, n);
    OldDoomUnchanged(s, t, added);
    forall i <- added ensures i in Teardown.Doomed(t) {
      AbandonedDoomed(s, t, spawns, n, i);
    }
    SamePurge(s, t, added);
  }

  lemma AddedIsNew(s: Registry, t: Registry, spawns: seq<Spawn>, n: nat)
    requires 0 < n <= |spawns| && forall k | 0 <= k < n :: spawns[k].Spawned?
    requires forall j: Id :: AbandonedAt(s, t, spawns, n, j)
    ensures var added := NewIds(s.lastId, n) - {s.lastId + 1};
      && added !! s.protocols.Keys
      && t.protocols.Keys == s.protocols.Keys + added
      && (forall i <- s.protocols :: t.protocols[i] == s.protocols[i])
      && (forall i: Id :: i !in added ==> (i in t.dead <==> i in s.dead))
  {
    var added := NewIds(s.lastId, n) - {s.lastId + 1};
    forall i: Id
      ensures i in s.protocols ==> i !in added && i in t.protocols && t.protocols[i] == s.protocols[i]
      ensures i in t.protocols <==> i in s.protocols || i in added
      ensures i !in added ==> (i in t.dead <==> i in s.dead)
    {
      assert AbandonedAt(s, t, spawns, n, i);
    }
  }

  lemma NothingAbandoned(s: Registry, chain: seq<Kind>, spawns: seq<Spawn>, lastId: Id)
    requires |chain| == |spawns| && Invariant(s) && s.lastId <= lastId
    ensures Abandoned(s, chain, spawns, 0, lastId) == s.(lastId := lastId)
    ensures WellFormed(s.(lastId := lastId))
  {
    assert Built(s, chain, spawns, 0).protocols == s.protocols;
  }

  lemma SamePurge(s: Registry, t: Registry, added: set<Id>)
    requires WellFormed(s) && WellFormed(t) && added !! s.protocols.Keys
    requires t.protocols.Keys == s.protocols.Keys + added
    requires forall i <- s.protocols :: t.protocols[i] == s.protocols[i]
    requires forall i: Id :: i !in added ==> (i in t.dead <==> i in s.dead)
    requires Teardown.Doomed(t) == Teardown.Doomed(s) + added
    ensures Teardown.Purge(t, Teardown.Doomed(t)) == Teardown.Purge(s, Teardown.Doomed(s)).(lastId := t.lastId)
  {
    hide Teardown.Doomed;
    var a, b := Teardown.Purge(t, Teardown.Doomed(t)), Teardown.Purge(s, Teardown.Doomed(s));
    forall i <- b.protocols ensures i in a.protocols && a.protocols[i] == b.protocols[i] {
      assert s.protocols[i].far.Some? ==> s.protocols[i].far.value !in added;
      assert s.protocols[i].near.Some? ==> s.protocols[i].near.value !in added;
    }
    assert a.protocols == b.protocols;
    forall i ensures i in a.active <==> i in b.active {
      assert i in t.active + t.dead <==> i in t.protocols;
      assert i in s.active + s.dead <==> i in s.protocols;
    }
    assert a.active == b.active;
  }

  // ---------------------------------------------------------------- the methods

  /** A protocol that cannot be initialized is deleted again, and leaves only its id used up. */
  method SpawnInVain(m: ProtocolManager, kind: Kind, spawn: Spawn)
    requires m.Valid() && spawn.NotInitialized?
    modifies m, m.Objects()
    ensures m.Valid() && m.All() == old(m.All())
    ensures m.Snapshot() == old(m.Snapshot()).(lastId := old(m.lastId) + 1)
  {
    hide WellFormed;
    hide Acyclic;
    hide Teardown.Destroy;
    hide ProtocolStack.Created;
    hide ProtocolManager.Consistent;
    m.IdsAreBelow();
    CreatedThenDestroyed(m.Snapshot(), kind, spawn.deleteFar, spawn.deleteNear, spawn.output);
    ghost var all := m.All();
    var created := new BaseProtocol(m, kind, spawn.deleteFar, spawn.deleteNear, spawn.output);
    created.Destroy(m);
    MapAddRemove(all, created.id, created);
  }

  lemma MapAddRemove<T>(all: map<Id, T>, id: Id, value: T)
    requires id !in all
    ensures all[id := value] - {id} == all
  {
  }

  /** The factory: create the protocol, and delete it again when it cannot be initialized. */
  method SpawnProtocol(m: ProtocolManager, kind: Kind, spawn: Spawn) returns (protocol: BaseProtocol?)
    requires m.Valid()
    modifies m, m.Objects()
    ensures m.Valid()
    ensures protocol == null <==> !spawn.Spawned?
    ensures protocol != null ==>
      && fresh(protocol) && m.Has(protocol) && protocol.id == old(m.lastId) + 1
      && m.All() == old(m.All())[protocol.id := protocol]
      && m.Snapshot() == ProtocolStack.Created(old(m.Snapshot()), kind, spawn.deleteFar, spawn.deleteNear, spawn.output)
    ensures protocol == null ==>
      && m.All() == old(m.All())
      && m.Snapshot() == old(m.Snapshot()).(lastId := old(m.lastId) + if spawn.NotInitialized? then 1 else 0)
  {
    hide WellFormed;
    hide Acyclic;
    hide ProtocolManager.Consistent;
    match spawn
    case NotImplemented =>
      protocol := null;
    case NotInitialized(_, _, _) =>
      SpawnInVain(m, kind, spawn);
      protocol := null;
    case Spawned(deleteFar, deleteNear, output) =>
      protocol := new BaseProtocol(m, kind, deleteFar, deleteNear, output);
  }

  lemma CreatedThenDestroyed(s: Registry, kind: Kind, deleteFar: bool, deleteNear: bool, output: Output)
    requires Invariant(s)
    ensures var id := s.lastId + 1;
      var t := ProtocolStack.Created(s, kind, deleteFar, deleteNear, output);
      && id !in s.protocols
      && Teardown.Destroy(t, id) == s.(lastId := id)
  {
    var id := s.lastId + 1;
    var t := ProtocolStack.Created(s, kind, deleteFar, deleteNear, output);
    var u := Teardown.Destroy(t, id);
    assert id !in s.active + s.dead;
    assert u.protocols == s.protocols;
    assert u.active == s.active && u.dead == s.dead;
  }

  /** How many of the protocols are spawned before the first one that is not. */
  function SpawnedCount(spawns: seq<Spawn>): (n: nat)
    ensures n <= |spawns| && (forall k | 0 <= k < n :: spawns[k].Spawned?)
    ensures n < |spawns| ==> !spawns[n].Spawned?
  {
    if spawns == [] || !spawns[0].Spawned? then 0 else 1 + SpawnedCount(spawns[1..])
  }

  lemma {:induction false} SpawnedCountIs(spawns: seq<Spawn>, n: nat)
    requires n <= |spawns| && (forall k | 0 <= k < n :: spawns[k].Spawned?)
    requires n < |spawns| ==> !spawns[n].Spawned?
    ensures SpawnedCount(spawns) == n
  {
    if n > 0 {
      SpawnedCountIs(spawns[1..], n - 1);
    }
  }

  /** The next protocol could not be spawned; `last` is the nearest of those that were. */
  ghost predicate Stranded(m: ProtocolManager, last: BaseProtocol?, s: Registry, chain: seq<Kind>, spawns: seq<Spawn>,
                           n: nat)
    reads m, m.Objects()
  {
    && n < |chain| == |spawns| && (forall k | 0 <= k < n :: spawns[k].Spawned?) && !spawns[n].Spawned?
    && m.Valid() && Invariant(s) && m.lastId == s.lastId + n + (if spawns[n].NotInitialized? then 1 else 0)
    && m.Snapshot() == Built(s, chain, spawns, n).(lastId := m.lastId)
    && (last == null <==> n == 0)
    && (last != null ==> m.Has(last) && last.id == s.lastId + n)
  }

  /** The next protocol has been spawned, and is not linked yet. */
  ghost predicate Attachable(m: ProtocolManager, last: BaseProtocol?, protocol: BaseProtocol,
                             s: Registry, chain: seq<Kind>, spawns: seq<Spawn>, n: nat)
    reads m, m.Objects()
  {
    && n < |chain| == |spawns| && (forall k | 0 <= k <= n :: spawns[k].Spawned?)
    && m.Consistent() && m.Has(protocol) && Invariant(s)
    && (last == null <==> n == 0)
    && (last != null ==> m.Has(last) && last.id == s.lastId + n)
    && protocol.id == s.lastId + n + 1
    && m.Snapshot() == BuiltAndOne(s, chain, spawns, n)
  }

  /** Attach the protocol just spawned to the near side of the last one, if there is one. */
  method Attach(m: ProtocolManager, last: BaseProtocol?, protocol: BaseProtocol,
                ghost s: Registry, chain: seq<Kind>, spawns: seq<Spawn>, n: nat)
      returns (aborted: bool)
    requires Attachable(m, last, protocol, s, chain, spawns, n)
    modifies if last == null then {} else {last}, protocol
    ensures aborted <==> n > 0 && !Compatible(m.rules, chain[n], chain[n - 1])
    ensures !aborted ==> BuiltSoFar(m, protocol, s, chain, spawns, n + 1)
    ensures m.All() == old(m.All())
  {
    hide Built;
    hide WellFormed;
    hide Acyclic;
    hide BuiltAndOne;
    hide ProtocolManager.Consistent;
    hide ProtocolManager.Snapshot;
    hide SetNear;
    hide Compatible;
    BuiltStep(m.rules, s, chain, spawns, n);
    BuiltInvariant(s, chain, spawns, n + 1);
    aborted := false;
    if last != null {
      aborted := last.SetNearProtocol(m, protocol);
    }
  }

  /** Give up: delete the far endpoint, and leave the rest to the cleanup. */
  method Abandon(m: ProtocolManager, last: BaseProtocol?,
                 ghost s: Registry, chain: seq<Kind>, spawns: seq<Spawn>, ghost n: nat)
    requires Stranded(m, last, s, chain, spawns, n)
    modifies m, m.Objects()
    ensures GivenUp(m, s, chain, spawns, n) && m.Valid()
  {
    hide Built;
    hide WellFormed;
    hide Acyclic;
    hide Teardown.Destroy;
    hide ProtocolManager.Snapshot;
    if last != null {
      BuiltFarEnd(s, chain, spawns, n, m.lastId);
      var end := last.GetFarEndpoint(m);
      end.Destroy(m);
    }
  }

  lemma BuiltFarEnd(s: Registry, chain: seq<Kind>, spawns: seq<Spawn>, n: nat, lastId: Id)
    requires Invariant(s) && s.lastId + n <= lastId
    requires 0 < n <= |chain| == |spawns| && forall k | 0 <= k < n :: spawns[k].Spawned?
    ensures var t := Built(s, chain, spawns, n).(lastId := lastId);
      && Invariant(t) && s.lastId + n in t.protocols
      && Deferred.FarEnd(t, s.lastId + n) == s.lastId + 1
  {
    hide Built;
    hide Closed;
    hide Symmetric;
    hide Acyclic;
    var b := Built(s, chain, spawns, n);
    var t := b.(lastId := lastId);
    BuiltInvariant(s, chain, spawns, n);
    BuiltIdsAndDead(s, chain, spawns, n);
    BuiltAt(s, chain, spawns, n, s.lastId + n);
    LaterLastId(b, lastId);
    FarPartFrame(b, t, s.lastId + n);
    BuiltFarPart(s, chain, spawns, n, n);
  }

  /** The first n protocols of the chain have been added to s, and `last` is the nearest of them. */
  ghost predicate BuiltSoFar(m: ProtocolManager, last: BaseProtocol?, s: Registry,
                             chain: seq<Kind>, spawns: seq<Spawn>, n: nat)
    reads m, m.Objects()
  {
    && n <= |chain| == |spawns| && (forall k | 0 <= k < n :: spawns[k].Spawned?)
    && m.Valid() && Invariant(s) && m.Snapshot() == Built(s, chain, spawns, n)
    && (last == null <==> n == 0)
    && (last != null ==> m.Has(last) && last.id == s.lastId + n)
  }

  /** The attempt has failed after n protocols. */
  ghost predicate GivenUp(m: ProtocolManager, s: Registry, chain: seq<Kind>, spawns: seq<Spawn>, n: nat)
    reads m, m.Objects()
  {
    && n < |chain| == |spawns| && (forall k | 0 <= k < n :: spawns[k].Spawned?) && !spawns[n].Spawned?
    && m.Valid()
    && m.Snapshot() == Abandoned(s, chain, spawns, n, s.lastId + n + if spawns[n].NotInitialized? then 1 else 0)
  }

  lemma NothingSoFar(m: ProtocolManager, chain: seq<Kind>, spawns: seq<Spawn>)
    requires m.Valid() && |chain| == |spawns|
    ensures BuiltSoFar(m, null, m.Snapshot(), chain, spawns, 0)
  {
    hide WellFormed;
    hide Acyclic;
    hide Built;
    NothingBuilt(m.Snapshot(), chain, spawns);
  }

  /** Ask the factory for the next protocol of the chain. */
  method SpawnNext(m: ProtocolManager, last: BaseProtocol?, ghost s: Registry,
                   chain: seq<Kind>, spawns: seq<Spawn>, n: nat)
      returns (next: BaseProtocol?)
    requires BuiltSoFar(m, last, s, chain, spawns, n) && n < |chain|
    modifies m, m.Objects()
    ensures next == null <==> !spawns[n].Spawned?
    ensures next == null ==> Stranded(m, last, s, chain, spawns, n) && m.All() == old(m.All())
    ensures next != null ==>
      && Attachable(m, last, next, s, chain, spawns, n)
      && fresh(next) && m.All() == old(m.All())[next.id := next]
  {
    hide Built;
    hide WellFormed;
    hide Acyclic;
    hide ProtocolManager.Consistent;
    hide ProtocolStack.Created;
    BuiltIdsAndDead(s, chain, spawns, n);
    next := SpawnProtocol(m, chain[n], spawns[n]);
  }

  /** One turn of the spawning loop: the next protocol is attached, or the attempt ends. */
  method Extend(m: ProtocolManager, last: BaseProtocol?, ghost s: Registry,
                chain: seq<Kind>, spawns: seq<Spawn>, n: nat)
      returns (end: Option<Outcome>, next: BaseProtocol?)
    requires BuiltSoFar(m, last, s, chain, spawns, n) && n < |chain|
    modifies m, m.Objects()
    ensures end == if !spawns[n].Spawned? then Some(Failed)
                   else if n > 0 && !Compatible(m.rules, chain[n], chain[n - 1]) then Some(Aborted)
                   else None
    ensures end.None? ==>
      && BuiltSoFar(m, next, s, chain, spawns, n + 1)
      && next != null && fresh(next) && m.All() == old(m.All())[next.id := next]
    ensures end == Some(Failed) ==> GivenUp(m, s, chain, spawns, n) && m.Valid()
  {
    hide Built;
    hide WellFormed;
    hide Acyclic;
    hide Compatible;
    hide ProtocolManager.Consistent;
    hide ProtocolManager.Snapshot;
    hide Stranded;
    hide Attachable;
    hide GivenUp;
    next := SpawnNext(m, last, s, chain, spawns, n);
    if next == null {
      Abandon(m, last, s, chain, spawns, n);
      return Some(Failed), null;
    }
    var aborted := Attach(m, last, next, s, chain, spawns, n);
    end := if aborted then Some(Aborted) else None;
  }

  /** The second part of CreateProtocolChain: every type is known to be handled. */
  method SpawnChain(m: ProtocolManager, chain: seq<Kind>, spawns: seq<Spawn>) returns (outcome: Outcome)
    requires m.Valid() && chain != [] && |spawns| == |chain|
    modifies m, m.Objects()
    ensures outcome.Aborted? <==> !Linkable(m.rules, chain, SpawnedCount(spawns))
    ensures outcome.Created? <==> SpawnedCount(spawns) == |chain| && Linkable(m.rules, chain, |chain|)
    ensures outcome.Created? ==>
      && m.Valid() && m.Has(outcome.nearEndpoint) && fresh(outcome.nearEndpoint)
      && HoldsNewStack(old(m.Snapshot()), m.Snapshot(), outcome.nearEndpoint.id, chain)
    ensures outcome.Failed? ==> GivenUp(m, old(m.Snapshot()), chain, spawns, SpawnedCount(spawns)) && m.Valid()
  {
    hide WellFormed;
    hide Acyclic;
    hide HoldsNewStack;
    hide Linkable;
    hide Compatible;
    hide SpawnedCount;
    hide BuiltSoFar;
    hide GivenUp;
    ghost var s := m.Snapshot();
    var last: BaseProtocol? := null;
    var n := 0;
    NothingSoFar(m, chain, spawns);
    LinkableNext(m.rules, chain, 0);
    while n < |chain|
      invariant n <= |chain| && BuiltSoFar(m, last, s, chain, spawns, n)
      invariant forall k | 0 <= k < n :: spawns[k].Spawned?
      invariant forall o <- m.Objects() :: o in old(m.Objects()) || fresh(o)
      invariant last != null ==> fresh(last)
      invariant Linkable(m.rules, chain, n)
    {
      LinkableNext(m.rules, chain, n);
      var end, next := Extend(m, last, s, chain, spawns, n);
      if end.Some? {
        if end.value.Aborted? {
          SpawnedFurther(m.rules, chain, spawns, n);
        } else {
          SpawnedCountIs(spawns, n);
        }
        return end.value;
      }
      last, n := next, n + 1;
    }
    SpawnedCountIs(spawns, n);
    outcome := Finish(m, last, s, chain, spawns);
  }

  /** The whole chain is built; its near endpoint is the result. */
  method Finish(m: ProtocolManager, last: BaseProtocol?, ghost s: Registry, chain: seq<Kind>, spawns: seq<Spawn>)
      returns (outcome: Outcome)
    requires BuiltSoFar(m, last, s, chain, spawns, |chain|) && chain != []
    ensures outcome == Created(last)
    ensures m.Valid() && m.Has(last) && HoldsNewStack(s, m.Snapshot(), last.id, chain)
  {
    hide Built;
    hide WellFormed;
    hide Acyclic;
    hide HoldsNewStack;
    BuiltStack(s, chain, spawns);
    BuiltNearEnd(s, chain, spawns);
    var end := last.GetNearEndpoint(m);
    outcome := Created(end);
  }

  /** ProtocolFactoryManager::CreateProtocolChain; `handled` are the types some factory is registered for. */
  method CreateProtocolChain(m: ProtocolManager, handled: set<Kind>, chain: seq<Kind>, spawns: seq<Spawn>)
      returns (outcome: Outcome)
    requires m.Valid() && chain != [] && |spawns| == |chain|
    modifies m, m.Objects()
    ensures (exists kind <- chain :: kind !in handled) ==> outcome.Failed? && m.Snapshot() == old(m.Snapshot())
    ensures !outcome.Aborted? ==> m.Valid()
    ensures (forall kind <- chain :: kind in handled) ==>
      && (outcome.Aborted? <==> !Linkable(m.rules, chain, SpawnedCount(spawns)))
      && (outcome.Created? <==> SpawnedCount(spawns) == |chain| && Linkable(m.rules, chain, |chain|))
    ensures outcome.Created? ==>
      && m.Valid() && m.Has(outcome.nearEndpoint) && fresh(outcome.nearEndpoint)
      && HoldsNewStack(old(m.Snapshot()), m.Snapshot(), outcome.nearEndpoint.id, chain)
    ensures outcome.Failed? && (forall kind <- chain :: kind in handled) ==>
      GivenUp(m, old(m.Snapshot()), chain, spawns, SpawnedCount(spawns))
  {
    hide GivenUp;
    hide WellFormed;
    hide Acyclic;
    hide HoldsNewStack;
    hide Linkable;
    for k := 0 to |chain|
      invariant forall j | 0 <= j < k :: chain[j] in handled
    {
      if chain[k] !in handled { return Failed; }
    }
    outcome := SpawnChain(m, chain, spawns);
  }

  lemma SpawnedFurther(rules: Rules, chain: seq<Kind>, spawns: seq<Spawn>, n: nat)
    requires 0 < n < |chain| == |spawns| && forall k | 0 <= k <= n :: spawns[k].Spawned?
    requires !Compatible(rules, chain[n], chain[n - 1])
    ensures !Linkable(rules, chain, SpawnedCount(spawns)) && !Linkable(rules, chain, |chain|)
  {
    assert SpawnedCount(spawns) > n;
  }

  /**
   * A chain vector that leaves one: TCP, HTTP for RTMP, inbound RTMP and RTMPE. The first three are spawned
   * and linked, RTMPE is handled but not implemented, and the deletion of the second does not delete the
   * third, which nobody refers to any more.
   */
  lemma SparedSurvivor(rules: Rules, s: Registry, tcp: Kind, http4rtmp: Kind, rtmp: Kind, rtmpe: Kind, output: Output)
    requires Invariant(s) && Compatible(rules, http4rtmp, tcp) && Compatible(rules, rtmp, http4rtmp)
    ensures var deleting, sparing := Spawned(true, true, output), Spawned(true, false, output);
      var chain, spawns := [tcp, http4rtmp, rtmp, rtmpe], [deleting, sparing, deleting, NotImplemented];
      && SpawnedCount(spawns) == 3 && Linkable(rules, chain, 3)
      && var t := Abandoned(s, chain, spawns, 3, s.lastId + 3);
         var left := Teardown.Purge(t, Teardown.Doomed(t)).protocols;
         s.lastId + 1 !in left && s.lastId + 2 !in left && s.lastId + 3 in left
  {
    hide Built;
    hide Abandoned;
    hide Closed;
    hide Symmetric;
    hide Acyclic;
    hide Teardown.Doomed;
    hide Teardown.Purge;
    var deleting, sparing := Spawned(true, true, output), Spawned(true, false, output);
    var chain, spawns := [tcp, http4rtmp, rtmp, rtmpe], [deleting, sparing, deleting, NotImplemented];
    SpawnedCountIs(spawns, 3);
    SurvivorsOfFailure(s, chain, spawns, 3, s.lastId + 3, 0);
    SurvivorsOfFailure(s, chain, spawns, 3, s.lastId + 3, 1);
    SurvivorsOfFailure(s, chain, spawns, 3, s.lastId + 3, 2);
    assert !spawns[1].deleteNear;
  }

  lemma BuiltNearEnd(s: Registry, chain: seq<Kind>, spawns: seq<Spawn>)
    requires Invariant(s) && |chain| == |spawns| > 0 && forall k | 0 <= k < |chain| :: spawns[k].Spawned?
    ensures var t, p := Built(s, chain, spawns, |chain|), s.lastId + |chain|;
      Invariant(t) && p in t.protocols && Deferred.NearEnd(t, p) == p
  {
    hide Built;
    hide Closed;
    hide Symmetric;
    hide Acyclic;
    BuiltIds(s, chain, spawns);
  }

  lemma NothingBuilt(s: Registry, chain: seq<Kind>, spawns: seq<Spawn>)
    requires |chain| == |spawns|
    ensures Built(s, chain, spawns, 0) == s
  {
    assert Built(s, chain, spawns, 0).protocols == s.protocols;
    assert Built(s, chain, spawns, 0).active == s.active;
  }
}
