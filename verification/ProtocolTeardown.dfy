/**
 * Enqueueing for deletion, deleting one protocol, and what draining the dead map amounts to.
 *
 * A deletion may push the neighbours of the deleted protocol into the very map being drained. The
 * main results say that the outcome is nevertheless a function of the state the drain started from:
 * the protocols reachable from the dead ones along links whose owner has the delete flag of that
 * side set are gone, and nothing else changed but the links into them.
 */
module ProtocolTeardown {
  import opened Options
  import opened ProtocolState

  // ---------------------------------------------------------------- the operations

  /** ProtocolManager::EnqueueForDelete: move p to the dead map. */
  function MoveToDead(s: Registry, p: Id): Registry {
    s.(active := s.active - {p}, dead := s.dead + {p})
  }

  /** BaseProtocol::EnqueueForDelete: the same, once. */
  function Enqueue(s: Registry, p: Id): Registry
    requires p in s.protocols
  {
    if s.protocols[p].enqueued then s
    else MoveToDead(s.(protocols := s.protocols[p := s.protocols[p].(enqueued := true)]), p)
  }

  /** The far half of the destructor: unlink q, and enqueue it if the flag says so. */
  function ReleaseFar(s: Registry, q: Id, enqueue: bool): Registry
    requires q in s.protocols
  {
    var t := WithNear(s, q, None);
    if enqueue then Enqueue(t, q) else t
  }

  /** The near half of the destructor. */
  function ReleaseNear(s: Registry, q: Id, enqueue: bool): Registry
    requires q in s.protocols
  {
    var t := WithFar(s, q, None);
    if enqueue then Enqueue(t, q) else t
  }

  function Forget(s: Registry, p: Id): Registry {
    s.(protocols := s.protocols - {p}, active := s.active - {p}, dead := s.dead - {p})
  }

  /** p's links are live ones. */
  predicate LinksStayIn(s: Registry, p: Id) {
    && p in s.protocols
    && (s.protocols[p].far.Some? ==> s.protocols[p].far.value in s.protocols)
    && (s.protocols[p].near.Some? ==> s.protocols[p].near.value in s.protocols)
  }

  /** The destructor up to its last line: p is unlinked, its neighbours are told. */
  function Detach(s: Registry, p: Id): (t: Registry)
    requires LinksStayIn(s, p)
    ensures t.protocols.Keys == s.protocols.Keys
  {
    var self := s.protocols[p];
    var s0 := WithNear(WithFar(s, p, None), p, None);
    var s1 := if self.far.Some? then ReleaseFar(s0, self.far.value, self.deleteFar) else s0;
    if self.near.Some? then ReleaseNear(s1, self.near.value, self.deleteNear) else s1
  }

  /** BaseProtocol::~BaseProtocol. */
  function Destroy(s: Registry, p: Id): Registry
    requires LinksStayIn(s, p)
  {
    Forget(Detach(s, p), p)
  }

  // ---------------------------------------------------------------- reachability

  /** Deleting p enqueues q. */
  predicate Kills(s: Registry, p: Id, q: Id) {
    && p in s.protocols && q in s.protocols
    && ((s.protocols[p].far == Some(q) && s.protocols[p].deleteFar)
        || (s.protocols[p].near == Some(q) && s.protocols[p].deleteNear))
  }

  /** A walk from a dead protocol to q along deleting links. */
  ghost predicate IsKillPath(s: Registry, path: seq<Id>, q: Id) {
    && |path| > 0 && path[|path| - 1] == q && q in s.protocols
    && (if |path| == 1 then q in s.dead
        else IsKillPath(s, path[..|path| - 1], path[|path| - 2]) && Kills(s, path[|path| - 2], q))
  }

  /** The protocols reachable from the dead map along deleting links. */
  ghost function Doomed(s: Registry): set<Id> {
    set q | q in s.protocols && exists path :: IsKillPath(s, path, q)
  }

  /** s without the protocols of D, the links into D cut, and the dead map empty. */
  ghost function Purge(s: Registry, D: set<Id>): Registry {
    Registry(map i | i in s.protocols && i !in D :: Cut(s.protocols[i], D), s.active - D, {}, s.lastId)
  }

  function Cut(n: Protocol, D: set<Id>): Protocol {
    n.(far := if n.far.Some? && n.far.value in D then None else n.far,
       near := if n.near.Some? && n.near.value in D then None else n.near)
  }

  lemma DoomedClosed(s: Registry, p: Id, q: Id)
    requires p in Doomed(s) && Kills(s, p, q)
    ensures q in Doomed(s)
  {
    var path :| IsKillPath(s, path, p);
    var longer := path + [q];
    assert longer[..|longer| - 1] == path;
    assert IsKillPath(s, longer, q);
  }

  lemma DeadIsDoomed(s: Registry, p: Id)
    requires p in s.dead && p in s.protocols
    ensures p in Doomed(s)
  {
    assert IsKillPath(s, [p], p);
  }

  /** Doomed is the least set that holds the dead protocols and is closed under deleting links. */
  lemma {:induction false} DoomedIsLeast(s: Registry, D: set<Id>)
    requires forall p <- s.dead :: p in s.protocols ==> p in D
    requires forall p <- D, q <- s.protocols :: Kills(s, p, q) ==> q in D
    ensures Doomed(s) <= D
  {
    forall q | q in Doomed(s) ensures q in D {
      var path :| IsKillPath(s, path, q);
      KillPathStaysIn(s, path, q, D);
    }
  }

  lemma {:induction false} KillPathStaysIn(s: Registry, path: seq<Id>, q: Id, D: set<Id>)
    requires IsKillPath(s, path, q)
    requires forall p <- s.dead :: p in s.protocols ==> p in D
    requires forall p <- D, q <- s.protocols :: Kills(s, p, q) ==> q in D
    ensures q in D
  {
    if |path| > 1 {
      KillPathStaysIn(s, path[..|path| - 1], path[|path| - 2], D);
    }
  }

  // ---------------------------------------------------------------- one deletion

  /** i after p has been deleted, given that the links between the two agree. */
  ghost predicate DestroyedAt(s: Registry, t: Registry, p: Id, i: Id) {
    && (i in t.protocols <==> i in s.protocols)
    && (i in s.protocols ==>
      t.protocols[i] == Cut(s.protocols[i], {p}).(enqueued := s.protocols[i].enqueued || Kills(s, p, i)))
    && (i in t.dead <==> i in s.dead || Kills(s, p, i))
    && (i in t.active <==> i in s.active && !Kills(s, p, i))
  }

  /** p and i agree on whether they are linked, and neither is linked to itself. */
  ghost predicate Agree(s: Registry, p: Id, i: Id) {
    && i != p && p in s.protocols
    && (s.protocols[p].far.Some? ==> s.protocols[p].far.value in s.protocols && s.protocols[p].far.value != p)
    && (s.protocols[p].near.Some? ==> s.protocols[p].near.value in s.protocols && s.protocols[p].near.value != p)
    && (i in s.protocols ==>
      && (s.protocols[i].near == Some(p) <==> s.protocols[p].far == Some(i))
      && (s.protocols[i].far == Some(p) <==> s.protocols[p].near == Some(i))
      && (s.protocols[i].enqueued ==> i in s.dead && i !in s.active))
  }

  /** Where i is registered after p has been deleted. */
  lemma RegistrationAt(s: Registry, p: Id, i: Id)
    requires Agree(s, p, i)
    ensures var t := Destroy(s, p);
      && (i in t.protocols <==> i in s.protocols)
      && (i in t.dead <==> i in s.dead || Kills(s, p, i))
      && (i in t.active <==> i in s.active && !Kills(s, p, i))
  {
    hide ReleaseFar;
    hide ReleaseNear;
    var self := s.protocols[p];
    var s0 := WithNear(WithFar(s, p, None), p, None);
    var s1 := if self.far.Some? then ReleaseFar(s0, self.far.value, self.deleteFar) else s0;
    if self.far.Some? { FarReleasedAt(s0, self.far.value, self.deleteFar, i); }
    if self.near.Some? { NearReleasedAt(s1, self.near.value, self.deleteNear, i); }
  }

  /** What becomes of a's record when it loses a near neighbour, a far one, or both. */
  function Bereft(a: Protocol, nearGone: bool, farGone: bool, nearKills: bool, farKills: bool): Protocol {
    var b := if nearGone then a.(near := None, enqueued := a.enqueued || nearKills) else a;
    if farGone then b.(far := None, enqueued := b.enqueued || farKills) else b
  }

  /** What i looks like after p has been deleted. */
  lemma RecordAt(s: Registry, p: Id, i: Id)
    requires Agree(s, p, i) && i in s.protocols
    ensures i in Destroy(s, p).protocols
    ensures Destroy(s, p).protocols[i] ==
            Cut(s.protocols[i], {p}).(enqueued := s.protocols[i].enqueued || Kills(s, p, i))
  {
    hide Detach;
    DetachedRecord(s, p, i);
    BereftIsCut(s, p, i);
  }

  lemma DetachedRecord(s: Registry, p: Id, i: Id)
    requires Agree(s, p, i) && i in s.protocols
    ensures var self := s.protocols[p];
      Detach(s, p).protocols[i] ==
      Bereft(s.protocols[i], self.far == Some(i), self.near == Some(i), self.deleteFar, self.deleteNear)
  {
    hide ReleaseFar;
    hide ReleaseNear;
    var self := s.protocols[p];
    var s0 := WithNear(WithFar(s, p, None), p, None);
    var s1 := if self.far.Some? then ReleaseFar(s0, self.far.value, self.deleteFar) else s0;
    if self.far.Some? { FarReleasedAt(s0, self.far.value, self.deleteFar, i); }
    if self.near.Some? { NearReleasedAt(s1, self.near.value, self.deleteNear, i); }
  }

  lemma BereftIsCut(s: Registry, p: Id, i: Id)
    requires Agree(s, p, i) && i in s.protocols
    ensures var self, a := s.protocols[p], s.protocols[i];
      Bereft(a, self.far == Some(i), self.near == Some(i), self.deleteFar, self.deleteNear) ==
      Cut(a, {p}).(enqueued := a.enqueued || Kills(s, p, i))
  {
  }

  /** Releasing q changes only q: its link, and its registration when it is to be enqueued. */
  lemma FarReleasedAt(s: Registry, q: Id, enqueue: bool, i: Id)
    requires q in s.protocols && (q == i && s.protocols[q].enqueued ==> q in s.dead && q !in s.active)
    ensures var t := ReleaseFar(s, q, enqueue);
      && t.protocols.Keys == s.protocols.Keys
      && (i in t.dead <==> i in s.dead || (i == q && enqueue))
      && (i in t.active <==> i in s.active && !(i == q && enqueue))
      && (i in s.protocols ==> t.protocols[i] == if i != q then s.protocols[i]
            else s.protocols[i].(near := None, enqueued := s.protocols[i].enqueued || enqueue))
  {
  }

  lemma NearReleasedAt(s: Registry, q: Id, enqueue: bool, i: Id)
    requires q in s.protocols && (q == i && s.protocols[q].enqueued ==> q in s.dead && q !in s.active)
    ensures var t := ReleaseNear(s, q, enqueue);
      && t.protocols.Keys == s.protocols.Keys
      && (i in t.dead <==> i in s.dead || (i == q && enqueue))
      && (i in t.active <==> i in s.active && !(i == q && enqueue))
      && (i in s.protocols ==> t.protocols[i] == if i != q then s.protocols[i]
            else s.protocols[i].(far := None, enqueued := s.protocols[i].enqueued || enqueue))
  {
  }

  /** t is s after p has been deleted. */
  ghost predicate Destroyed(s: Registry, t: Registry, p: Id) {
    && p !in t.protocols && p !in t.dead && p !in t.active
    && t.lastId == s.lastId
    && forall i | i != p :: DestroyedAt(s, t, p, i)
  }

  lemma DestroyEffect(s: Registry, p: Id)
    requires WellFormed(s) && p in s.protocols && s.protocols[p].far != Some(p)
    ensures Destroyed(s, Destroy(s, p), p)
  {
    assert s.protocols[p].near != Some(p);
    forall i | i != p ensures DestroyedAt(s, Destroy(s, p), p, i) {
      RegistrationAt(s, p, i);
      if i in s.protocols { RecordAt(s, p, i); }
    }
  }

  lemma DestroyedIsWellFormed(s: Registry, t: Registry, p: Id)
    requires WellFormed(s) && Destroyed(s, t, p)
    ensures WellFormed(t)
  {
    DestroyedPartition(s, t, p);
    DestroyedLinks(s, t, p);
  }

  lemma DestroyedPartition(s: Registry, t: Registry, p: Id)
    requires Partitioned(s) && Destroyed(s, t, p)
    ensures Partitioned(t)
  {
    forall i | i in t.protocols || i in t.active || i in t.dead
      ensures i != p && i in s.protocols && DestroyedAt(s, t, p, i)
    {
      assert i != p;
      assert DestroyedAt(s, t, p, i);
      assert i in s.active + s.dead || i in s.protocols;
    }
    assert t.active + t.dead == t.protocols.Keys;
  }

  lemma DestroyedLinks(s: Registry, t: Registry, p: Id)
    requires Closed(s) && Symmetric(s) && Destroyed(s, t, p)
    ensures Closed(t) && Symmetric(t)
  {
    hide Closed;
    hide Symmetric;
    forall i <- t.protocols, j: Id
      ensures t.protocols[i].far == Some(j) || t.protocols[i].near == Some(j) ==> j in t.protocols
      ensures j in t.protocols ==> (t.protocols[i].far == Some(j) <==> t.protocols[j].near == Some(i))
    {
      DestroyedLinkAt(s, t, p, i, j);
    }
    LinksFromPoints(t);
  }

  lemma LinksFromPoints(t: Registry)
    requires forall i <- t.protocols, j: Id ::
               t.protocols[i].far == Some(j) || t.protocols[i].near == Some(j) ==> j in t.protocols
    requires forall i <- t.protocols, j <- t.protocols ::
               t.protocols[i].far == Some(j) <==> t.protocols[j].near == Some(i)
    ensures Closed(t) && Symmetric(t)
  {
  }

  lemma DestroyedLinkAt(s: Registry, t: Registry, p: Id, i: Id, j: Id)
    requires Closed(s) && Symmetric(s) && Destroyed(s, t, p) && i in t.protocols
    ensures t.protocols[i].far == Some(j) || t.protocols[i].near == Some(j) ==> j in t.protocols
    ensures j in t.protocols ==> (t.protocols[i].far == Some(j) <==> t.protocols[j].near == Some(i))
  {
    assert DestroyedAt(s, t, p, i);
    if j != p { assert DestroyedAt(s, t, p, j); }
  }

  /** Deleting a dead protocol takes it, and only it, out of the doomed set. */
  lemma DestroyedDoomed(s: Registry, t: Registry, p: Id)
    requires WellFormed(s) && Destroyed(s, t, p) && p in s.dead
    ensures Doomed(s) == Doomed(t) + {p} && p !in Doomed(t)
  {
    DeadIsDoomed(s, p);
    assert Doomed(s) <= Doomed(t) + {p} by {
      forall q <- Doomed(t) + {p}, r <- s.protocols | Kills(s, q, r) ensures r in Doomed(t) + {p} {
        if r != p {
          assert DestroyedAt(s, t, p, r);
          if q == p {
            DeadIsDoomed(t, r);
          } else {
            assert DestroyedAt(s, t, p, q) && Kills(t, q, r);
            DoomedClosed(t, q, r);
          }
        }
      }
      forall q <- s.dead | q in s.protocols ensures q in Doomed(t) + {p} {
        if q != p { assert DestroyedAt(s, t, p, q); DeadIsDoomed(t, q); }
      }
      DoomedIsLeast(s, Doomed(t) + {p});
    }
    assert Doomed(t) <= Doomed(s) by {
      forall q <- t.dead | q in t.protocols ensures q in Doomed(s) {
        assert DestroyedAt(s, t, p, q);
        if q in s.dead { DeadIsDoomed(s, q); } else { DoomedClosed(s, p, q); }
      }
      forall q <- Doomed(s), r <- t.protocols | Kills(t, q, r) ensures r in Doomed(s) {
        assert DestroyedAt(s, t, p, q) && DestroyedAt(s, t, p, r) && Kills(s, q, r);
        DoomedClosed(s, q, r);
      }
      DoomedIsLeast(t, Doomed(s));
    }
  }

  lemma CutTwice(n: Protocol, p: Id, D: set<Id>)
    ensures Cut(Cut(n, {p}), D) == Cut(n, D + {p})
  {
  }

  /** The state a drain ends in is the same before and after any one of its deletions. */
  lemma DestroyedOutcome(s: Registry, t: Registry, p: Id)
    requires WellFormed(s) && Destroyed(s, t, p) && p in s.dead
    ensures Purge(t, Doomed(t)) == Purge(s, Doomed(s))
  {
    DestroyedDoomed(s, t, p);
    forall i | i != p && i !in Doomed(s) ensures SameAfterPurge(s, t, p, Doomed(t), i) {
      SurvivorUntouched(s, t, p, i, Doomed(t));
    }
    PurgeAfter(s, t, p, Doomed(t));
  }

  ghost predicate SameAfterPurge(s: Registry, t: Registry, p: Id, E: set<Id>, i: Id) {
    && (i in t.protocols <==> i in s.protocols)
    && (i in t.active <==> i in s.active)
    && (i in s.protocols && i in t.protocols ==> Cut(t.protocols[i], E) == Cut(s.protocols[i], E + {p}))
  }

  lemma PurgeAfter(s: Registry, t: Registry, p: Id, E: set<Id>)
    requires Destroyed(s, t, p)
    requires forall i | i != p && i !in E :: SameAfterPurge(s, t, p, E, i)
    ensures Purge(t, E) == Purge(s, E + {p})
  {
    assert Purge(t, E).protocols == Purge(s, E + {p}).protocols by {
      forall i ensures i in Purge(t, E).protocols <==> i in Purge(s, E + {p}).protocols {
        assert i != p && i !in E ==> SameAfterPurge(s, t, p, E, i);
      }
      forall i | i in Purge(t, E).protocols ensures Purge(t, E).protocols[i] == Purge(s, E + {p}).protocols[i] {
        assert SameAfterPurge(s, t, p, E, i);
      }
    }
    assert Purge(t, E).active == Purge(s, E + {p}).active by {
      forall i ensures i in t.active - E <==> i in s.active - (E + {p}) {
        assert i != p && i !in E ==> SameAfterPurge(s, t, p, E, i);
      }
    }
  }

  lemma SurvivorUntouched(s: Registry, t: Registry, p: Id, i: Id, E: set<Id>)
    requires Destroyed(s, t, p) && p in Doomed(s) && i != p && i !in Doomed(s)
    ensures SameAfterPurge(s, t, p, E, i)
  {
    assert DestroyedAt(s, t, p, i);
    if Kills(s, p, i) { DoomedClosed(s, p, i); }
    if i in s.protocols { CutTwice(s.protocols[i], p, E); }
  }

  /** With nothing dead there is nothing to purge. */
  lemma NothingDead(s: Registry)
    requires WellFormed(s) && s.dead == {}
    ensures Doomed(s) == {}
    ensures Purge(s, {}) == s
  {
    DoomedIsLeast(s, {});
    assert Purge(s, {}).protocols == s.protocols;
  }

  // ---------------------------------------------------------------- the drain, in any order

  /** The order in which a drain picks its victims: each is dead at the moment it is picked, and none is left. */
  ghost predicate IsDrain(s: Registry, victims: seq<Id>)
    requires WellFormed(s) && NoSelfLinks(s)
    decreases |victims|
  {
    if victims == [] then s.dead == {}
    else
      && victims[0] in s.dead
      && (DestroyKeepsWellFormed(s, victims[0]); DestroyKeepsNoSelfLinks(s, victims[0]);
          IsDrain(Destroy(s, victims[0]), victims[1..]))
  }

  ghost function Drain(s: Registry, victims: seq<Id>): Registry
    requires WellFormed(s) && NoSelfLinks(s) && IsDrain(s, victims)
    decreases |victims|
  {
    if victims == [] then s
    else
      DestroyKeepsWellFormed(s, victims[0]); DestroyKeepsNoSelfLinks(s, victims[0]);
      Drain(Destroy(s, victims[0]), victims[1..])
  }

  lemma DestroyKeepsWellFormed(s: Registry, p: Id)
    requires WellFormed(s) && p in s.protocols && s.protocols[p].far != Some(p)
    ensures WellFormed(Destroy(s, p))
  {
    DestroyEffect(s, p);
    DestroyedIsWellFormed(s, Destroy(s, p), p);
  }

  ghost predicate NoSelfLinks(s: Registry) {
    forall i <- s.protocols :: s.protocols[i].far != Some(i)
  }

  lemma DestroyKeepsNoSelfLinks(s: Registry, p: Id)
    requires WellFormed(s) && NoSelfLinks(s) && p in s.protocols
    ensures NoSelfLinks(Destroy(s, p))
  {
    DestroyEffect(s, p);
    var t := Destroy(s, p);
    assert forall i <- t.protocols :: DestroyedAt(s, t, p, i);
  }

  /** Whatever order the dead map is drained in, the doomed set goes, once each, and the same state remains. */
  lemma {:induction false} EveryDrainIsThePurge(s: Registry, victims: seq<Id>)
    requires WellFormed(s) && NoSelfLinks(s) && IsDrain(s, victims)
    ensures Drain(s, victims) == Purge(s, Doomed(s))
    ensures |victims| == |Doomed(s)|
    ensures forall p :: p in victims <==> p in Doomed(s)
    decreases |victims|
  {
    hide Destroy;
    hide Doomed;
    hide Purge;
    hide Symmetric;
    if victims == [] {
      NothingDead(s);
    } else {
      var p := victims[0];
      DestroyKeepsWellFormed(s, p);
      DestroyKeepsNoSelfLinks(s, p);
      EveryDrainIsThePurge(Destroy(s, p), victims[1..]);
      DestroyEffect(s, p);
      DestroyedDoomed(s, Destroy(s, p), p);
      DestroyedOutcome(s, Destroy(s, p), p);
      assert victims == [p] + victims[1..];
    }
  }

  /** What is left after the purge is well-formed, with nothing dead and no survivor touched but for cut links. */
  lemma PurgeKeepsWellFormed(s: Registry)
    requires WellFormed(s)
    ensures WellFormed(Purge(s, Doomed(s)))
  {
    var D := Doomed(s);
    forall i <- s.protocols | i !in D ensures i in s.active && !s.protocols[i].enqueued {
      if i in s.dead { DeadIsDoomed(s, i); }
    }
    assert s.active - D == s.protocols.Keys - D;
  }
}
