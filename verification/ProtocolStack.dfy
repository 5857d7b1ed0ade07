/**
 * The protocol classes and their manager, changed in place. Each method is proved to compute the
 * function of ProtocolState, ProtocolTeardown, ProtocolLinking or ProtocolGraceful its contract names.
 */
module ProtocolStack {
  import opened Options
  import opened ProtocolState
  import opened ProtocolLinking
  import Teardown = ProtocolTeardown
  import Deferred = ProtocolGraceful

  /** Protocol 5 is the timer that Shutdown spares. */
  const TIMER_PROTOCOL_ID: Id := 5

  class BaseProtocol {
    const id: Id
    const kind: Kind
    var far: BaseProtocol?
    var near: BaseProtocol?
    var deleteFar: bool
    var deleteNear: bool
    var enqueued: bool
    var graceful: bool
    var output: Output

    /** A subclass may clear a delete flag, and may override GetOutputBuffer, in its own constructor. */
    constructor (m: ProtocolManager, kind: Kind, deleteFar: bool, deleteNear: bool, output: Output)
      requires m.Valid()
      modifies m
      ensures fresh(this) && m.Valid() && m.Has(this)
      ensures m.Snapshot() == Created(old(m.Snapshot()), kind, deleteFar, deleteNear, output)
      ensures m.All() == old(m.All())[id := this] && id == old(m.lastId) + 1
      ensures this.kind == kind && far == null && near == null && !enqueued && !graceful
      ensures this.deleteFar == deleteFar && this.deleteNear == deleteNear && this.output == output
    {
      m.IdsAreBelow();
      id := m.lastId + 1;
      this.kind := kind;
      far, near := null, null;
      this.deleteFar, this.deleteNear := deleteFar, deleteNear;
      enqueued, graceful := false, false;
      this.output := output;
      new;
      m.lastId := id;
      m.RegisterProtocol(this);
      m.OnlyAdded(this);
      CreatedKeepsInvariant(old(m.Snapshot()), kind, deleteFar, deleteNear, output);
    }

    ghost function State(): Protocol
      reads this
    {
      Protocol(kind, Name(far), Name(near), deleteFar, deleteNear, enqueued, graceful, output)
    }

    // Assignments to a field, each with what it means for the state as a whole.

    method PutFar(m: ProtocolManager, link: BaseProtocol?)
      requires m.Consistent() && m.Has(this) && (link != null ==> m.Has(link))
      modifies this`far
      ensures m.Consistent() && m.All() == old(m.All()) && far == link
      ensures m.Snapshot() == WithFar(old(m.Snapshot()), id, Name(link))
    {
      assert m.LinksLive(id);
      far := link;
      m.OnlyChanged(this);
    }

    method PutNear(m: ProtocolManager, link: BaseProtocol?)
      requires m.Consistent() && m.Has(this) && (link != null ==> m.Has(link))
      modifies this`near
      ensures m.Consistent() && m.All() == old(m.All()) && near == link
      ensures m.Snapshot() == WithNear(old(m.Snapshot()), id, Name(link))
    {
      assert m.LinksLive(id);
      near := link;
      m.OnlyChanged(this);
    }

    method PutGraceful(m: ProtocolManager)
      requires m.Consistent() && m.Has(this)
      modifies this`graceful
      ensures m.Consistent() && m.All() == old(m.All()) && graceful
      ensures m.Snapshot() == Deferred.Mark(old(m.Snapshot()), {id})
    {
      assert m.LinksLive(id);
      graceful := true;
      m.OnlyChanged(this);
      assert m.Snapshot().protocols == Deferred.Mark(old(m.Snapshot()), {id}).protocols;
    }

    /** ASSERT failures end the process; the method then returns with `aborted` set. */
    method SetFarProtocol(m: ProtocolManager, protocol: BaseProtocol) returns (aborted: bool)
      requires m.Consistent() && m.Has(this) && m.Has(protocol)
      modifies this`far, protocol`near
      ensures m.Consistent() && m.All() == old(m.All())
      ensures Linking(m.Snapshot(), aborted) == SetFar(m.rules, old(m.Snapshot()), id, protocol.id)
      decreases if far == null then 1 else 0, if protocol.near == null then 1 else 0, 0
    {
      assert m.LinksLive(id) && m.LinksLive(protocol.id);
      if !m.rules.allowFar(kind, protocol.kind) { return true; }
      if !m.rules.allowNear(protocol.kind, kind) { return true; }
      if far == null {
        PutFar(m, protocol);
        SetFarCallsSetNear(m.rules, old(m.Snapshot()), id, protocol.id);
        aborted := protocol.SetNearProtocol(m, this);
      } else {
        aborted := far != protocol;
      }
    }

    method SetNearProtocol(m: ProtocolManager, protocol: BaseProtocol) returns (aborted: bool)
      requires m.Consistent() && m.Has(this) && m.Has(protocol)
      modifies this`near, protocol`far
      ensures m.Consistent() && m.All() == old(m.All())
      ensures Linking(m.Snapshot(), aborted) == SetNear(m.rules, old(m.Snapshot()), id, protocol.id)
      decreases if protocol.far == null then 1 else 0, if near == null then 1 else 0, 0
    {
      assert m.LinksLive(id) && m.LinksLive(protocol.id);
      if !m.rules.allowNear(kind, protocol.kind) { return true; }
      if !m.rules.allowFar(protocol.kind, kind) { return true; }
      if near == null {
        PutNear(m, protocol);
        SetNearCallsSetFar(m.rules, old(m.Snapshot()), id, protocol.id);
        aborted := protocol.SetFarProtocol(m, this);
      } else {
        aborted := near != protocol;
      }
    }

    method ResetFarProtocol(m: ProtocolManager)
      requires m.Valid() && m.Has(this)
      modifies this, if far == null then {} else {far}
      ensures m.Snapshot() == ResetFar(old(m.Snapshot()), id)
      ensures m.Valid() && m.All() == old(m.All())
    {
      hide WellFormed;
      hide Acyclic;
      assert m.LinksLive(id);
      ResetFarKeepsInvariant(m.Snapshot(), id);
      if far != null {
        far.PutNear(m, null);
      }
      PutFar(m, null);
    }

    method ResetNearProtocol(m: ProtocolManager)
      requires m.Valid() && m.Has(this)
      modifies this, if near == null then {} else {near}
      ensures m.Snapshot() == ResetNear(old(m.Snapshot()), id)
      ensures m.Valid() && m.All() == old(m.All())
    {
      hide WellFormed;
      hide Acyclic;
      assert m.LinksLive(id);
      ResetNearKeepsInvariant(m.Snapshot(), id);
      if near != null {
        near.PutFar(m, null);
      }
      PutNear(m, null);
    }

    method GetFarEndpoint(m: ProtocolManager) returns (r: BaseProtocol)
      requires m.Valid() && m.Has(this)
      ensures m.Valid() && m.Snapshot() == old(m.Snapshot())
      ensures m.Has(r) && r.id == Deferred.FarEnd(m.Snapshot(), id) && r.far == null
      decreases |FarPart(m.Snapshot(), id)|
    {
      hide WellFormed;
      hide Acyclic;
      assert m.LinksLive(id);
      if far == null {
        r := this;
      } else {
        r := far.GetFarEndpoint(m);
      }
    }

    method GetNearEndpoint(m: ProtocolManager) returns (r: BaseProtocol)
      requires m.Valid() && m.Has(this)
      ensures m.Valid() && m.Snapshot() == old(m.Snapshot())
      ensures m.Has(r) && r.id == Deferred.NearEnd(m.Snapshot(), id) && r.near == null
      decreases |NearPart(m.Snapshot(), id)|
    {
      hide WellFormed;
      hide Acyclic;
      assert m.LinksLive(id);
      if near == null {
        r := this;
      } else {
        r := near.GetNearEndpoint(m);
      }
    }

    method GetOutputBuffer(m: ProtocolManager) returns (pending: bool)
      requires m.Valid() && m.Has(this)
      ensures pending == Deferred.HasOutput(old(m.Snapshot()), id)
      decreases |NearPart(m.Snapshot(), id)|
    {
      hide WellFormed;
      hide Acyclic;
      assert m.LinksLive(id);
      if output.Own? {
        pending := output.pending;
      } else if near != null {
        pending := near.GetOutputBuffer(m);
      } else {
        pending := false;
      }
    }

    method EnqueueForDelete(m: ProtocolManager)
      requires m.Consistent() && m.Has(this)
      modifies m`activeProtocols, m`deadProtocols, this`enqueued
      ensures m.Consistent() && m.All() == old(m.All())
      ensures m.Snapshot() == Teardown.Enqueue(old(m.Snapshot()), id)
    {
      assert m.LinksLive(id);
      if enqueued { return; }
      enqueued := true;
      m.OnlyChanged(this);
      m.EnqueueForDelete(this);
    }

    method GracefullyEnqueueForDelete(m: ProtocolManager, fromFarSide: bool)
      requires m.Valid() && m.Has(this)
      modifies m`activeProtocols, m`deadProtocols, m.Objects()
      ensures m.Snapshot() == if fromFarSide then Deferred.Graceful(old(m.Snapshot()), id)
                              else Deferred.GracefulNearwards(old(m.Snapshot()), id)
      ensures m.Valid() && m.All() == old(m.All())
      decreases fromFarSide, |NearPart(m.Snapshot(), id)|, 1
    {
      hide WellFormed;
      hide Acyclic;
      hide Deferred.GracefulNearwards;
      hide Deferred.Graceful;
      hide Deferred.Mark;
      hide Deferred.FarEnd;
      Deferred.GracefulUnfolds(m.Snapshot(), id);
      PutGraceful(m);
      if fromFarSide {
        var end := GetFarEndpoint(m);
        end.GracefullyEnqueueForDelete(m, false);
      } else {
        GracefullyEnqueueOnwards(m);
      }
    }

    /** The second half of GracefullyEnqueueForDelete, once this protocol is flagged. */
    method GracefullyEnqueueOnwards(m: ProtocolManager)
      requires m.Valid() && m.Has(this)
      modifies m`activeProtocols, m`deadProtocols, m.Objects()
      ensures m.Snapshot() == Deferred.GracefulOnwards(old(m.Snapshot()), id)
      ensures m.Valid() && m.All() == old(m.All())
      decreases false, |NearPart(m.Snapshot(), id)|, 0
    {
      hide WellFormed;
      hide Acyclic;
      hide Deferred.GracefulNearwards;
      hide Teardown.Enqueue;
      Deferred.EnqueueKeepsShape(m.Snapshot(), id);
      assert m.LinksLive(id);
      var pending := GetOutputBuffer(m);
      if pending { return; }
      if near != null {
        near.GracefullyEnqueueForDelete(m, false);
      } else {
        EnqueueForDelete(m);
      }
    }

    method ReadyForSend(m: ProtocolManager)
      requires m.Valid() && m.Has(this)
      modifies m`activeProtocols, m`deadProtocols, m.Objects()
      ensures m.Valid() && m.All() == old(m.All())
      ensures m.Snapshot() == Deferred.ReadyForSend(old(m.Snapshot()), id)
      decreases |NearPart(m.Snapshot(), id)|
    {
      hide WellFormed;
      hide Acyclic;
      assert m.LinksLive(id);
      if graceful {
        Deferred.EnqueueKeepsShape(m.Snapshot(), id);
        EnqueueForDelete(m);
        return;
      }
      if near != null {
        near.ReadyForSend(m);
      }
    }

    /** What the destructor of the near neighbour does to this protocol. */
    method LoseNear(m: ProtocolManager, enqueue: bool)
      requires m.Consistent() && m.Has(this)
      modifies m`activeProtocols, m`deadProtocols, this`near, this`enqueued
      ensures m.Consistent() && m.All() == old(m.All())
      ensures m.Snapshot() == Teardown.ReleaseFar(old(m.Snapshot()), id, enqueue)
    {
      PutNear(m, null);
      if enqueue {
        EnqueueForDelete(m);
      }
    }

    /** What the destructor of the far neighbour does to this protocol. */
    method LoseFar(m: ProtocolManager, enqueue: bool)
      requires m.Consistent() && m.Has(this)
      modifies m`activeProtocols, m`deadProtocols, this`far, this`enqueued
      ensures m.Consistent() && m.All() == old(m.All())
      ensures m.Snapshot() == Teardown.ReleaseNear(old(m.Snapshot()), id, enqueue)
    {
      PutFar(m, null);
      if enqueue {
        EnqueueForDelete(m);
      }
    }

    /** The destructor up to its last line. */
    method Detach(m: ProtocolManager)
      requires m.Valid() && m.Has(this)
      modifies m`activeProtocols, m`deadProtocols, m.Objects()
      ensures m.Snapshot() == Teardown.Detach(old(m.Snapshot()), id)
      ensures m.Consistent() && m.All() == old(m.All())
    {
      hide WellFormed;
      hide Acyclic;
      hide Teardown.ReleaseFar;
      hide Teardown.ReleaseNear;
      hide WithFar;
      hide WithNear;
      hide ProtocolManager.Consistent;
      hide ProtocolManager.Snapshot;
      m.Neighbours(this);
      var pFar, pNear := far, near;
      PutFar(m, null);
      PutNear(m, null);
      if pFar != null {
        pFar.LoseNear(m, deleteFar);
      }
      if pNear != null {
        pNear.LoseFar(m, deleteNear);
      }
    }

    /** The destructor; what the maps no longer name is gone. */
    method Destroy(m: ProtocolManager)
      requires m.Valid() && m.Has(this)
      modifies m`activeProtocols, m`deadProtocols, m.Objects()
      ensures m.Snapshot() == Teardown.Destroy(old(m.Snapshot()), id)
      ensures m.Valid() && m.All() == old(m.All()) - {id}
    {
      hide WellFormed;
      hide Acyclic;
      hide Teardown.Detach;
      hide Teardown.Forget;
      hide ProtocolManager.Consistent;
      DestroyKeepsInvariant(m.Snapshot(), id);
      Detach(m);
      m.UnRegisterProtocol(this);
    }
  }

  lemma ResetFarKeepsInvariant(s: Registry, p: Id)
    requires Invariant(s) && p in s.protocols
    ensures Invariant(ResetFar(s, p))
  {
    if s.protocols[p].far.Some? {
      ResetKeepsInvariant(s, p);
    }
  }

  lemma ResetNearKeepsInvariant(s: Registry, q: Id)
    requires Invariant(s) && q in s.protocols
    ensures Invariant(ResetNear(s, q))
  {
    if s.protocols[q].near.Some? {
      var p := s.protocols[q].near.value;
      assert s.protocols[p].far == Some(q);
      ResetKeepsInvariant(s, p);
    }
  }

  /** Deleting a protocol keeps the invariant, and leaves no link to it behind. */
  lemma DestroyKeepsInvariant(s: Registry, p: Id)
    requires Invariant(s) && p in s.protocols
    ensures var t := Teardown.Destroy(s, p);
      && Invariant(t)
      && forall i <- t.protocols :: t.protocols[i].far != Some(p) && t.protocols[i].near != Some(p)
  {
    hide Teardown.Detach;
    hide Teardown.Forget;
    hide Partitioned;
    var t := Teardown.Destroy(s, p);
    NotOnItself(s, p);
    Teardown.DestroyEffect(s, p);
    Teardown.DestroyedIsWellFormed(s, t, p);
    DestroyedKeepsRank(s, t, p);
  }

  lemma NotOnItself(s: Registry, p: Id)
    requires Invariant(s) && p in s.protocols
    ensures s.protocols[p].far != Some(p)
  {
    assert IsRank(s, Rank(s));
  }

  lemma DestroyedKeepsRank(s: Registry, t: Registry, p: Id)
    requires Acyclic(s) && Teardown.Destroyed(s, t, p)
    ensures Acyclic(t)
    ensures forall i <- t.protocols :: t.protocols[i].far != Some(p) && t.protocols[i].near != Some(p)
  {
    assert forall i <- t.protocols :: Teardown.DestroyedAt(s, t, p, i);
    assert IsRank(t, Rank(s));
  }

  lemma SetFarCallsSetNear(rules: Rules, s: Registry, p: Id, q: Id)
    requires p in s.protocols && q in s.protocols && s.protocols[p].far.None?
    requires Compatible(rules, s.protocols[p].kind, s.protocols[q].kind)
    ensures SetFar(rules, s, p, q) == SetNear(rules, WithFar(s, p, Some(q)), q, p)
  {
  }

  lemma SetNearCallsSetFar(rules: Rules, s: Registry, q: Id, p: Id)
    requires p in s.protocols && q in s.protocols && s.protocols[q].near.None?
    requires Compatible(rules, s.protocols[p].kind, s.protocols[q].kind)
    ensures SetNear(rules, s, q, p) == SetFar(rules, WithNear(s, q, Some(p)), p, q)
  {
    var t := WithNear(s, q, Some(p));
    if s.protocols[p].far.None? {
      assert WithNear(WithFar(s, p, Some(q)), q, Some(p)).protocols == WithFar(t, p, Some(q)).protocols;
    }
  }

  function Name(p: BaseProtocol?): Option<Id> {
    if p == null then None else Some(p.id)
  }

  function Created(s: Registry, kind: Kind, deleteFar: bool, deleteNear: bool, output: Output): Registry {
    var id := s.lastId + 1;
    Registry(s.protocols[id := Protocol(kind, None, None, deleteFar, deleteNear, false, false, output)],
             s.active + {id}, s.dead, id)
  }

  lemma CreatedKeepsInvariant(s: Registry, kind: Kind, deleteFar: bool, deleteNear: bool, output: Output)
    requires Invariant(s)
    ensures Invariant(Created(s, kind, deleteFar, deleteNear, output))
  {
    var t := Created(s, kind, deleteFar, deleteNear, output);
    assert IsRank(t, Rank(s)[t.lastId := 0]);
    assert t.active + t.dead == t.protocols.Keys;
  }

  lemma EmptyIsSound()
    ensures Invariant(EMPTY)
  {
    assert IsRank(EMPTY, map[]);
  }

  class ProtocolManager {
    const rules: Rules
    var lastId: Id
    var activeProtocols: map<Id, BaseProtocol>
    var deadProtocols: map<Id, BaseProtocol>

    constructor (rules: Rules)
      ensures Valid() && Snapshot() == EMPTY && this.rules == rules
    {
      this.rules := rules;
      lastId := 0;
      activeProtocols, deadProtocols := map[], map[];
      new;
      assert Snapshot().protocols == map[];
      assert Snapshot() == EMPTY;
      EmptyIsSound();
    }

    // ---------------------------------------------------------------- the state the fields stand for

    ghost function All(): map<Id, BaseProtocol>
      reads this
    {
      activeProtocols + deadProtocols
    }

    ghost function Objects(): set<BaseProtocol>
      reads this
    {
      set i | i in All() :: All()[i]
    }

    ghost predicate Has(p: BaseProtocol)
      reads this
    {
      p.id in All() && All()[p.id] == p
    }

    /** Every live protocol is filed once, under its own id, and linked to live protocols only. */
    ghost predicate Consistent()
      reads this, Objects()
    {
      && activeProtocols.Keys !! deadProtocols.Keys
      && (forall i <- All() :: All()[i].id == i)
      && (forall i {:trigger LinksLive(i)} :: i in All() ==> LinksLive(i))
    }

    ghost predicate LinksLive(i: Id)
      requires i in All()
      reads this, Objects()
    {
      && (All()[i].far != null ==> Has(All()[i].far))
      && (All()[i].near != null ==> Has(All()[i].near))
    }

    ghost function Snapshot(): Registry
      reads this, Objects()
    {
      Registry(map i | i in All() :: All()[i].State(), activeProtocols.Keys, deadProtocols.Keys, lastId)
    }

    ghost predicate Valid()
      reads this, Objects()
    {
      Consistent() && Invariant(Snapshot())
    }

    /** What the snapshot says of p is what its fields say, and its neighbours are live. */
    lemma Neighbours(p: BaseProtocol)
      requires Consistent() && Has(p)
      ensures p.id in Snapshot().protocols && Snapshot().protocols[p.id] == p.State()
      ensures (p.far != null ==> Has(p.far)) && (p.near != null ==> Has(p.near))
    {
      assert LinksLive(p.id);
    }

    /** p alone has changed: the snapshot is the old one but for p's entry. */
    twostate lemma OnlyChanged(p: BaseProtocol)
      requires old(Consistent()) && Has(p)
      requires (p.far != null ==> Has(p.far)) && (p.near != null ==> Has(p.near))
      requires activeProtocols == old(activeProtocols) && deadProtocols == old(deadProtocols) && lastId == old(lastId)
      requires forall i <- All() :: i != p.id ==> unchanged(All()[i])
      ensures Consistent()
      ensures Snapshot() == old(Snapshot()).(protocols := old(Snapshot()).protocols[p.id := p.State()])
    {
      forall i <- All() | i != p.id ensures All()[i].State() == old(All()[i].State()) && LinksLive(i) {
        assert old(LinksLive(i));
      }
      assert Snapshot().protocols == old(Snapshot()).protocols[p.id := p.State()];
    }

    lemma IdsAreBelow()
      requires Valid()
      ensures forall i <- All() :: i <= lastId
    {
      forall i <- All() ensures i <= lastId {
        assert i in Snapshot().protocols;
      }
    }

    /** p has been created and registered, and nothing else changed. */
    twostate lemma OnlyAdded(new p: BaseProtocol)
      requires old(Consistent()) && p.id !in old(All()) && p.far == null && p.near == null
      requires activeProtocols == old(activeProtocols)[p.id := p] && deadProtocols == old(deadProtocols)
      requires forall i <- old(All()) :: unchanged(old(All())[i])
      ensures Consistent() && All() == old(All())[p.id := p]
      ensures Snapshot() == Registry(old(Snapshot()).protocols[p.id := p.State()],
                                     old(Snapshot()).active + {p.id}, old(Snapshot()).dead, lastId)
    {
      assert All() == old(All())[p.id := p];
      forall i <- old(All())
        ensures All()[i] == old(All())[i] && All()[i].State() == old(All()[i].State()) && LinksLive(i)
      {
        assert old(LinksLive(i));
      }
      assert Snapshot().protocols == old(Snapshot()).protocols[p.id := p.State()];
    }

    // ---------------------------------------------------------------- registration

    method RegisterProtocol(protocol: BaseProtocol)
      modifies this`activeProtocols
      ensures protocol.id in old(All()) ==> activeProtocols == old(activeProtocols)
      ensures protocol.id !in old(All()) ==> activeProtocols == old(activeProtocols)[protocol.id := protocol]
    {
      if protocol.id in activeProtocols { return; }
      if protocol.id in deadProtocols { return; }
      activeProtocols := activeProtocols[protocol.id := protocol];
    }

    /** Called last by the destructor, when nobody is linked to the protocol any more. */
    method UnRegisterProtocol(protocol: BaseProtocol)
      requires Consistent() && Has(protocol)
      requires forall i <- Teardown.Forget(Snapshot(), protocol.id).protocols ::
                 var n := Teardown.Forget(Snapshot(), protocol.id).protocols[i];
                 n.far != Some(protocol.id) && n.near != Some(protocol.id)
      modifies this`activeProtocols, this`deadProtocols
      ensures Consistent() && All() == old(All()) - {protocol.id}
      ensures Snapshot() == Teardown.Forget(old(Snapshot()), protocol.id)
    {
      if protocol.id in activeProtocols {
        activeProtocols := activeProtocols - {protocol.id};
      }
      if protocol.id in deadProtocols {
        deadProtocols := deadProtocols - {protocol.id};
      }
      assert All() == old(All()) - {protocol.id};
      forall i <- All() ensures LinksLive(i) {
        assert old(LinksLive(i));
        assert All()[i].State() == old(Teardown.Forget(Snapshot(), protocol.id)).protocols[i];
      }
      assert Snapshot().protocols == old(Snapshot()).protocols - {protocol.id};
    }

    method EnqueueForDelete(protocol: BaseProtocol)
      requires Consistent() && Has(protocol)
      modifies this`activeProtocols, this`deadProtocols
      ensures Consistent() && All() == old(All())
      ensures Snapshot() == Teardown.MoveToDead(old(Snapshot()), protocol.id)
    {
      if protocol.id in activeProtocols {
        activeProtocols := activeProtocols - {protocol.id};
      }
      if protocol.id !in deadProtocols {
        deadProtocols := deadProtocols[protocol.id := protocol];
      }
      assert All() == old(All());
      forall i <- All() ensures LinksLive(i) { assert old(LinksLive(i)); }
      assert Snapshot().protocols == old(Snapshot()).protocols;
    }

    /** Which dead protocol goes next is left open; the source takes the one with the least id. */
    method CleanupDeadProtocols() returns (result: nat)
      requires Valid()
      modifies this`activeProtocols, this`deadProtocols, Objects()
      ensures Snapshot() == Teardown.Purge(old(Snapshot()), Teardown.Doomed(old(Snapshot())))
      ensures Valid() && deadProtocols == map[]
      ensures result == |Teardown.Doomed(old(Snapshot()))|
      ensures forall i <- All() :: i in old(All()) && All()[i] == old(All())[i]
    {
      hide WellFormed;
      hide Acyclic;
      hide Teardown.Destroy;
      hide Teardown.Purge;
      hide Teardown.Doomed;
      hide Consistent;
      ghost var s := Snapshot();
      result := 0;
      while |deadProtocols| > 0
        invariant Valid() && Objects() <= old(Objects())
        invariant Teardown.Purge(Snapshot(), Teardown.Doomed(Snapshot())) == Teardown.Purge(s, Teardown.Doomed(s))
        invariant result + |Teardown.Doomed(Snapshot())| == |Teardown.Doomed(s)|
        invariant forall i <- All() :: i in old(All()) && All()[i] == old(All())[i]
        decreases All().Keys
      {
        var next :| next in deadProtocols;
        DeadIsFiled(next);
        DrainStep(Snapshot(), next);
        deadProtocols[next].Destroy(this);
        result := result + 1;
      }
      DrainDone(Snapshot());
    }

    lemma DeadIsFiled(i: Id)
      requires Consistent() && i in deadProtocols
      ensures Has(deadProtocols[i]) && deadProtocols[i].id == i
    {
    }

    /** Every active protocol but the timer is moved to the dead map, without its own flag being set. */
    method Shutdown()
      requires Valid()
      modifies this`activeProtocols, this`deadProtocols
      ensures Snapshot() == ShutDown(old(Snapshot()))
      ensures Valid() && All() == old(All())
    {
      hide WellFormed;
      hide Acyclic;
      ghost var s := Snapshot();
      var pending := activeProtocols.Keys;
      while pending != {}
        invariant Consistent() && All() == old(All())
        invariant pending <= activeProtocols.Keys
        invariant Snapshot().protocols == s.protocols && lastId == s.lastId
        invariant forall i :: i in activeProtocols <==> i in s.active && (i in pending || i == TIMER_PROTOCOL_ID)
        invariant forall i :: i in deadProtocols <==>
                              i in s.dead || (i in s.active && i !in pending && i != TIMER_PROTOCOL_ID)
        decreases pending
      {
        var next :| next in pending;
        pending := pending - {next};
        if next != TIMER_PROTOCOL_ID {
          EnqueueForDelete(activeProtocols[next]);
        }
      }
      assert activeProtocols.Keys == ShutDown(s).active;
      assert deadProtocols.Keys == ShutDown(s).dead;
      ShutDownKeepsInvariant(s);
    }

    method GetProtocol(id: Id, includeDeadProtocols: bool) returns (r: BaseProtocol?)
      requires Consistent()
      ensures r != null <==> Visible(Snapshot(), id, includeDeadProtocols)
      ensures r != null <==> id in activeProtocols || (includeDeadProtocols && id in deadProtocols)
      ensures r != null ==> Has(r) && r.id == id
    {
      if !includeDeadProtocols && id in deadProtocols { return null; }
      if id in activeProtocols { return activeProtocols[id]; }
      if id in deadProtocols { return deadProtocols[id]; }
      return null;
    }
  }
  function ShutDown(s: Registry): Registry {
    s.(active := s.active * {TIMER_PROTOCOL_ID}, dead := s.dead + (s.active - {TIMER_PROTOCOL_ID}))
  }

  lemma ShutDownKeepsInvariant(s: Registry)
    requires Invariant(s)
    ensures Invariant(ShutDown(s))
  {
    assert IsRank(ShutDown(s), Rank(s));
    assert ShutDown(s).active + ShutDown(s).dead == s.active + s.dead;
  }

  /**
   * Shutdown and the cleanup behind it leave at most protocol 5, and that one exactly if it was active and
   * no neighbour of it takes it along.
   */
  lemma ShutdownLeaves(s: Registry, i: Id)
    requires Invariant(s)
    ensures var t := ShutDown(s);
      i in Teardown.Purge(t, Teardown.Doomed(t)).protocols <==>
        && i == 5 && i in s.protocols && i !in s.dead
        && (s.protocols[i].far.Some? ==> !s.protocols[s.protocols[i].far.value].deleteNear)
        && (s.protocols[i].near.Some? ==> !s.protocols[s.protocols[i].near.value].deleteFar)
  {
    var t := ShutDown(s);
    ShutDownKeepsInvariant(s);
    if i in s.protocols {
      assert IsRank(s, Rank(s));
      forall p <- s.protocols | p in t.dead ensures p in Teardown.Doomed(t) { Teardown.DeadIsDoomed(t, p); }
      forall p <- s.protocols | p != i && Teardown.Kills(t, p, i) && p in t.dead ensures i in Teardown.Doomed(t) {
        Teardown.DoomedClosed(t, p, i);
      }
      Teardown.DoomedIsLeast(t, s.protocols.Keys);
      if forall p <- s.protocols :: !Teardown.Kills(t, p, i) {
        Teardown.DoomedIsLeast(t, if i in t.dead then s.protocols.Keys else s.protocols.Keys - {i});
      }
    }
  }

  /** One deletion of a drain: the end state stays the same, and the doomed set loses one member. */
  lemma DrainStep(s: Registry, p: Id)
    requires Invariant(s) && p in s.dead
    ensures p in s.protocols
    ensures var t := Teardown.Destroy(s, p);
      && Teardown.Purge(t, Teardown.Doomed(t)) == Teardown.Purge(s, Teardown.Doomed(s))
      && Teardown.Doomed(s) == Teardown.Doomed(t) + {p} && p !in Teardown.Doomed(t)
  {
    assert IsRank(s, Rank(s)) && s.protocols[p].far != Some(p);
    Teardown.DestroyEffect(s, p);
    Teardown.DestroyedDoomed(s, Teardown.Destroy(s, p), p);
    Teardown.DestroyedOutcome(s, Teardown.Destroy(s, p), p);
  }

  lemma DrainDone(s: Registry)
    requires Invariant(s) && s.dead == {}
    ensures Teardown.Doomed(s) == {} && Teardown.Purge(s, Teardown.Doomed(s)) == s
  {
    Teardown.NothingDead(s);
  }
}
