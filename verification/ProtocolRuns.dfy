/** What every sequence of protocol operations keeps. */
module ProtocolRuns {
  import opened Options
  import opened ProtocolState
  import opened ProtocolLinking
  import Teardown = ProtocolTeardown
  import Deferred = ProtocolGraceful
  import Stack = ProtocolStack

  datatype Operation =
    | Create(kind: Kind, deleteFar: bool, deleteNear: bool, output: Output)
    | SetFarProtocol(p: Id, q: Id)
    | SetNearProtocol(p: Id, q: Id)
    | ResetFarProtocol(p: Id)
    | ResetNearProtocol(p: Id)
    | DeleteFarProtocol(p: Id, flag: bool)
    | DeleteNearProtocol(p: Id, flag: bool)
    | ChangeOutput(p: Id, output: Output)
    | EnqueueForDelete(p: Id)
    | GracefullyEnqueueForDelete(p: Id, fromFarSide: bool)
    | ReadyForSend(p: Id)
    | Destroy(p: Id)
    | Shutdown
    | CleanupDeadProtocols

  /** The caller names live protocols, and links only what may be linked and is not one stack already. */
  ghost predicate Permitted(rules: Rules, s: Registry, op: Operation)
    requires Invariant(s)
  {
    match op
    case Create(_, _, _, _) => true
    case Shutdown => true
    case CleanupDeadProtocols => true
    case SetFarProtocol(p, q) =>
      && p in s.protocols && q in s.protocols && !SetFar(rules, s, p, q).aborted
      && (s.protocols[p].far != Some(q) ==> p !in FarPart(s, q))
    case SetNearProtocol(q, p) =>
      && p in s.protocols && q in s.protocols && !SetNear(rules, s, q, p).aborted
      && (s.protocols[p].far != Some(q) ==> p !in FarPart(s, q))
    case _ => op.p in s.protocols
  }

  ghost function Apply(rules: Rules, s: Registry, op: Operation): Registry
    requires Invariant(s) && Permitted(rules, s, op)
  {
    match op
    case Create(kind, deleteFar, deleteNear, output) => Stack.Created(s, kind, deleteFar, deleteNear, output)
    case SetFarProtocol(p, q) => SetFar(rules, s, p, q).state
    case SetNearProtocol(q, p) => SetNear(rules, s, q, p).state
    case ResetFarProtocol(p) => ResetFar(s, p)
    case ResetNearProtocol(p) => ResetNear(s, p)
    case DeleteFarProtocol(p, flag) => s.(protocols := s.protocols[p := s.protocols[p].(deleteFar := flag)])
    case DeleteNearProtocol(p, flag) => s.(protocols := s.protocols[p := s.protocols[p].(deleteNear := flag)])
    case ChangeOutput(p, output) => s.(protocols := s.protocols[p := s.protocols[p].(output := output)])
    case EnqueueForDelete(p) => Teardown.Enqueue(s, p)
    case GracefullyEnqueueForDelete(p, fromFarSide) =>
      if fromFarSide then Deferred.Graceful(s, p) else Deferred.GracefulNearwards(s, p)
    case ReadyForSend(p) => Deferred.ReadyForSend(s, p)
    case Destroy(p) => Teardown.Destroy(s, p)
    case Shutdown => Stack.ShutDown(s)
    case CleanupDeadProtocols => Teardown.Purge(s, Teardown.Doomed(s))
  }

  // ---------------------------------------------------------------- every step

  lemma StepKeepsInvariant(rules: Rules, s: Registry, op: Operation)
    requires Invariant(s) && Permitted(rules, s, op)
    ensures Invariant(Apply(rules, s, op))
  {
    match op
    case Create(kind, deleteFar, deleteNear, output) =>
      Stack.CreatedKeepsInvariant(s, kind, deleteFar, deleteNear, output);
    case SetFarProtocol(p, q) => LinkKeepsInvariant(rules, s, p, q);
    case SetNearProtocol(q, p) => LinkKeepsInvariant(rules, s, p, q);
    case ResetFarProtocol(p) => Stack.ResetFarKeepsInvariant(s, p);
    case ResetNearProtocol(p) => Stack.ResetNearKeepsInvariant(s, p);
    case DeleteFarProtocol(p, flag) => FlagKeepsInvariant(s, p, s.protocols[p].(deleteFar := flag));
    case DeleteNearProtocol(p, flag) => FlagKeepsInvariant(s, p, s.protocols[p].(deleteNear := flag));
    case ChangeOutput(p, output) => FlagKeepsInvariant(s, p, s.protocols[p].(output := output));
    case EnqueueForDelete(p) => Deferred.EnqueueKeepsShape(s, p);
    case GracefullyEnqueueForDelete(p, fromFarSide) => GracefulKeepsInvariant(s, p);
    case ReadyForSend(p) => ReadyForSendKeepsInvariant(s, p);
    case Destroy(p) => Stack.DestroyKeepsInvariant(s, p);
    case Shutdown => Stack.ShutDownKeepsInvariant(s);
    case CleanupDeadProtocols => PurgeKeepsInvariant(s);
  }

  lemma LinkKeepsInvariant(rules: Rules, s: Registry, p: Id, q: Id)
    requires Invariant(s) && p in s.protocols && q in s.protocols && !SetFar(rules, s, p, q).aborted
    requires s.protocols[p].far != Some(q) ==> p !in FarPart(s, q)
    ensures Invariant(SetFar(rules, s, p, q).state) && SetNear(rules, s, q, p) == SetFar(rules, s, p, q)
  {
    SettersAgree(rules, s, p, q);
    if s.protocols[p].far != Some(q) {
      LinkAcyclicIff(s, p, q);
    }
  }

  lemma FlagKeepsInvariant(s: Registry, p: Id, n: Protocol)
    requires Invariant(s) && p in s.protocols
    requires n.far == s.protocols[p].far && n.near == s.protocols[p].near && n.enqueued == s.protocols[p].enqueued
    ensures Invariant(s.(protocols := s.protocols[p := n]))
  {
    hide Closed;
    hide Symmetric;
    hide Partitioned;
    var t := s.(protocols := s.protocols[p := n]);
    FlagKeepsLinks(s, p, n);
    FlagKeepsPartition(s, p, n);
    assert IsRank(t, Rank(s));
  }

  lemma FlagKeepsLinks(s: Registry, p: Id, n: Protocol)
    requires Closed(s) && Symmetric(s) && p in s.protocols
    requires n.far == s.protocols[p].far && n.near == s.protocols[p].near
    ensures var t := s.(protocols := s.protocols[p := n]); Closed(t) && Symmetric(t)
  {
    var t := s.(protocols := s.protocols[p := n]);
    assert forall i <- s.protocols ::
      t.protocols[i].far == s.protocols[i].far && t.protocols[i].near == s.protocols[i].near;
  }

  lemma FlagKeepsPartition(s: Registry, p: Id, n: Protocol)
    requires Partitioned(s) && p in s.protocols && n.enqueued == s.protocols[p].enqueued
    ensures Partitioned(s.(protocols := s.protocols[p := n]))
  {
    assert s.protocols[p := n].Keys == s.protocols.Keys;
  }

  lemma GracefulKeepsInvariant(s: Registry, p: Id)
    requires Invariant(s) && p in s.protocols
    ensures Invariant(Deferred.Graceful(s, p)) && Invariant(Deferred.GracefulNearwards(s, p))
  {
    Deferred.GracefulOutcome(s, p);
    var visited := Deferred.Visited(s, p);
    Deferred.MarkKeepsShape(s, visited);
    Deferred.EnqueueKeepsShape(Deferred.Mark(s, visited), Deferred.NearEnd(s, p));
  }

  lemma {:induction false} ReadyForSendKeepsInvariant(s: Registry, p: Id)
    requires Invariant(s) && p in s.protocols
    ensures Invariant(Deferred.ReadyForSend(s, p))
    decreases |NearPart(s, p)|
  {
    Deferred.EnqueueKeepsShape(s, p);
    if s.protocols[p].near.Some? {
      ReadyForSendKeepsInvariant(s, s.protocols[p].near.value);
    }
  }

  lemma PurgeKeepsInvariant(s: Registry)
    requires Invariant(s)
    ensures Invariant(Teardown.Purge(s, Teardown.Doomed(s)))
  {
    Teardown.PurgeKeepsWellFormed(s);
    assert IsRank(Teardown.Purge(s, Teardown.Doomed(s)), Rank(s));
  }

  // ---------------------------------------------------------------- every run

  /** The state after a sequence of operations from the start, or None when one of them is not permitted. */
  ghost function Run(rules: Rules, ops: seq<Operation>): (r: Option<Registry>)
    ensures r.Some? ==> Invariant(r.value)
  {
    if ops == [] then
      assert IsRank(EMPTY, map[]);
      Some(EMPTY)
    else
      match Run(rules, ops[..|ops| - 1])
      case None => None
      case Some(s) =>
        var op := ops[|ops| - 1];
        if Permitted(rules, s, op) then
          StepKeepsInvariant(rules, s, op);
          Some(Apply(rules, s, op))
        else None
  }

  /** What a caller can rely on after any run. */
  lemma EveryRun(rules: Rules, ops: seq<Operation>, p: Id, q: Id)
    requires Run(rules, ops).Some?
    ensures var s := Run(rules, ops).value;
      // links are symmetric and end at live protocols
      && (p in s.protocols && q in s.protocols ==>
            (s.protocols[p].far == Some(q) <==> s.protocols[q].near == Some(p)))
      && (p in s.protocols && s.protocols[p].far.Some? ==> s.protocols[p].far.value in s.protocols)
      // no protocol is on its own far side
      && (p in s.protocols && s.protocols[p].far.Some? ==> p !in FarPart(s, s.protocols[p].far.value))
      // every live protocol is in exactly one map; dead ones are found only when asked for
      && (p in s.protocols <==> p in s.active || p in s.dead)
      && !(p in s.active && p in s.dead)
      && (Visible(s, p, false) <==> p in s.protocols && p !in s.dead)
      && (Visible(s, p, true) <==> p in s.protocols)
  {
    var s := Run(rules, ops).value;
    if p in s.protocols && s.protocols[p].far.Some? && p in FarPart(s, s.protocols[p].far.value) {
      RankAlongFarPart(s, s.protocols[p].far.value, p, Rank(s));
    }
    assert p in s.active + s.dead <==> p in s.protocols;
  }

  /** Ids are never reused: once gone, a protocol stays gone. */
  lemma {:induction false} GoneStaysGone(rules: Rules, ops: seq<Operation>, more: seq<Operation>, p: Id)
    requires Run(rules, ops).Some? && Run(rules, ops + more).Some?
    requires p <= Run(rules, ops).value.lastId && p !in Run(rules, ops).value.protocols
    ensures p !in Run(rules, ops + more).value.protocols
    ensures Run(rules, ops).value.lastId <= Run(rules, ops + more).value.lastId
  {
    if more == [] {
      assert ops + more == ops;
    } else {
      var last := more[|more| - 1];
      var prefix := more[..|more| - 1];
      assert (ops + more)[..|ops + more| - 1] == ops + prefix;
      GoneStaysGone(rules, ops, prefix, p);
      StepAddsFreshIdsOnly(rules, Run(rules, ops + prefix).value, last);
    }
  }

  lemma StepAddsFreshIdsOnly(rules: Rules, s: Registry, op: Operation)
    requires Invariant(s) && Permitted(rules, s, op)
    ensures var t := Apply(rules, s, op);
      && s.lastId <= t.lastId
      && forall i <- t.protocols :: i in s.protocols || i > s.lastId
  {
    match op
    case SetFarProtocol(p, q) => LinkKeepsInvariant(rules, s, p, q);
    case SetNearProtocol(q, p) => LinkKeepsInvariant(rules, s, p, q);
    case GracefullyEnqueueForDelete(p, fromFarSide) =>
    case ReadyForSend(p) => ReadyForSendKeepsIds(s, p);
    case _ =>
  }

  lemma {:induction false} ReadyForSendKeepsIds(s: Registry, p: Id)
    requires Invariant(s) && p in s.protocols
    ensures Deferred.ReadyForSend(s, p).protocols.Keys == s.protocols.Keys
    ensures Deferred.ReadyForSend(s, p).lastId == s.lastId
    decreases |NearPart(s, p)|
  {
    if !s.protocols[p].graceful && s.protocols[p].near.Some? {
      ReadyForSendKeepsIds(s, s.protocols[p].near.value);
    }
  }
}
