/**
 * The protocol stacks of the media server as a value: who is linked to whom, which delete flags are
 * set, and in which of the manager's two maps each protocol is registered.
 *
 * The classes in ProtocolStack.dfy change such a state in place; their contracts say which function
 * of this module each method computes.
 */
module ProtocolState {
  import opened Options

  type Id = nat
  type Kind = nat

  /** Where GetOutputBuffer looks: the base class asks its near neighbour, an override answers by itself. */
  datatype Output = Delegated | Own(pending: bool)

  datatype Protocol = Protocol(
    kind: Kind,
    far: Option<Id>,
    near: Option<Id>,
    deleteFar: bool,
    deleteNear: bool,
    enqueued: bool,
    graceful: bool,
    output: Output)

  datatype Registry = Registry(protocols: map<Id, Protocol>, active: set<Id>, dead: set<Id>, lastId: Id)

  const EMPTY := Registry(map[], {}, {}, 0)

  function WithFar(s: Registry, p: Id, link: Option<Id>): Registry
    requires p in s.protocols
  {
    s.(protocols := s.protocols[p := s.protocols[p].(far := link)])
  }

  function WithNear(s: Registry, p: Id, link: Option<Id>): Registry
    requires p in s.protocols
  {
    s.(protocols := s.protocols[p := s.protocols[p].(near := link)])
  }

  // ---------------------------------------------------------------- invariants

  /** Links never dangle. */
  ghost predicate Closed(s: Registry) {
    forall i <- s.protocols ::
      && (s.protocols[i].far.Some? ==> s.protocols[i].far.value in s.protocols)
      && (s.protocols[i].near.Some? ==> s.protocols[i].near.value in s.protocols)
  }

  /** i's far protocol is j exactly when j's near protocol is i. */
  ghost predicate Symmetric(s: Registry) {
    forall i <- s.protocols, j <- s.protocols ::
      s.protocols[i].far == Some(j) <==> s.protocols[j].near == Some(i)
  }

  /** Every live protocol is in exactly one of the two maps, and the enqueued ones are in the dead one. */
  ghost predicate Partitioned(s: Registry) {
    && s.active !! s.dead
    && s.active + s.dead == s.protocols.Keys
    && (forall i <- s.protocols :: s.protocols[i].enqueued ==> i in s.dead)
    && (forall i <- s.protocols :: i <= s.lastId)
  }

  ghost predicate WellFormed(s: Registry) {
    Closed(s) && Symmetric(s) && Partitioned(s)
  }

  /** A rank that strictly falls along every far link. */
  ghost predicate IsRank(s: Registry, rank: map<Id, nat>) {
    && s.protocols.Keys <= rank.Keys
    && forall i <- s.protocols ::
         s.protocols[i].far.Some? && s.protocols[i].far.value in rank ==> rank[s.protocols[i].far.value] < rank[i]
  }

  ghost predicate Acyclic(s: Registry) {
    exists rank :: IsRank(s, rank)
  }

  ghost predicate Invariant(s: Registry) {
    WellFormed(s) && Acyclic(s)
  }

  ghost function Rank(s: Registry): (rank: map<Id, nat>)
    requires Acyclic(s)
    ensures IsRank(s, rank)
  {
    var rank :| IsRank(s, rank); rank
  }

  // ---------------------------------------------------------------- walking a stack

  /** The protocols from the far endpoint down to p. */
  ghost function FarPart(s: Registry, p: Id): (r: seq<Id>)
    requires Closed(s) && Acyclic(s) && p in s.protocols
    ensures |r| > 0 && r[|r| - 1] == p
    ensures forall i <- r :: i in s.protocols
    decreases Rank(s)[p]
  {
    match s.protocols[p].far
    case None => [p]
    case Some(q) => FarPart(s, q) + [p]
  }

  /** The protocols from p up to the near endpoint. */
  ghost function NearPart(s: Registry, p: Id): (r: seq<Id>)
    requires Invariant(s) && p in s.protocols
    ensures |r| > 0 && r[0] == p
    ensures forall i <- r :: i in s.protocols
    decreases set i | i in s.protocols && Rank(s)[p] <= Rank(s)[i]
  {
    match s.protocols[p].near
    case None => [p]
    case Some(q) =>
      assert s.protocols[q].far == Some(p);
      var above := set i | i in s.protocols && Rank(s)[q] <= Rank(s)[i];
      assert p in (set i | i in s.protocols && Rank(s)[p] <= Rank(s)[i]) && p !in above;
      [p] + NearPart(s, q)
  }

  /** The whole stack p belongs to, read from the far endpoint. */
  ghost function Stack(s: Registry, p: Id): (r: seq<Id>)
    requires Invariant(s) && p in s.protocols
  {
    FarPart(s, p) + NearPart(s, p)[1..]
  }

  // ---------------------------------------------------------------- looking up

  /** Whether GetProtocol finds the id: an active one always, a dead one only when asked to. */
  predicate Visible(s: Registry, id: Id, includeDeadProtocols: bool) {
    id in s.active || (includeDeadProtocols && id in s.dead)
  }
}
