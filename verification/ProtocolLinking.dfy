/**
 * Linking and unlinking protocols: when it aborts, when it keeps stacks acyclic, and what it does to
 * the stacks involved.
 */
module ProtocolLinking {
  import opened Options
  import opened ProtocolState

  /** The AllowFarProtocol and AllowNearProtocol tables of the protocol classes. */
  datatype Rules = Rules(allowFar: (Kind, Kind) -> bool, allowNear: (Kind, Kind) -> bool)

  /** Whether far may stand on the far side of near. */
  predicate Compatible(rules: Rules, near: Kind, far: Kind) {
    rules.allowFar(near, far) && rules.allowNear(far, near)
  }

  /** A failed ASSERT ends the process; `state` is then what it had got to. */
  datatype Linking = Linking(state: Registry, aborted: bool)

  /** p.SetFarProtocol(q), with the mutual calls of the two setters unrolled. */
  function SetFar(rules: Rules, s: Registry, p: Id, q: Id): Linking
    requires p in s.protocols && q in s.protocols
  {
    if !Compatible(rules, s.protocols[p].kind, s.protocols[q].kind) then Linking(s, true)
    else if s.protocols[p].far.Some? then Linking(s, s.protocols[p].far != Some(q))
    else if s.protocols[q].near.Some? then Linking(WithFar(s, p, Some(q)), s.protocols[q].near != Some(p))
    else Linking(WithNear(WithFar(s, p, Some(q)), q, Some(p)), false)
  }

  /** q.SetNearProtocol(p), with the mutual calls of the two setters unrolled. */
  function SetNear(rules: Rules, s: Registry, q: Id, p: Id): Linking
    requires p in s.protocols && q in s.protocols
  {
    if !Compatible(rules, s.protocols[p].kind, s.protocols[q].kind) then Linking(s, true)
    else if s.protocols[q].near.Some? then Linking(s, s.protocols[q].near != Some(p))
    else if s.protocols[p].far.Some? then Linking(WithNear(s, q, Some(p)), s.protocols[p].far != Some(q))
    else Linking(WithNear(WithFar(s, p, Some(q)), q, Some(p)), false)
  }

  /** p.ResetFarProtocol(). */
  function ResetFar(s: Registry, p: Id): Registry
    requires p in s.protocols
    requires s.protocols[p].far.Some? ==> s.protocols[p].far.value in s.protocols
  {
    match s.protocols[p].far
    case None => s
    case Some(q) => WithFar(WithNear(s, q, None), p, None)
  }

  /** q.ResetNearProtocol(). */
  function ResetNear(s: Registry, q: Id): Registry
    requires q in s.protocols
    requires s.protocols[q].near.Some? ==> s.protocols[q].near.value in s.protocols
  {
    match s.protocols[q].near
    case None => s
    case Some(p) => WithNear(WithFar(s, p, None), q, None)
  }

  // ---------------------------------------------------------------- linking

  /** The two setters are one operation seen from two sides, and abort exactly in the same cases. */
  lemma SettersAgree(rules: Rules, s: Registry, p: Id, q: Id)
    requires WellFormed(s) && p in s.protocols && q in s.protocols
    ensures var a, b := SetFar(rules, s, p, q), SetNear(rules, s, q, p);
      && a.aborted == b.aborted
      && (!a.aborted ==> a.state == b.state && WellFormed(a.state)
                         && a.state.protocols[p].far == Some(q) && a.state.protocols[q].near == Some(p))
      && (a.aborted <==>
            || !rules.allowFar(s.protocols[p].kind, s.protocols[q].kind)
            || !rules.allowNear(s.protocols[q].kind, s.protocols[p].kind)
            || (s.protocols[p].far != Some(q) && !(s.protocols[p].far.None? && s.protocols[q].near.None?)))
  {
    assert s.protocols[p].far == Some(q) <==> s.protocols[q].near == Some(p);
  }

  /** t has the links of s, and q as p's far protocol besides. */
  ghost predicate Joined(s: Registry, t: Registry, p: Id, q: Id) {
    && p in s.protocols && q in s.protocols
    && t.protocols.Keys == s.protocols.Keys
    && (forall i <- s.protocols :: t.protocols[i].far == if i == p then Some(q) else s.protocols[i].far)
    && (forall i <- s.protocols :: t.protocols[i].near == if i == q then Some(p) else s.protocols[i].near)
  }

  function Join(s: Registry, p: Id, q: Id): (t: Registry)
    requires p in s.protocols && q in s.protocols
    ensures Joined(s, t, p, q)
  {
    WithNear(WithFar(s, p, Some(q)), q, Some(p))
  }

  /** Joining two free ends keeps stacks acyclic exactly when they are not the two ends of one stack. */
  lemma LinkAcyclicIff(s: Registry, p: Id, q: Id)
    requires Invariant(s) && p in s.protocols && q in s.protocols
    requires s.protocols[p].far.None? && s.protocols[q].near.None?
    ensures Acyclic(Join(s, p, q)) <==> p !in FarPart(s, q)
  {
    if p !in FarPart(s, q) {
      RaisedIsRank(s, Join(s, p, q), p, q);
    } else {
      JoinedEndsCycle(s, Join(s, p, q), p, q);
    }
  }

  lemma JoinedEndsCycle(s: Registry, t: Registry, p: Id, q: Id)
    requires Invariant(s) && Joined(s, t, p, q) && s.protocols[p].far.None? && p in FarPart(s, q)
    ensures !Acyclic(t)
  {
    if Acyclic(t) {
      var rank := Rank(t);
      RankAlongFarPart(s, q, p, rank);
    }
  }

  /** Any rank of the links falls on the way to the far endpoint. */
  lemma {:induction false} RankAlongFarPart(s: Registry, q: Id, p: Id, rank: map<Id, nat>)
    requires Invariant(s) && q in s.protocols && p in FarPart(s, q)
    requires s.protocols.Keys <= rank.Keys
    requires forall i <- s.protocols :: s.protocols[i].far.Some? ==> rank[s.protocols[i].far.value] < rank[i]
    ensures rank[p] <= rank[q]
    decreases Rank(s)[q]
  {
    if p != q {
      RankAlongFarPart(s, s.protocols[q].far.value, p, rank);
    }
  }

  /** Lifting every rank of p's stack above q's gives a rank of the joined stack. */
  lemma RaisedIsRank(s: Registry, t: Registry, p: Id, q: Id)
    requires Invariant(s) && Joined(s, t, p, q)
    requires s.protocols[p].far.None? && p !in FarPart(s, q)
    ensures Acyclic(t)
  {
    var r := Rank(s);
    var raised := map i | i in s.protocols :: if p in FarPart(s, i) then r[i] + r[q] + 1 else r[i];
    forall i <- t.protocols | t.protocols[i].far.Some? && t.protocols[i].far.value in raised
      ensures raised[t.protocols[i].far.value] < raised[i]
    {
      if i != p { assert p in FarPart(s, i) <==> p in FarPart(s, s.protocols[i].far.value); }
    }
    assert IsRank(t, raised);
  }

  // ---------------------------------------------------------------- stacks under a change elsewhere

  /** The far part of p depends only on the far links it is made of. */
  lemma {:induction false} FarPartFrame(s: Registry, t: Registry, p: Id)
    requires Invariant(s) && Invariant(t) && p in s.protocols
    requires forall i <- FarPart(s, p) :: i in t.protocols && t.protocols[i].far == s.protocols[i].far
    ensures FarPart(t, p) == FarPart(s, p)
    decreases Rank(s)[p]
  {
    assert p in FarPart(s, p);
    if s.protocols[p].far.Some? {
      FarPartFrame(s, t, s.protocols[p].far.value);
    }
  }

  /** The near part of p depends only on the near links it is made of. */
  lemma {:induction false} NearPartFrame(s: Registry, t: Registry, p: Id)
    requires Invariant(s) && Invariant(t) && p in s.protocols
    requires forall i <- NearPart(s, p) :: i in t.protocols && t.protocols[i].near == s.protocols[i].near
    ensures NearPart(t, p) == NearPart(s, p)
    decreases |NearPart(s, p)|
  {
    assert p in NearPart(s, p);
    if s.protocols[p].near.Some? {
      var q := s.protocols[p].near.value;
      assert forall i <- NearPart(s, q) :: i in NearPart(s, p);
      NearPartFrame(s, t, q);
    }
  }

  /** Whoever has p on the far side has p's far end in its far part, and conversely. */
  lemma {:induction false} NearMeansFar(s: Registry, p: Id, i: Id)
    requires Invariant(s) && p in s.protocols && i in NearPart(s, p)
    ensures p in FarPart(s, i)
    decreases |NearPart(s, p)|
  {
    if i != p {
      var q := s.protocols[p].near.value;
      NearMeansFar(s, q, i);
      FarPartExtends(s, i, q);
    }
  }

  lemma {:induction false} FarPartExtends(s: Registry, i: Id, q: Id)
    requires Invariant(s) && i in s.protocols && q in FarPart(s, i)
    requires s.protocols[q].far.Some?
    ensures s.protocols[q].far.value in FarPart(s, i)
    decreases Rank(s)[i]
  {
    if i == q {
      assert FarPart(s, i) == FarPart(s, s.protocols[q].far.value) + [q];
    } else {
      FarPartExtends(s, s.protocols[i].far.value, q);
    }
  }

  lemma JoinedFarPart(s: Registry, t: Registry, p: Id, q: Id)
    requires Invariant(s) && Invariant(t) && Joined(s, t, p, q) && p !in FarPart(s, q)
    ensures FarPart(t, q) == FarPart(s, q)
    ensures FarPart(t, p) == FarPart(s, q) + [p]
  {
    FarPartFrame(s, t, q);
  }

  lemma JoinedNearPart(s: Registry, t: Registry, p: Id, q: Id)
    requires Invariant(s) && Invariant(t) && Joined(s, t, p, q) && p !in FarPart(s, q)
    ensures NearPart(t, p) == NearPart(s, p)
    ensures NearPart(t, q) == [q] + NearPart(s, p)
  {
    forall i <- NearPart(s, p) ensures i != q {
      NearMeansFar(s, p, i);
    }
    NearPartFrame(s, t, p);
  }

  lemma EndStacks(s: Registry, p: Id, q: Id)
    requires Invariant(s) && p in s.protocols && q in s.protocols
    requires s.protocols[p].far.None? && s.protocols[q].near.None?
    ensures Stack(s, q) == FarPart(s, q) && Stack(s, p) == NearPart(s, p)
  {
    assert NearPart(s, q) == [q] && FarPart(s, p) == [p];
    var near := NearPart(s, p);
    assert near == [p] + near[1..];
  }

  lemma JoinedStack(s: Registry, t: Registry, p: Id, q: Id)
    requires Invariant(s) && Invariant(t) && Joined(s, t, p, q)
    requires s.protocols[p].far.None? && s.protocols[q].near.None? && p !in FarPart(s, q)
    ensures Stack(t, p) == Stack(s, q) + Stack(s, p)
    ensures Stack(t, q) == Stack(t, p)
  {
    hide FarPart;
    hide NearPart;
    JoinedFarPart(s, t, p, q);
    JoinedNearPart(s, t, p, q);
    EndStacks(s, p, q);
    var far, near := FarPart(s, q), NearPart(s, p);
    assert near == [p] + near[1..];
    assert (far + [p]) + near[1..] == far + near;
    assert ([q] + near)[1..] == near;
  }

  /** Linking two stacks end to end appends the one to the other. */
  lemma LinkConcatenates(s: Registry, p: Id, q: Id)
    requires Invariant(s) && p in s.protocols && q in s.protocols
    requires s.protocols[p].far.None? && s.protocols[q].near.None? && p !in FarPart(s, q)
    ensures Invariant(Join(s, p, q))
    ensures Stack(Join(s, p, q), p) == Stack(s, q) + Stack(s, p)
    ensures Stack(Join(s, p, q), q) == Stack(s, q) + Stack(s, p)
  {
    LinkAcyclicIff(s, p, q);
    JoinedWellFormed(s, p, q);
    JoinedStack(s, Join(s, p, q), p, q);
  }

  lemma JoinedWellFormed(s: Registry, p: Id, q: Id)
    requires WellFormed(s) && p in s.protocols && q in s.protocols
    requires s.protocols[p].far.None? && s.protocols[q].near.None?
    ensures WellFormed(Join(s, p, q))
  {
  }

  /** Unlinking cuts one stack into two, between p and its far neighbour. */
  lemma ResetSplits(s: Registry, p: Id)
    requires Invariant(s) && p in s.protocols && s.protocols[p].far.Some?
    ensures var t, q := ResetFar(s, p), s.protocols[p].far.value;
      && Invariant(t) && t == ResetNear(s, q)
      && Stack(s, p) == Stack(t, q) + Stack(t, p)
  {
    var t, q := ResetFar(s, p), s.protocols[p].far.value;
    ResetKeepsInvariant(s, p);
    ResetStacks(s, t, p, q);
  }

  lemma ResetKeepsInvariant(s: Registry, p: Id)
    requires Invariant(s) && p in s.protocols && s.protocols[p].far.Some?
    ensures var t, q := ResetFar(s, p), s.protocols[p].far.value;
      && Invariant(t) && t == ResetNear(s, q) && Joined(t, s, p, q)
      && t.protocols[p].far.None? && t.protocols[q].near.None?
  {
    assert s.protocols[s.protocols[p].far.value].near == Some(p);
    ResetWellFormed(s, p);
    assert IsRank(ResetFar(s, p), Rank(s));
  }

  lemma ResetWellFormed(s: Registry, p: Id)
    requires WellFormed(s) && p in s.protocols && s.protocols[p].far.Some?
    ensures WellFormed(ResetFar(s, p))
  {
    assert s.protocols[s.protocols[p].far.value].near == Some(p);
  }

  lemma ResetStacks(s: Registry, t: Registry, p: Id, q: Id)
    requires Invariant(s) && Invariant(t) && Joined(t, s, p, q)
    requires t.protocols[p].far.None? && t.protocols[q].near.None?
    ensures Stack(s, p) == Stack(t, q) + Stack(t, p)
  {
    if p in FarPart(t, q) {
      JoinedEndsCycle(t, s, p, q);
    }
    JoinedStack(t, s, p, q);
  }
}
