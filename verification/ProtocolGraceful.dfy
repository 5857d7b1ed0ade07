/**
 * Graceful deletion: a stack with output still pending is only flagged, and goes when the far
 * endpoint is next told that it may send; a stack without goes at once.
 */
module ProtocolGraceful {
  import opened Options
  import opened ProtocolState
  import opened ProtocolTeardown
  import opened ProtocolLinking

  /** GetOutputBuffer() != NULL: the nearest override on the way to the near endpoint decides. */
  ghost predicate HasOutput(s: Registry, p: Id)
    requires Invariant(s) && p in s.protocols
    decreases |NearPart(s, p)|
  {
    match s.protocols[p].output
    case Own(pending) => pending
    case Delegated => s.protocols[p].near.Some? && HasOutput(s, s.protocols[p].near.value)
  }

  ghost predicate AnyOutput(s: Registry, ids: seq<Id>)
    requires Invariant(s) && forall i <- ids :: i in s.protocols
  {
    exists i <- ids :: HasOutput(s, i)
  }

  ghost function FarEnd(s: Registry, p: Id): (r: Id)
    requires Invariant(s) && p in s.protocols
    ensures r in s.protocols
  {
    FarPart(s, p)[0]
  }

  ghost function NearEnd(s: Registry, p: Id): (r: Id)
    requires Invariant(s) && p in s.protocols
    ensures r in s.protocols
  {
    NearPart(s, p)[|NearPart(s, p)| - 1]
  }

  /** s with the graceful flag of the given protocols set. */
  function Mark(s: Registry, ids: set<Id>): Registry {
    s.(protocols := map i | i in s.protocols :: if i in ids then s.protocols[i].(graceful := true) else s.protocols[i])
  }

  /** The protocols from p on towards the near endpoint, up to the first that has output to send. */
  ghost function Visited(s: Registry, p: Id): (r: set<Id>)
    requires Invariant(s) && p in s.protocols
    ensures p in r && r <= s.protocols.Keys && (forall i <- r :: i in NearPart(s, p))
    decreases |NearPart(s, p)|
  {
    if HasOutput(s, p) || s.protocols[p].near.None? then {p}
    else {p} + Visited(s, s.protocols[p].near.value)
  }

  /** p.GracefullyEnqueueForDelete(false). */
  ghost function GracefulNearwards(s: Registry, p: Id): Registry
    requires Invariant(s) && p in s.protocols
  {
    var t := Mark(s, Visited(s, p));
    if AnyOutput(s, NearPart(s, p)) then t else Enqueue(t, NearEnd(s, p))
  }

  /** p.GracefullyEnqueueForDelete(true), the default. */
  ghost function Graceful(s: Registry, p: Id): Registry
    requires Invariant(s) && p in s.protocols
  {
    MarkKeepsShape(s, {p});
    GracefulNearwards(Mark(s, {p}), FarEnd(s, p))
  }

  /** p.ReadyForSend(): the first flagged protocol towards the near endpoint is enqueued. */
  ghost function ReadyForSend(s: Registry, p: Id): Registry
    requires Invariant(s) && p in s.protocols
    decreases |NearPart(s, p)|
  {
    if s.protocols[p].graceful then Enqueue(s, p)
    else if s.protocols[p].near.Some? then ReadyForSend(s, s.protocols[p].near.value)
    else s
  }

  // ---------------------------------------------------------------- what these come to

  /** Somebody among the ids has output of its own to send. */
  ghost predicate Sends(s: Registry, ids: seq<Id>) {
    exists i <- ids :: i in s.protocols && s.protocols[i].output == Own(true)
  }

  /** The k-th of the ids has output of its own to send, and everybody before it asks its near neighbour. */
  ghost predicate AnswersAt(s: Registry, ids: seq<Id>, k: nat)
    requires k < |ids| && forall i <- ids :: i in s.protocols
  {
    && s.protocols[ids[k]].output == Own(true)
    && forall j | 0 <= j < k :: s.protocols[ids[j]].output == Delegated
  }

  /** Output is found exactly when the first override towards the near endpoint has some. */
  lemma {:induction false} HasOutputIff(s: Registry, p: Id)
    requires Invariant(s) && p in s.protocols
    ensures HasOutput(s, p) <==> exists k | 0 <= k < |NearPart(s, p)| :: AnswersAt(s, NearPart(s, p), k)
    decreases |NearPart(s, p)|
  {
    hide Invariant;
    hide AnswersAt;
    match s.protocols[p].output
    case Own(pending) =>
      assert NearPart(s, p)[0] == p;
      OwnAnswers(s, NearPart(s, p));
      assert HasOutput(s, p) == pending;
    case Delegated =>
      if s.protocols[p].near.Some? {
        NearPartStep(s, p);
        HasOutputIff(s, s.protocols[p].near.value);
        DelegatedAnswers(s, p, NearPart(s, s.protocols[p].near.value));
      } else {
        assert NearPart(s, p) == [p];
        DelegatedAnswers(s, p, []);
        assert [p] + [] == [p];
      }
  }

  lemma NearPartStep(s: Registry, p: Id)
    requires Invariant(s) && p in s.protocols && s.protocols[p].near.Some?
    ensures s.protocols[p].near.value in s.protocols
    ensures NearPart(s, p) == [p] + NearPart(s, s.protocols[p].near.value)
    ensures p !in NearPart(s, s.protocols[p].near.value)
  {
    var q := s.protocols[p].near.value;
    assert s.protocols[q].far == Some(p);
    if p in NearPart(s, q) {
      NearMeansFar(s, q, p);
      RankAlongFarPart(s, p, q, Rank(s));
    }
  }

  lemma OwnAnswers(s: Registry, ids: seq<Id>)
    requires ids != [] && (forall i <- ids :: i in s.protocols) && s.protocols[ids[0]].output.Own?
    ensures s.protocols[ids[0]].output.pending <==> exists k | 0 <= k < |ids| :: AnswersAt(s, ids, k)
  {
    assert s.protocols[ids[0]].output.pending ==> AnswersAt(s, ids, 0);
  }

  lemma DelegatedAnswers(s: Registry, p: Id, rest: seq<Id>)
    requires (forall i <- [p] + rest :: i in s.protocols) && s.protocols[p].output.Delegated?
    ensures (exists k | 0 <= k < |[p] + rest| :: AnswersAt(s, [p] + rest, k)) <==>
            (exists k | 0 <= k < |rest| :: AnswersAt(s, rest, k))
  {
    var ids := [p] + rest;
    forall k | 0 <= k < |rest| ensures AnswersAt(s, ids, k + 1) <==> AnswersAt(s, rest, k) {
      assert forall j | 0 <= j < k :: rest[j] == ids[j + 1];
    }
    assert !AnswersAt(s, ids, 0);
    if k :| 0 <= k < |ids| && AnswersAt(s, ids, k) { assert AnswersAt(s, rest, k - 1); }
  }

  /** Among the protocols from p on, somebody finds output exactly when somebody has some. */
  lemma AnyOutputIff(s: Registry, p: Id)
    requires Invariant(s) && p in s.protocols
    ensures AnyOutput(s, NearPart(s, p)) <==> Sends(s, NearPart(s, p))
  {
    var ids := NearPart(s, p);
    if AnyOutput(s, ids) {
      var i :| i in ids && HasOutput(s, i);
      HasOutputIff(s, i);
      var k :| 0 <= k < |NearPart(s, i)| && AnswersAt(s, NearPart(s, i), k);
      NearPartWithin(s, p, i);
      assert NearPart(s, i)[k] in ids;
    }
  }

  lemma {:induction false} NearPartWithin(s: Registry, p: Id, i: Id)
    requires Invariant(s) && p in s.protocols && i in NearPart(s, p)
    ensures forall m <- NearPart(s, i) :: m in NearPart(s, p)
    decreases |NearPart(s, p)|
  {
    if i != p { NearPartWithin(s, s.protocols[p].near.value, i); }
  }

  /** A protocol is visited exactly when nobody on the way to it finds output. */
  lemma {:induction false} VisitedIff(s: Registry, p: Id, k: nat)
    requires Invariant(s) && p in s.protocols && k < |NearPart(s, p)|
    ensures NearPart(s, p)[k] in Visited(s, p) <==> forall j | 0 <= j < k :: !HasOutput(s, NearPart(s, p)[j])
    decreases |NearPart(s, p)|
  {
    hide Invariant;
    hide HasOutput;
    if k > 0 {
      var q := s.protocols[p].near.value;
      var ids, rest := NearPart(s, p), NearPart(s, q);
      NearPartStep(s, p);
      VisitedIff(s, q, k - 1);
      assert ids[k] == rest[k - 1] != p;
      assert forall j | 0 < j < k :: rest[j - 1] == ids[j];
      assert forall j | 0 <= j < k - 1 :: rest[j] == ids[j + 1];
    }
  }

  /** The first flagged protocol from p towards the near endpoint is enqueued, and nothing else happens ... */
  lemma {:induction false} ReadyForSendEnqueues(s: Registry, p: Id, k: nat)
    requires Invariant(s) && p in s.protocols && k < |NearPart(s, p)|
    requires s.protocols[NearPart(s, p)[k]].graceful
    requires forall j | 0 <= j < k :: !s.protocols[NearPart(s, p)[j]].graceful
    ensures var m, t := NearPart(s, p)[k], ReadyForSend(s, p);
      && t.dead == s.dead + {m} && t.active == s.active - {m} && t.lastId == s.lastId
      && t.protocols == s.protocols[m := s.protocols[m].(enqueued := true)]
    decreases |NearPart(s, p)|
  {
    hide Enqueue;
    if k == 0 {
      EnqueueChanges(s, p);
    } else {
      assert !s.protocols[NearPart(s, p)[0]].graceful;
      NearPartStep(s, p);
      var q := s.protocols[p].near.value;
      assert forall j | 0 <= j < k :: NearPart(s, q)[j] == NearPart(s, p)[j + 1];
      ReadyForSendEnqueues(s, q, k - 1);
    }
  }

  /** ... and without a flagged one nothing at all. */
  lemma {:induction false} ReadyForSendElse(s: Registry, p: Id)
    requires Invariant(s) && p in s.protocols
    requires forall i <- NearPart(s, p) :: !s.protocols[i].graceful
    ensures ReadyForSend(s, p) == s
    decreases |NearPart(s, p)|
  {
    if s.protocols[p].near.Some? {
      NearPartStep(s, p);
      ReadyForSendElse(s, s.protocols[p].near.value);
    }
  }

  /** Enqueueing is idempotent, so it may be stated without the flag. */
  lemma EnqueueChanges(s: Registry, p: Id)
    requires WellFormed(s) && p in s.protocols
    ensures var t := Enqueue(s, p);
      && t.dead == s.dead + {p} && t.active == s.active - {p} && t.lastId == s.lastId
      && t.protocols == s.protocols[p := s.protocols[p].(enqueued := true)]
  {
    if s.protocols[p].enqueued {
      assert p in s.dead && p !in s.active;
      assert s.protocols[p].(enqueued := true) == s.protocols[p];
    }
  }

  // ---------------------------------------------------------------- what flags leave alone

  /** t differs from s in flags and registration only. */
  ghost predicate SameShape(s: Registry, t: Registry) {
    && t.protocols.Keys == s.protocols.Keys
    && forall i <- s.protocols ::
         && t.protocols[i].far == s.protocols[i].far
         && t.protocols[i].near == s.protocols[i].near
         && t.protocols[i].output == s.protocols[i].output
  }

  lemma MarkKeepsShape(s: Registry, ids: set<Id>)
    requires Invariant(s)
    ensures Invariant(Mark(s, ids)) && SameShape(s, Mark(s, ids))
  {
    assert IsRank(Mark(s, ids), Rank(s));
  }

  lemma EnqueueKeepsShape(s: Registry, p: Id)
    requires Invariant(s) && p in s.protocols
    ensures Invariant(Enqueue(s, p)) && SameShape(s, Enqueue(s, p)) && p in Enqueue(s, p).dead
  {
    assert IsRank(Enqueue(s, p), Rank(s));
  }

  lemma {:induction false} SameOutput(s: Registry, t: Registry, p: Id)
    requires Invariant(s) && Invariant(t) && SameShape(s, t) && p in s.protocols
    ensures HasOutput(t, p) == HasOutput(s, p)
    decreases |NearPart(s, p)|
  {
    NearPartFrame(s, t, p);
    if s.protocols[p].near.Some? {
      SameOutput(s, t, s.protocols[p].near.value);
    }
  }

  lemma {:induction false} SameVisited(s: Registry, t: Registry, p: Id)
    requires Invariant(s) && Invariant(t) && SameShape(s, t) && p in s.protocols
    ensures Visited(t, p) == Visited(s, p)
    decreases |NearPart(s, p)|
  {
    NearPartFrame(s, t, p);
    SameOutput(s, t, p);
    if s.protocols[p].near.Some? {
      SameVisited(s, t, s.protocols[p].near.value);
    }
  }

  lemma SameParts(s: Registry, t: Registry, p: Id)
    requires Invariant(s) && Invariant(t) && SameShape(s, t) && p in s.protocols
    ensures FarPart(t, p) == FarPart(s, p) && NearPart(t, p) == NearPart(s, p) && Stack(t, p) == Stack(s, p)
    ensures AnyOutput(t, NearPart(s, p)) == AnyOutput(s, NearPart(s, p))
  {
    FarPartFrame(s, t, p);
    NearPartFrame(s, t, p);
    forall i <- NearPart(s, p) ensures HasOutput(t, i) == HasOutput(s, i) {
      SameOutput(s, t, i);
    }
  }

  lemma MarkTwice(s: Registry, a: set<Id>, b: set<Id>)
    ensures Mark(Mark(s, a), b) == Mark(s, a + b)
  {
    assert Mark(Mark(s, a), b).protocols == Mark(s, a + b).protocols;
  }

  /** One step of the walk: flag p, then go on at its near neighbour. */
  lemma GracefulStep(s: Registry, p: Id)
    requires Invariant(s) && p in s.protocols && !HasOutput(s, p) && s.protocols[p].near.Some?
    ensures Invariant(Mark(s, {p}))
    ensures GracefulNearwards(s, p) == GracefulNearwards(Mark(s, {p}), s.protocols[p].near.value)
  {
    var q, t := s.protocols[p].near.value, Mark(s, {p});
    MarkKeepsShape(s, {p});
    SameVisited(s, t, q);
    SameParts(s, t, q);
    MarkTwice(s, {p}, Visited(s, q));
    assert NearPart(s, p) == [p] + NearPart(s, q);
    assert AnyOutput(s, NearPart(s, p)) == AnyOutput(s, NearPart(s, q)) by {
      forall i ensures i in NearPart(s, p) <==> i == p || i in NearPart(s, q) {}
    }
  }

  /** What p.GracefullyEnqueueForDelete(false) does after it has flagged p. */
  ghost function GracefulOnwards(s: Registry, p: Id): Registry
    requires Invariant(s) && p in s.protocols
  {
    if HasOutput(s, p) then s
    else if s.protocols[p].near.None? then Enqueue(s, p)
    else GracefulNearwards(s, s.protocols[p].near.value)
  }

  /** Both forms of the operation, by their first step: flag p, then see where to go on. */
  lemma GracefulUnfolds(s: Registry, p: Id)
    requires Invariant(s) && p in s.protocols
    ensures var t := Mark(s, {p});
      && Invariant(t)
      && NearPart(t, p) == NearPart(s, p)
      && Graceful(s, p) == GracefulNearwards(t, FarEnd(t, p))
      && GracefulNearwards(s, p) == GracefulOnwards(t, p)
  {
    MarkKeepsShape(s, {p});
    SameParts(s, Mark(s, {p}), p);
    SameOutput(s, Mark(s, {p}), p);
    if !HasOutput(s, p) && s.protocols[p].near.Some? {
      GracefulStep(s, p);
    }
  }

  // ---------------------------------------------------------------- stacks as sets of members

  lemma NearNeighbourStack(s: Registry, p: Id)
    requires Invariant(s) && p in s.protocols && s.protocols[p].near.Some?
    ensures Stack(s, s.protocols[p].near.value) == Stack(s, p)
  {
    var q := s.protocols[p].near.value;
    assert s.protocols[q].far == Some(p);
    var near := NearPart(s, q);
    assert FarPart(s, q) == FarPart(s, p) + [q];
    assert near == [q] + near[1..];
    assert NearPart(s, p)[1..] == near;
  }

  /** Every member of a stack has the same stack. */
  lemma {:induction false} FarMemberStack(s: Registry, p: Id, m: Id)
    requires Invariant(s) && p in s.protocols && m in FarPart(s, p)
    ensures m in s.protocols && Stack(s, m) == Stack(s, p)
    decreases Rank(s)[p]
  {
    if m != p {
      var q := s.protocols[p].far.value;
      assert s.protocols[q].near == Some(p);
      NearNeighbourStack(s, q);
      FarMemberStack(s, q, m);
    }
  }

  lemma StackOfMember(s: Registry, p: Id, m: Id)
    requires Invariant(s) && p in s.protocols && m in Stack(s, p)
    ensures m in s.protocols && Stack(s, m) == Stack(s, p)
  {
    if m in FarPart(s, p) {
      FarMemberStack(s, p, m);
    } else {
      assert m in NearPart(s, p);
      NearMeansFar(s, p, m);
      FarMemberStack(s, m, p);
    }
  }

  lemma {:induction false} FarPartDoomed(s: Registry, p: Id)
    requires Invariant(s) && p in Doomed(s)
    requires forall i <- FarPart(s, p) :: s.protocols[i].deleteFar
    ensures forall i <- FarPart(s, p) :: i in Doomed(s)
    decreases Rank(s)[p]
  {
    assert p in FarPart(s, p);
    if s.protocols[p].far.Some? {
      var q := s.protocols[p].far.value;
      assert Kills(s, p, q);
      DoomedClosed(s, p, q);
      FarPartDoomed(s, q);
    }
  }

  lemma {:induction false} NearPartDoomed(s: Registry, p: Id)
    requires Invariant(s) && p in Doomed(s)
    requires forall i <- NearPart(s, p) :: s.protocols[i].deleteNear
    ensures forall i <- NearPart(s, p) :: i in Doomed(s)
    decreases |NearPart(s, p)|
  {
    assert p in NearPart(s, p);
    if s.protocols[p].near.Some? {
      var q := s.protocols[p].near.value;
      assert Kills(s, p, q);
      assert forall i <- NearPart(s, q) :: i in NearPart(s, p);
      DoomedClosed(s, p, q);
      NearPartDoomed(s, q);
    }
  }

  /** A stack whose delete flags are all set goes as a whole once one of its members is dead. */
  lemma DeadMemberDoomsStack(s: Registry, m: Id)
    requires Invariant(s) && m in s.dead
    requires forall i <- Stack(s, m) :: s.protocols[i].deleteFar && s.protocols[i].deleteNear
    ensures forall i <- Stack(s, m) :: i in Doomed(s)
  {
    DeadIsDoomed(s, m);
    StackMembers(s, m);
    FarPartDoomed(s, m);
    NearPartDoomed(s, m);
  }

  lemma StackMembers(s: Registry, p: Id)
    requires Invariant(s) && p in s.protocols
    ensures forall i :: i in Stack(s, p) <==> i in FarPart(s, p) || i in NearPart(s, p)
  {
    var near := NearPart(s, p);
    assert near == [p] + near[1..];
    assert p in FarPart(s, p);
  }

  // ---------------------------------------------------------------- main result

  /** All delete flags of p's stack are set, as every protocol starts out. */
  ghost predicate AllDelete(s: Registry, p: Id)
    requires Invariant(s) && p in s.protocols
  {
    forall i <- Stack(s, p) :: s.protocols[i].deleteFar && s.protocols[i].deleteNear
  }

  lemma FarEndStack(s: Registry, p: Id)
    requires Invariant(s) && p in s.protocols
    ensures FarEnd(s, p) in Stack(s, p)
    ensures Stack(s, FarEnd(s, p)) == NearPart(s, FarEnd(s, p)) == Stack(s, p)
  {
    var e := FarEnd(s, p);
    FarEndHasNoFar(s, p);
    FarMemberStack(s, p, e);
    assert FarPart(s, e) == [e];
    var near := NearPart(s, e);
    assert near == [e] + near[1..];
  }

  lemma {:induction false} FarEndHasNoFar(s: Registry, p: Id)
    requires Invariant(s) && p in s.protocols
    ensures s.protocols[FarEnd(s, p)].far.None? && FarEnd(s, p) in FarPart(s, p)
    decreases Rank(s)[p]
  {
    if s.protocols[p].far.Some? {
      FarEndHasNoFar(s, s.protocols[p].far.value);
    }
  }

  lemma {:induction false} NearEndHasNoNear(s: Registry, p: Id)
    requires Invariant(s) && p in s.protocols
    ensures s.protocols[NearEnd(s, p)].near.None?
    decreases |NearPart(s, p)|
  {
    if s.protocols[p].near.Some? {
      NearEndHasNoNear(s, s.protocols[p].near.value);
      assert NearEnd(s, p) == NearEnd(s, s.protocols[p].near.value);
    }
  }

  /**
   * t differs from s in the graceful and enqueued flags of p's stack, in p's far endpoint being flagged,
   * and in `dead`.
   */
  ghost predicate FlaggedStack(s: Registry, t: Registry, p: Id)
    requires Invariant(s) && p in s.protocols
  {
    && SameShape(s, t)
    && t.protocols[FarEnd(s, p)].graceful
    && (forall i <- s.protocols :: t.protocols[i].deleteFar == s.protocols[i].deleteFar
                                   && t.protocols[i].deleteNear == s.protocols[i].deleteNear)
    && (forall i <- s.protocols :: i !in Stack(s, p) ==> t.protocols[i] == s.protocols[i])
  }

  lemma MarkFlags(s: Registry, p: Id, ids: set<Id>)
    requires Invariant(s) && p in s.protocols && FarEnd(s, p) in ids
    requires forall i <- ids :: i in Stack(s, p)
    ensures Invariant(Mark(s, ids)) && FlaggedStack(s, Mark(s, ids), p) && Mark(s, ids).dead == s.dead
  {
    MarkKeepsShape(s, ids);
  }

  lemma EnqueueFlags(s: Registry, t: Registry, p: Id, m: Id)
    requires Invariant(s) && p in s.protocols && Invariant(t) && FlaggedStack(s, t, p)
    requires m in Stack(s, p) && m in s.protocols
    ensures Invariant(Enqueue(t, m)) && FlaggedStack(s, Enqueue(t, m), p) && Enqueue(t, m).dead == t.dead + {m}
  {
    EnqueueKeepsShape(t, m);
    assert t.protocols[m].enqueued ==> m in t.dead;
  }

  /** The walk starts at the far endpoint, so it sees the whole stack. */
  lemma GracefulFromFarEnd(s: Registry, p: Id)
    requires Invariant(s) && p in s.protocols
    ensures var e := FarEnd(s, p);
      var t := Mark(s, {p} + Visited(s, e));
      Graceful(s, p) == if AnyOutput(s, Stack(s, p)) then t else Enqueue(t, NearEnd(s, e))
  {
    var m, e := Mark(s, {p}), FarEnd(s, p);
    MarkKeepsShape(s, {p});
    FarEndStack(s, p);
    SameParts(s, m, e);
    SameVisited(s, m, e);
    MarkTwice(s, {p}, Visited(s, e));
  }

  /**
   * Called on any member of a stack, graceful deletion either finds output to send somewhere in it, enqueues
   * nobody and leaves the far endpoint flagged, or finds none and enqueues the near endpoint.
   */
  lemma GracefulOutcome(s: Registry, p: Id)
    requires Invariant(s) && p in s.protocols
    ensures var t, ids := Graceful(s, p), Stack(s, p);
      && Invariant(t) && FlaggedStack(s, t, p)
      && (forall i <- ids :: i in s.protocols)
      && ((exists i <- ids :: s.protocols[i].output == Own(true)) ==> t.dead == s.dead)
      && ((forall i <- ids :: s.protocols[i].output != Own(true)) ==> t.dead == s.dead + {ids[|ids| - 1]})
  {
    var e := FarEnd(s, p);
    GracefulFromFarEnd(s, p);
    FarEndStack(s, p);
    AnyOutputIff(s, e);
    StackMembers(s, p);
    assert p in FarPart(s, p);
    MarkFlags(s, p, {p} + Visited(s, e));
    EnqueueFlags(s, Mark(s, {p} + Visited(s, e)), p, NearEnd(s, e));
  }

  /** Called from the far side, it sees what is on the way to the near endpoint only. */
  lemma GracefulNearwardsOutcome(s: Registry, p: Id)
    requires Invariant(s) && p in s.protocols
    ensures var t, ids := GracefulNearwards(s, p), NearPart(s, p);
      && ((exists i <- ids :: s.protocols[i].output == Own(true)) ==> t.dead == s.dead)
      && ((forall i <- ids :: s.protocols[i].output != Own(true)) ==> t.dead == s.dead + {ids[|ids| - 1]})
  {
    AnyOutputIff(s, p);
    MarkKeepsShape(s, Visited(s, p));
    EnqueueChanges(Mark(s, Visited(s, p)), NearEnd(s, p));
  }

  /** Who is flagged: p, and the members of its stack from the far endpoint to the first that finds output. */
  lemma GracefulFlags(s: Registry, p: Id, k: nat)
    requires Invariant(s) && p in s.protocols && k < |Stack(s, p)|
    ensures var t, ids := Graceful(s, p), Stack(s, p);
      && (forall i <- ids :: i in s.protocols && i in t.protocols)
      && (t.protocols[ids[k]].graceful <==>
            s.protocols[ids[k]].graceful || ids[k] == p || forall j | 0 <= j < k :: !HasOutput(s, ids[j]))
  {
    hide Visited;
    hide HasOutput;
    hide Enqueue;
    hide Mark;
    hide AnyOutput;
    hide Closed;
    hide Symmetric;
    hide Partitioned;
    hide Acyclic;
    hide Stack;
    hide NearPart;
    hide FarPart;
    var e := FarEnd(s, p);
    GracefulFromFarEnd(s, p);
    FarEndStack(s, p);
    VisitedIff(s, e, k);
    MarkedAndEnqueued(s, {p} + Visited(s, e), NearEnd(s, e), Stack(s, p)[k]);
  }

  lemma MarkedAndEnqueued(s: Registry, ids: set<Id>, m: Id, i: Id)
    requires m in s.protocols && i in s.protocols
    ensures Mark(s, ids).protocols.Keys == s.protocols.Keys
    ensures Mark(s, ids).protocols[i].graceful <==> s.protocols[i].graceful || i in ids
    ensures Enqueue(Mark(s, ids), m).protocols.Keys == s.protocols.Keys
    ensures Enqueue(Mark(s, ids), m).protocols[i].graceful <==> s.protocols[i].graceful || i in ids
  {
  }

  /** p's stack is gone after draining t. */
  ghost predicate StackGone(s: Registry, t: Registry, p: Id)
    requires Invariant(s) && p in s.protocols
  {
    forall i <- Stack(s, p) :: i !in Purge(t, Doomed(t)).protocols
  }

  lemma DeadMemberGone(s: Registry, t: Registry, p: Id, m: Id)
    requires Invariant(s) && p in s.protocols && AllDelete(s, p)
    requires Invariant(t) && FlaggedStack(s, t, p)
    requires m in Stack(s, p) && m in t.dead
    ensures StackGone(s, t, p)
  {
    SameParts(s, t, p);
    StackOfMember(t, p, m);
    DeadMemberDoomsStack(t, m);
  }

  lemma FlaggedEndGoesOnReadyForSend(s: Registry, t: Registry, p: Id)
    requires Invariant(s) && p in s.protocols && AllDelete(s, p)
    requires Invariant(t) && FlaggedStack(s, t, p)
    ensures StackGone(s, ReadyForSend(t, FarEnd(s, p)), p)
  {
    var e := FarEnd(s, p);
    FarEndStack(s, p);
    EnqueueFlags(s, t, p, e);
    DeadMemberGone(s, Enqueue(t, e), p, e);
  }

  /** In either case the following drain removes the whole stack: at once when nothing was pending ... */
  lemma GracefulAtOnce(s: Registry, p: Id)
    requires Invariant(s) && p in s.protocols && AllDelete(s, p)
    requires forall i <- Stack(s, p) :: i in s.protocols && s.protocols[i].output != Own(true)
    ensures StackGone(s, Graceful(s, p), p)
  {
    GracefulOutcome(s, p);
    FarEndStack(s, p);
    DeadMemberGone(s, Graceful(s, p), p, NearEnd(s, FarEnd(s, p)));
  }

  /** ... and otherwise after the next ReadyForSend on the far endpoint, which finds nobody else enqueued. */
  lemma GracefulDeferred(s: Registry, p: Id)
    requires Invariant(s) && p in s.protocols && AllDelete(s, p)
    requires exists i <- Stack(s, p) :: i in s.protocols && s.protocols[i].output == Own(true)
    ensures var t := Graceful(s, p);
      && Invariant(t) && t.dead == s.dead
      && StackGone(s, ReadyForSend(t, FarEnd(s, p)), p)
  {
    GracefulOutcome(s, p);
    FlaggedEndGoesOnReadyForSend(s, Graceful(s, p), p);
  }
}
