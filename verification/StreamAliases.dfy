/**
 * Stream names that go by aliases for a time. Aliases that ran out are dropped when somebody asks for
 * them, and by a timer; the history of a run says what a lookup has to find, whatever the timer did.
 */
module StreamAliases {
  import opened Options

  datatype StreamAlias = StreamAlias(localStreamName: string, aliasName: string, creationTime: nat, expirePeriod: nat,
                                     permanent: bool, oneShot: bool)
  {
    predicate Expired(now: nat) {
      !permanent && (creationTime == 0 || expirePeriod == 0 || now > creationTime + expirePeriod)
    }
  }

  type Aliases = map<string, StreamAlias>

  // ---------------------------------------------------------------- what the operations come to

  function Seconds(period: int): nat {
    if period < 0 then -period else period
  }

  /** A period of zero is for good, a negative one for a single use. */
  function NewAlias(now: nat, name: string, alias: string, period: int): StreamAlias {
    StreamAlias(name, alias, now, Seconds(period), period == 0, period < 0)
  }

  function AfterLookup(aliases: Aliases, now: nat, alias: string, remove: bool): Aliases {
    if alias in aliases && (aliases[alias].Expired(now) || (aliases[alias].oneShot && remove))
    then aliases - {alias} else aliases
  }

  function Found(hasAliases: bool, aliases: Aliases, now: nat, alias: string): string {
    if alias !in aliases then (if hasAliases then "" else alias)
    else if aliases[alias].Expired(now) then "" else aliases[alias].localStreamName
  }

  predicate HasExpired(aliases: Aliases, now: nat, alias: string) {
    alias in aliases && aliases[alias].Expired(now)
  }

  function Purged(aliases: Aliases, now: nat): Aliases {
    map a | a in aliases && !aliases[a].Expired(now) :: aliases[a]
  }

  class BaseClientApplication {
    const hasStreamAliases: bool
    var streamAliases: Aliases

    constructor (hasAliases: bool)
      ensures hasStreamAliases == hasAliases && streamAliases == map[]
    {
      hasStreamAliases := hasAliases;
      streamAliases := map[];
    }

    method HasExpiredAlias(now: nat, alias: string) returns (r: bool)
      ensures r <==> HasExpired(streamAliases, now, alias)
    {
      if alias in streamAliases {
        r := streamAliases[alias].Expired(now);
      } else {
        r := false;
      }
    }

    method GetStreamNameByAlias(now: nat, alias: string, remove: bool) returns (name: string)
      modifies this
      ensures name == Found(hasStreamAliases, old(streamAliases), now, alias)
      ensures streamAliases == AfterLookup(old(streamAliases), now, alias, remove)
      ensures streamAliases - {alias} == old(streamAliases) - {alias}
      ensures alias in streamAliases <==> alias in old(streamAliases) && !old(streamAliases)[alias].Expired(now)
                                          && !(old(streamAliases)[alias].oneShot && remove)
      ensures alias in streamAliases ==> streamAliases[alias] == old(streamAliases)[alias]
    {
      if alias in streamAliases {
        var streamAlias := streamAliases[alias];
        if streamAlias.Expired(now) {
          streamAliases := streamAliases - {alias};
          return "";
        }
        if streamAlias.oneShot {
          if remove {
            name := streamAlias.localStreamName;
            streamAliases := streamAliases - {alias};
          } else {
            name := streamAlias.localStreamName;
          }
        } else {
          name := streamAlias.localStreamName;
        }
      } else if hasStreamAliases {
        name := "";
      } else {
        name := alias;
      }
    }

    method SetStreamAlias(now: nat, localStreamName: string, streamAlias: string, expirePeriod: int) returns (ok: bool)
      modifies this
      ensures ok == hasStreamAliases
      ensures streamAliases ==
              if ok then old(streamAliases)[streamAlias := NewAlias(now, localStreamName, streamAlias, expirePeriod)]
              else old(streamAliases)
    {
      if !hasStreamAliases {
        return false;
      }
      var value := StreamAlias("", "", 0, 0, false, false);
      value := value.(localStreamName := localStreamName);
      value := value.(aliasName := streamAlias);
      value := value.(creationTime := now);
      value := value.(expirePeriod := if expirePeriod < 0 then -expirePeriod else expirePeriod);
      value := value.(permanent := expirePeriod == 0);
      value := value.(oneShot := expirePeriod < 0);
      streamAliases := streamAliases[streamAlias := value];
      ok := true;
    }

    method RemoveStreamAlias(streamAlias: string) returns (ok: bool)
      modifies this
      ensures ok == hasStreamAliases
      ensures streamAliases == if ok then old(streamAliases) - {streamAlias} else old(streamAliases)
    {
      if !hasStreamAliases {
        return false;
      }
      streamAliases := streamAliases - {streamAlias};
      ok := true;
    }
  }

  class StreamAliasExpireTimer {
    var owner: BaseClientApplication?

    constructor (application: BaseClientApplication)
      ensures owner == application
    {
      owner := application;
    }

    method ResetAliases()
      modifies this
      ensures owner == null
    {
      owner := null;
    }

    /** Goes once through the map, in whatever order, and erases what has expired. */
    method TimePeriodElapsed(now: nat) returns (ok: bool)
      modifies owner
      ensures ok
      ensures owner != null ==> owner.streamAliases == Purged(old(owner.streamAliases), now)
    {
      if owner == null {
        return true;
      }
      ghost var before := owner.streamAliases;
      var todo := owner.streamAliases.Keys;
      while todo != {}
        invariant owner != null && todo <= owner.streamAliases.Keys
        invariant forall a :: a in owner.streamAliases <==>
                              a in before && (a in todo || !before[a].Expired(now))
        invariant forall a :: a in owner.streamAliases ==> owner.streamAliases[a] == before[a]
        decreases |todo|
      {
        var a :| a in todo;
        if owner.streamAliases[a].Expired(now) {
          owner.streamAliases := owner.streamAliases - {a};
        }
        todo := todo - {a};
      }
      ok := true;
    }
  }

  // ---------------------------------------------------------------- runs

  datatype Operation =
    | Set(time: nat, name: string, alias: string, period: int)
    | Get(time: nat, alias: string, remove: bool)
    | Remove(time: nat, alias: string)
    | Tick(time: nat)

  function Apply(hasAliases: bool, aliases: Aliases, op: Operation): Aliases {
    match op
    case Set(now, name, alias, period) =>
      if hasAliases then aliases[alias := NewAlias(now, name, alias, period)] else aliases
    case Get(now, alias, remove) => AfterLookup(aliases, now, alias, remove)
    case Remove(_, alias) => if hasAliases then aliases - {alias} else aliases
    case Tick(now) => Purged(aliases, now)
  }

  function After(hasAliases: bool, history: seq<Operation>): Aliases {
    if history == [] then map[]
    else Apply(hasAliases, After(hasAliases, history[..|history| - 1]), history[|history| - 1])
  }

  /** The clock is never set back. */
  predicate Chronological(history: seq<Operation>, now: nat) {
    history == [] ||
    (history[|history| - 1].time <= now && Chronological(history[..|history| - 1], history[|history| - 1].time))
  }

  /**
   * The alias in force by the history alone: the last one set under that name, unless it was removed, or
   * was for a single use and has been used before it ran out. The ticks of the timer do not come into it.
   */
  function InForce(history: seq<Operation>, alias: string): Option<StreamAlias> {
    if history == [] then None else
    var before := InForce(history[..|history| - 1], alias);
    match history[|history| - 1]
    case Set(now, name, a, period) => if a == alias then Some(NewAlias(now, name, a, period)) else before
    case Get(now, a, remove) =>
      if a == alias && remove && before.Some? && before.value.oneShot && !before.value.Expired(now) then None
      else before
    case Remove(_, a) => if a == alias then None else before
    case Tick(_) => before
  }

  /** What a lookup has to find at a time. */
  function Expectation(history: seq<Operation>, now: nat, alias: string): string {
    var entry := InForce(history, alias);
    if entry.Some? && !entry.value.Expired(now) then entry.value.localStreamName else ""
  }

  /** The map holds aliases in force, and every one that has not run out. */
  ghost predicate Agree(aliases: Aliases, history: seq<Operation>, now: nat) {
    forall a :: (a in aliases ==> InForce(history, a) == Some(aliases[a])) &&
                (a !in aliases && InForce(history, a).Some? ==> InForce(history, a).value.Expired(now))
  }

  lemma {:induction false} MapFollowsHistory(history: seq<Operation>, now: nat)
    requires Chronological(history, now)
    ensures Agree(After(true, history), history, now)
  {
    if history != [] {
      var prefix, op := history[..|history| - 1], history[|history| - 1];
      MapFollowsHistory(prefix, op.time);
      forall a ensures (a in After(true, history) ==> InForce(history, a) == Some(After(true, history)[a])) &&
                       (a !in After(true, history) && InForce(history, a).Some? ==>
                        InForce(history, a).value.Expired(now))
      {
        StepAgrees(After(true, prefix), history, now, a);
      }
    }
  }

  lemma StepAgrees(aliases: Aliases, history: seq<Operation>, now: nat, a: string)
    requires history != [] && history[|history| - 1].time <= now
    requires Agree(aliases, history[..|history| - 1], history[|history| - 1].time)
    ensures var next := Apply(true, aliases, history[|history| - 1]);
            (a in next ==> InForce(history, a) == Some(next[a])) &&
            (a !in next && InForce(history, a).Some? ==> InForce(history, a).value.Expired(now))
  {
  }

  /** In every run, at every time, a lookup finds what the history says it has to. */
  lemma LookupsFollowHistory(history: seq<Operation>, now: nat, alias: string)
    requires Chronological(history, now)
    ensures Found(true, After(true, history), now, alias) == Expectation(history, now, alias)
  {
    MapFollowsHistory(history, now);
  }

  /** Without the configuration property nothing is ever stored, and names stand for themselves. */
  lemma {:induction false} WithoutAliases(history: seq<Operation>, now: nat, alias: string)
    ensures After(false, history) == map[]
    ensures Found(false, After(false, history), now, alias) == alias
  {
    if history != [] { WithoutAliases(history[..|history| - 1], now, alias); }
  }

  // ---------------------------------------------------------------- the timer does not show

  function WithoutTicks(history: seq<Operation>): seq<Operation> {
    if history == [] then [] else
    var prefix, op := WithoutTicks(history[..|history| - 1]), history[|history| - 1];
    if op.Tick? then prefix else prefix + [op]
  }

  lemma {:induction false} TicksChangeNothing(history: seq<Operation>, now: nat, alias: string)
    requires Chronological(history, now)
    ensures Chronological(WithoutTicks(history), now)
    ensures InForce(WithoutTicks(history), alias) == InForce(history, alias)
  {
    if history != [] {
      var prefix, op := history[..|history| - 1], history[|history| - 1];
      TicksChangeNothing(prefix, op.time, alias);
      ChronologicalLater(WithoutTicks(prefix), op.time, now);
      if !op.Tick? {
        assert WithoutTicks(history)[..|WithoutTicks(prefix)|] == WithoutTicks(prefix);
      }
    }
  }

  lemma {:induction false} ChronologicalLater(history: seq<Operation>, now: nat, later: nat)
    requires Chronological(history, now) && now <= later
    ensures Chronological(history, later)
  {
  }

  /** However often the timer fires, and whenever, every lookup of the run comes out as without it. */
  lemma TimerIsInvisible(hasAliases: bool, history: seq<Operation>, now: nat, alias: string)
    requires Chronological(history, now)
    ensures Found(hasAliases, After(hasAliases, history), now, alias) ==
            Found(hasAliases, After(hasAliases, WithoutTicks(history)), now, alias)
  {
    TicksChangeNothing(history, now, alias);
    if hasAliases {
      LookupsFollowHistory(history, now, alias);
      LookupsFollowHistory(WithoutTicks(history), now, alias);
    } else {
      WithoutAliases(history, now, alias);
      WithoutAliases(WithoutTicks(history), now, alias);
    }
  }

  /** Firing it once changes what HasExpiredAlias answers later exactly if the alias had expired by then. */
  lemma OneTickShowsIff(aliases: Aliases, tick: nat, now: nat, alias: string)
    requires tick <= now
    ensures HasExpired(Purged(aliases, tick), now, alias) != HasExpired(aliases, now, alias) <==>
            HasExpired(aliases, tick, alias)
  {
  }

  /** The timer fired after this value of the alias had run out, and the alias was not set again since. */
  predicate FiredAfterExpiry(history: seq<Operation>, k: nat, alias: string, value: StreamAlias)
    requires k < |history|
  {
    && history[k].Tick? && value.Expired(history[k].time)
    && forall j :: k < j < |history| ==> !Sets(history[j], alias)
  }

  /** The same, going back through the history. */
  predicate HasFired(history: seq<Operation>, alias: string, value: StreamAlias) {
    history != [] && !Sets(history[|history| - 1], alias) &&
    ((history[|history| - 1].Tick? && value.Expired(history[|history| - 1].time)) ||
     HasFired(history[..|history| - 1], alias, value))
  }

  lemma {:induction false} HasFiredIff(history: seq<Operation>, alias: string, value: StreamAlias)
    ensures HasFired(history, alias, value) <==>
            exists k :: 0 <= k < |history| && FiredAfterExpiry(history, k, alias, value)
  {
    if history != [] && !Sets(history[|history| - 1], alias) {
      var last, prefix := |history| - 1, history[..|history| - 1];
      HasFiredIff(prefix, alias, value);
      forall k | 0 <= k < last
        ensures FiredAfterExpiry(prefix, k, alias, value) <==> FiredAfterExpiry(history, k, alias, value)
      {
        assert forall j :: k < j < last ==> prefix[j] == history[j];
      }
      assert FiredAfterExpiry(history, last, alias, value) <==>
             history[last].Tick? && value.Expired(history[last].time);
    }
  }

  lemma {:induction false} FiredMeansExpired(history: seq<Operation>, now: nat, alias: string, value: StreamAlias)
    requires Chronological(history, now) && HasFired(history, alias, value)
    ensures value.Expired(now)
  {
    var prefix, op := history[..|history| - 1], history[|history| - 1];
    if HasFired(prefix, alias, value) { FiredMeansExpired(prefix, op.time, alias, value); }
  }

  /** With the timer the map holds what it would hold without, but for what had expired when it fired. */
  lemma {:induction false} TimerErases(history: seq<Operation>, now: nat, alias: string)
    requires Chronological(history, now)
    ensures var eager, lazy := After(true, history), After(true, WithoutTicks(history));
            && (alias in eager ==> alias in lazy && eager[alias] == lazy[alias])
            && (alias in lazy ==> (alias !in eager <==> HasFired(history, alias, lazy[alias])))
  {
    if history != [] {
      var prefix, op := history[..|history| - 1], history[|history| - 1];
      TimerErases(prefix, op.time, alias);
      var lazy := After(true, WithoutTicks(prefix));
      if !op.Tick? {
        assert WithoutTicks(history)[..|WithoutTicks(prefix)|] == WithoutTicks(prefix);
      }
      if alias in lazy && HasFired(prefix, alias, lazy[alias]) {
        FiredMeansExpired(prefix, op.time, alias, lazy[alias]);
      }
    }
  }

  /**
   * Over every run, the answer of HasExpiredAlias differs from that of the run without the timer exactly if
   * there the alias would still be in the map, and the timer fired after it had run out.
   */
  lemma TimerShowsIff(history: seq<Operation>, now: nat, alias: string)
    requires Chronological(history, now)
    ensures var lazy := After(true, WithoutTicks(history));
            HasExpired(After(true, history), now, alias) != HasExpired(lazy, now, alias) <==>
            alias in lazy && exists k :: 0 <= k < |history| && FiredAfterExpiry(history, k, alias, lazy[alias])
  {
    var lazy := After(true, WithoutTicks(history));
    TimerErases(history, now, alias);
    if alias in lazy {
      HasFiredIff(history, alias, lazy[alias]);
      if HasFired(history, alias, lazy[alias]) { FiredMeansExpired(history, now, alias, lazy[alias]); }
    }
  }

  /** Such a run: an alias set for a second, and the timer two seconds later. */
  lemma TimerShowsInHasExpired()
    ensures var run := [Set(1, "s", "a", 1), Tick(3)];
            && Chronological(run, 3)
            && HasExpired(After(true, WithoutTicks(run)), 3, "a") && !HasExpired(After(true, run), 3, "a")
  {
    var put, tick := Set(1, "s", "a", 1), Tick(3);
    var run := [put, tick];
    assert run[..1] == [put] && [put][..0] == [];
    assert WithoutTicks([put]) == [put] && WithoutTicks(run) == [put];
    assert After(true, [put]) == map["a" := NewAlias(1, "s", "a", 1)];
  }

  // ---------------------------------------------------------------- expiry and single use

  predicate Sets(op: Operation, alias: string) {
    op.Set? && op.alias == alias
  }

  /** Whether an operation takes the alias away or puts another in its place, if it was for a single use. */
  predicate Disturbs(op: Operation, alias: string, oneShot: bool) {
    match op
    case Set(_, _, a, _) => a == alias
    case Get(_, a, remove) => a == alias && remove && oneShot
    case Remove(_, a) => a == alias
    case Tick(_) => false
  }

  /** The k-th operation set the alias, and nothing has disturbed it since. */
  predicate Undisturbed(history: seq<Operation>, k: nat, alias: string)
    requires k < |history|
  {
    && Sets(history[k], alias)
    && forall j :: k < j < |history| ==> !Disturbs(history[j], alias, history[k].period < 0)
  }

  /** Whether a period that began at some time is over: never if it is zero, and a negative one counts as its size. */
  predicate PeriodOver(time: nat, period: int, now: nat) {
    period != 0 && (time == 0 || (now > time + period && now > time - period))
  }

  /** Nothing later than the last time it was set decides what an alias stands for. */
  lemma {:induction false} InForceWasSet(history: seq<Operation>, alias: string)
    requires InForce(history, alias).Some?
    ensures exists k :: 0 <= k < |history| && Sets(history[k], alias) &&
                        InForce(history, alias) ==
                        Some(NewAlias(history[k].time, history[k].name, alias, history[k].period)) &&
                        forall j :: k < j < |history| ==> !Sets(history[j], alias)
  {
    var last := |history| - 1;
    if Sets(history[last], alias) {
    } else {
      var prefix := history[..last];
      InForceWasSet(prefix, alias);
      var k :| 0 <= k < |prefix| && Sets(prefix[k], alias) &&
               InForce(prefix, alias) == Some(NewAlias(prefix[k].time, prefix[k].name, alias, prefix[k].period)) &&
               forall j :: k < j < |prefix| ==> !Sets(prefix[j], alias);
      assert history[k] == prefix[k];
      forall j | k < j < |history| ensures !Sets(history[j], alias) {
        if j < last { assert history[j] == prefix[j]; }
      }
    }
  }

  /** What is in the map is what was last set under that name, field by field. */
  lemma StoredAsSet(history: seq<Operation>, now: nat, alias: string)
    requires Chronological(history, now) && alias in After(true, history)
    ensures exists k :: 0 <= k < |history| && Sets(history[k], alias) &&
                        (forall j :: k < j < |history| ==> !Sets(history[j], alias)) &&
                        var a, put := After(true, history)[alias], history[k];
                        && a.localStreamName == put.name && a.aliasName == alias && a.creationTime == put.time
                        && (a.expirePeriod == put.period || a.expirePeriod == -put.period)
                        && (a.permanent <==> put.period == 0) && (a.oneShot <==> put.period < 0)
  {
    MapFollowsHistory(history, now);
    InForceWasSet(history, alias);
  }

  /** What is in force and has not run out was set at some point and is undisturbed since. */
  lemma {:induction false} InForceIsUndisturbed(history: seq<Operation>, now: nat, alias: string)
    requires Chronological(history, now)
    requires InForce(history, alias).Some? && !InForce(history, alias).value.Expired(now)
    ensures exists k :: 0 <= k < |history| && Undisturbed(history, k, alias) &&
                        InForce(history, alias) ==
                        Some(NewAlias(history[k].time, history[k].name, alias, history[k].period))
  {
    var last, prefix := |history| - 1, history[..|history| - 1];
    if Sets(history[last], alias) {
      assert Undisturbed(history, last, alias);
    } else {
      InForceIsUndisturbed(prefix, history[last].time, alias);
      var k :| 0 <= k < |prefix| && Undisturbed(prefix, k, alias) &&
               InForce(prefix, alias) == Some(NewAlias(prefix[k].time, prefix[k].name, alias, prefix[k].period));
      forall j | k < j < |history| ensures !Disturbs(history[j], alias, history[k].period < 0) {
        if j < last { assert history[j] == prefix[j]; }
      }
      assert Undisturbed(history, k, alias);
    }
  }

  /** And what was set and is undisturbed since is in force. */
  lemma {:induction false} UndisturbedIsInForce(history: seq<Operation>, k: nat, alias: string)
    requires k < |history| && Undisturbed(history, k, alias)
    ensures InForce(history, alias) == Some(NewAlias(history[k].time, history[k].name, alias, history[k].period))
  {
    var last, prefix := |history| - 1, history[..|history| - 1];
    if k < last {
      assert forall j :: k < j < last ==> prefix[j] == history[j];
      UndisturbedIsInForce(prefix, k, alias);
      assert !Disturbs(history[last], alias, history[k].period < 0);
    }
  }

  /**
   * In every run, at every time, a lookup finds the name some operation set the alias to, if nothing has
   * disturbed it since and its period is not over, and nothing if there is no such operation.
   */
  lemma FoundIff(history: seq<Operation>, now: nat, alias: string)
    requires Chronological(history, now)
    ensures forall k | 0 <= k < |history| && Undisturbed(history, k, alias)
                       && !PeriodOver(history[k].time, history[k].period, now) ::
              Found(true, After(true, history), now, alias) == history[k].name
    ensures (forall k | 0 <= k < |history| && Undisturbed(history, k, alias) ::
              PeriodOver(history[k].time, history[k].period, now)) ==>
            Found(true, After(true, history), now, alias) == ""
  {
    LookupsFollowHistory(history, now, alias);
    forall k | 0 <= k < |history| && Undisturbed(history, k, alias)
      ensures InForce(history, alias) ==
              Some(NewAlias(history[k].time, history[k].name, alias, history[k].period))
    {
      UndisturbedIsInForce(history, k, alias);
    }
    if InForce(history, alias).Some? && !InForce(history, alias).value.Expired(now) {
      InForceIsUndisturbed(history, now, alias);
    }
  }

  /** A lookup that finds a name finds the one last set, and not after its period. */
  lemma NotAfterExpiry(history: seq<Operation>, now: nat, alias: string)
    requires Chronological(history, now)
    requires Found(true, After(true, history), now, alias) != ""
    ensures exists k :: 0 <= k < |history| && Sets(history[k], alias) &&
                        Found(true, After(true, history), now, alias) == history[k].name &&
                        var age, period := now - history[k].time, history[k].period;
                        (period == 0 || age <= period || age <= -period) &&
                        forall j :: k < j < |history| ==> !Sets(history[j], alias)
  {
    FoundIff(history, now, alias);
    var k :| 0 <= k < |history| && Undisturbed(history, k, alias)
             && !PeriodOver(history[k].time, history[k].period, now);
    assert Sets(history[k], alias) && forall j :: k < j < |history| ==> !Sets(history[j], alias);
  }

  /** Until its period is over an alias is found, whatever else happens that does not concern it. */
  lemma FoundUntilExpiry(history: seq<Operation>, k: nat, now: nat, alias: string)
    requires Chronological(history, now) && k < |history| && Sets(history[k], alias)
    requires forall j :: k < j < |history| ==> !Disturbs(history[j], alias, history[k].period < 0)
    requires var age, period := now - history[k].time, history[k].period;
             period == 0 || (history[k].time > 0 && (age <= period || age <= -period))
    ensures Found(true, After(true, history), now, alias) == history[k].name
  {
    FoundIff(history, now, alias);
    assert Undisturbed(history, k, alias);
  }

  /** Set with a negative period, an alias is for a single use: looked up with removal, it is not found again. */
  lemma OneShotOnlyOnce(history: seq<Operation>, k: nat, use: nat, now: nat, alias: string)
    requires Chronological(history, now)
    requires k < use < |history| && Sets(history[k], alias) && history[k].period < 0
    requires history[use].Get? && history[use].alias == alias && history[use].remove
    requires forall j :: k < j < |history| ==> !Sets(history[j], alias)
    ensures Found(true, After(true, history), now, alias) == ""
  {
    FoundIff(history, now, alias);
    forall i | 0 <= i < |history| ensures !Undisturbed(history, i, alias) {
      if i == k { assert Disturbs(history[use], alias, true); }
    }
  }
}
