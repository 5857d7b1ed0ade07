/**
 * The applications of the server under their ids, names and aliases, and the normalisation of the
 * configuration that is there to keep those apart.
 */
module ApplicationIndex {
  import opened Options

  /** The names of an application: its own, and its aliases. */
  datatype Naming = Naming(name: string, aliases: seq<string>) {
    function Names(): set<string> {
      {name} + set a | a in aliases
    }
  }

  datatype Application = Application(id: nat, naming: Naming, isDefault: bool) {
    function Names(): set<string> {
      naming.Names()
    }
  }

  datatype Index = Index(byId: map<nat, Application>, byName: map<string, Application>, default: Option<Application>)

  const EMPTY := Index(map[], map[], None)

  // ---------------------------------------------------------------- what the operations come to

  predicate CanRegister(ix: Index, app: Application) {
    app.id !in ix.byId && app.Names() !! ix.byName.Keys
  }

  function Registered(ix: Index, app: Application): Index {
    if !CanRegister(ix, app) then ix else
    Index(ix.byId[app.id := app],
          map n | n in ix.byName.Keys + app.Names() :: if n in app.Names() then app else ix.byName[n],
          if app.isDefault then Some(app) else ix.default)
  }

  function Unregistered(ix: Index, app: Application): Index {
    Index(ix.byId - {app.id}, ix.byName - app.Names(),
          if ix.default.Some? && ix.default.value.id == app.id then None else ix.default)
  }

  function Without(byName: map<string, Application>, names: seq<string>): map<string, Application> {
    map n | n in byName && n !in names :: byName[n]
  }

  lemma WithoutOneMore(byName: map<string, Application>, names: seq<string>, i: nat)
    requires i < |names|
    ensures Without(byName, names[..i + 1]) == Without(byName, names[..i]) - {names[i]}
  {
  }

  lemma WithoutNames(byName: map<string, Application>, app: Application)
    ensures var aliases := app.naming.aliases;
            Without(Without(byName, [app.naming.name]), aliases[..|aliases|]) == byName - app.Names()
  {
  }

  class ClientApplicationManager {
    var applicationsById: map<nat, Application>
    var applicationsByName: map<string, Application>
    var pDefaultApplication: Option<Application>

    constructor ()
      ensures Contents() == EMPTY
    {
      applicationsById, applicationsByName, pDefaultApplication := map[], map[], None;
    }

    function Contents(): Index
      reads this
    {
      Index(applicationsById, applicationsByName, pDefaultApplication)
    }

    method RegisterApplication(pClientApplication: Option<Application>) returns (ok: bool)
      modifies this
      ensures ok <==> pClientApplication.Some? && CanRegister(old(Contents()), pClientApplication.value)
      ensures Contents() == if ok then Registered(old(Contents()), pClientApplication.value) else old(Contents())
    {
      if pClientApplication.None? { return false; }
      var app := pClientApplication.value;
      if app.id in applicationsById { return false; }
      if app.naming.name in applicationsByName { return false; }
      for i := 0 to |app.naming.aliases|
        invariant forall k :: 0 <= k < i ==> app.naming.aliases[k] !in applicationsByName
      {
        if app.naming.aliases[i] in applicationsByName { return false; }
      }
      ghost var before := applicationsByName;
      applicationsById := applicationsById[app.id := app];
      applicationsByName := applicationsByName[app.naming.name := app];
      for i := 0 to |app.naming.aliases|
        invariant applicationsById == old(applicationsById)[app.id := app]
        invariant pDefaultApplication == old(pDefaultApplication)
        invariant forall n :: n in applicationsByName <==>
                              n in before || n == app.naming.name || n in app.naming.aliases[..i]
        invariant forall n :: n in applicationsByName ==>
                              applicationsByName[n] == if n in before then before[n] else app
      {
        applicationsByName := applicationsByName[app.naming.aliases[i] := app];
      }
      if app.isDefault {
        pDefaultApplication := Some(app);
      }
      assert applicationsByName == Registered(old(Contents()), app).byName;
      ok := true;
    }

    method UnRegisterApplication(pClientApplication: Option<Application>)
      modifies this
      ensures Contents() ==
              if pClientApplication.Some? then Unregistered(old(Contents()), pClientApplication.value)
              else old(Contents())
    {
      if pClientApplication.None? { return; }
      var app := pClientApplication.value;
      if app.id in applicationsById {
        applicationsById := applicationsById - {app.id};
      }
      if app.naming.name in applicationsByName {
        applicationsByName := applicationsByName - {app.naming.name};
      }
      var i := 0;
      while i < |app.naming.aliases|
        invariant i <= |app.naming.aliases|
        invariant applicationsById == old(applicationsById) - {app.id}
        invariant pDefaultApplication == old(pDefaultApplication)
        invariant applicationsByName ==
                  Without(Without(old(applicationsByName), [app.naming.name]), app.naming.aliases[..i])
      {
        if app.naming.aliases[i] in applicationsByName {
          applicationsByName := applicationsByName - {app.naming.aliases[i]};
        }
        WithoutOneMore(Without(old(applicationsByName), [app.naming.name]), app.naming.aliases, i);
        i := i + 1;
      }
      if pDefaultApplication.Some? {
        if pDefaultApplication.value.id == app.id {
          pDefaultApplication := None;
        }
      }
      WithoutNames(old(applicationsByName), app);
    }

    method FindAppByName(appName: string) returns (app: Option<Application>)
      ensures app == FoundByName(Contents(), appName)
    {
      if appName in applicationsByName {
        return Some(applicationsByName[appName]);
      }
      app := None;
    }

    method FindAppById(id: nat) returns (app: Option<Application>)
      ensures app == if id in applicationsById then Some(applicationsById[id]) else None
    {
      if id in applicationsById {
        return Some(applicationsById[id]);
      }
      app := None;
    }
  }

  function FoundByName(ix: Index, name: string): Option<Application> {
    if name in ix.byName then Some(ix.byName[name]) else None
  }

  // ---------------------------------------------------------------- every run

  predicate IsRegistered(ix: Index, app: Application) {
    app.id in ix.byId && ix.byId[app.id] == app
  }

  /** Ids are keys, names lead to the registered application that has them, and so does the default. */
  ghost predicate Sound(ix: Index) {
    && (forall i :: i in ix.byId ==> ix.byId[i].id == i)
    && (forall n :: n in ix.byName ==> IsRegistered(ix, ix.byName[n]) && n in ix.byName[n].Names())
    && (forall i, n :: i in ix.byId && n in ix.byId[i].Names() ==> n in ix.byName && ix.byName[n] == ix.byId[i])
    && (ix.default.Some? ==> IsRegistered(ix, ix.default.value) && ix.default.value.isDefault)
  }

  /** A name finds an application exactly if that one is registered and has it as name or alias. */
  lemma FindsTheOne(ix: Index, name: string, app: Application)
    requires Sound(ix)
    ensures FoundByName(ix, name) == Some(app) <==> IsRegistered(ix, app) && name in app.Names()
  {
  }

  lemma RegisterKeepsSound(ix: Index, app: Application)
    requires Sound(ix)
    ensures Sound(Registered(ix, app))
  {
    hide Naming.Names;
    var next := Registered(ix, app);
    if CanRegister(ix, app) {
      forall n | n in next.byName ensures IsRegistered(next, next.byName[n]) && n in next.byName[n].Names() {
        assert n in app.Names() || n in ix.byName;
      }
      forall i, n | i in next.byId && n in next.byId[i].Names()
        ensures n in next.byName && next.byName[n] == next.byId[i]
      {
        if i != app.id { assert i in ix.byId && n in ix.byName; }
      }
    }
  }

  /** A registered application is found by all its names, and nothing else changes hands. */
  lemma RegisteredIsFound(ix: Index, app: Application, name: string)
    requires Sound(ix) && CanRegister(ix, app)
    ensures IsRegistered(Registered(ix, app), app)
    ensures FoundByName(Registered(ix, app), name) == if name in app.Names() then Some(app) else FoundByName(ix, name)
  {
  }

  /** Unregistering undoes registering, unless another default application was forgotten for this one. */
  lemma UnregisterUndoesRegisterIff(ix: Index, app: Application)
    requires Sound(ix) && CanRegister(ix, app)
    ensures Unregistered(Registered(ix, app), app) == ix <==> !app.isDefault || ix.default == None
  {
    hide Naming.Names;
    var back := Unregistered(Registered(ix, app), app);
    assert back.byId == ix.byId;
    assert back.byName.Keys == ix.byName.Keys;
    assert back.byName == ix.byName;
  }

  /** The names taken away with an application are its own and nobody else's. */
  predicate TakesOnlyItsOwn(ix: Index, app: Application) {
    && (forall i :: i in ix.byId && i != app.id ==> ix.byId[i].Names() !! app.Names())
    && (app.id in ix.byId ==> ix.byId[app.id].Names() <= app.Names())
  }

  lemma TakesOnlyItsOwnIfSound(ix: Index, app: Application)
    requires Sound(ix) && Sound(Unregistered(ix, app))
    ensures TakesOnlyItsOwn(ix, app)
  {
    hide Naming.Names;
    var next := Unregistered(ix, app);
    forall i | i in ix.byId && i != app.id ensures ix.byId[i].Names() !! app.Names() {
      assert next.byId[i] == ix.byId[i];
      forall n | n in ix.byId[i].Names() ensures n !in app.Names() {
        assert n in next.byName;
      }
    }
    if app.id in ix.byId {
      forall n | n in ix.byId[app.id].Names() ensures n in app.Names() {
        assert n in ix.byName && ix.byName[n].id !in next.byId;
        assert n !in next.byName;
      }
    }
  }

  lemma SoundIfTakesOnlyItsOwn(ix: Index, app: Application)
    requires Sound(ix) && TakesOnlyItsOwn(ix, app)
    ensures Sound(Unregistered(ix, app))
  {
    hide Naming.Names;
    var next := Unregistered(ix, app);
    forall i, n | i in next.byId && n in next.byId[i].Names()
      ensures n in next.byName && next.byName[n] == next.byId[i]
    {
      assert i in ix.byId && n in ix.byName;
    }
    forall n | n in next.byName ensures IsRegistered(next, next.byName[n]) {
      assert IsRegistered(ix, ix.byName[n]) && n in ix.byName[n].Names() && n !in app.Names();
    }
  }

  /** The index stays sound exactly if they are; and that is so for whatever is registered. */
  lemma UnregisterKeepsSoundIff(ix: Index, app: Application)
    requires Sound(ix)
    ensures Sound(Unregistered(ix, app)) <==> TakesOnlyItsOwn(ix, app)
    ensures IsRegistered(ix, app) ==> TakesOnlyItsOwn(ix, app)
  {
    hide Naming.Names;
    hide Unregistered;
    if Sound(Unregistered(ix, app)) { TakesOnlyItsOwnIfSound(ix, app); }
    if TakesOnlyItsOwn(ix, app) { SoundIfTakesOnlyItsOwn(ix, app); }
    if IsRegistered(ix, app) {
      forall i | i in ix.byId && i != app.id ensures ix.byId[i].Names() !! app.Names() {
        forall n | n in ix.byId[i].Names() ensures n !in app.Names() {
          assert ix.byName[n] == ix.byId[i];
        }
      }
    }
  }

  /**
   * Unregistering what failed to register over a name that was taken, as the destructor of the web
   * server application does, leaves the owner of the name registered but no longer found by it.
   */
  lemma UnregisteringARefused(ix: Index, app: Application, name: string)
    requires Sound(ix) && app.id !in ix.byId
    requires name in app.Names() && name in ix.byName
    ensures Registered(ix, app) == ix
    ensures var owner, next := ix.byName[name], Unregistered(ix, app);
            IsRegistered(next, owner) && name in owner.Names() && FoundByName(next, name) == None
  {
  }

  datatype Operation = Register(app: Application) | Unregister(app: Application)

  /** What a run of registrations, and of unregistrations of what is registered, leads to. */
  function Run(ops: seq<Operation>): Index {
    if ops == [] then EMPTY else
    var ix := Run(ops[..|ops| - 1]);
    match ops[|ops| - 1]
    case Register(app) => Registered(ix, app)
    case Unregister(app) => Unregistered(ix, app)
  }

  predicate UnregistersRegistered(ops: seq<Operation>) {
    ops == [] ||
    (UnregistersRegistered(ops[..|ops| - 1]) &&
     (ops[|ops| - 1].Unregister? ==> IsRegistered(Run(ops[..|ops| - 1]), ops[|ops| - 1].app)))
  }

  lemma {:induction false} EveryRunIsSound(ops: seq<Operation>)
    requires UnregistersRegistered(ops)
    ensures Sound(Run(ops))
  {
    if ops != [] {
      var ix, app := Run(ops[..|ops| - 1]), ops[|ops| - 1].app;
      EveryRunIsSound(ops[..|ops| - 1]);
      RegisterKeepsSound(ix, app);
      UnregisterKeepsSoundIff(ix, app);
    }
  }

  /** The k-th operation registers a default application, and is not refused. */
  predicate SetsDefault(ops: seq<Operation>, k: nat)
    requires k < |ops|
  {
    && ops[k].Register? && ops[k].app.isDefault
    && ops[k].app.id !in Run(ops[..k]).byId && ops[k].app.Names() !! Run(ops[..k]).byName.Keys
  }

  /** Since then no other has taken its place, and nothing with its id has been unregistered. */
  predicate DefaultSince(ops: seq<Operation>, k: nat)
    requires k < |ops|
  {
    && SetsDefault(ops, k)
    && forall j | k < j < |ops| ::
         !SetsDefault(ops, j) && (ops[j].Unregister? ==> ops[j].app.id != ops[k].app.id)
  }

  lemma DefaultSinceUnfolds(ops: seq<Operation>, k: nat)
    requires k < |ops| - 1
    ensures var last, prefix := |ops| - 1, ops[..|ops| - 1];
            DefaultSince(ops, k) <==>
            && DefaultSince(prefix, k) && !SetsDefault(ops, last)
            && (ops[last].Unregister? ==> ops[last].app.id != ops[k].app.id)
  {
    var last, prefix := |ops| - 1, ops[..|ops| - 1];
    forall j | 0 <= j < last ensures SetsDefault(prefix, j) <==> SetsDefault(ops, j) {
      assert prefix[..j] == ops[..j] && prefix[j] == ops[j];
    }
  }

  /** After every run the default application is the last one registered as such, unless it was unregistered. */
  lemma {:induction false} DefaultIsTheLast(ops: seq<Operation>, app: Application)
    ensures Run(ops).default == Some(app) <==>
            exists k | 0 <= k < |ops| :: DefaultSince(ops, k) && ops[k].app == app
  {
    if ops != [] {
      hide DefaultSince;
      hide SetsDefault;
      var last, prefix := |ops| - 1, ops[..|ops| - 1];
      DefaultIsTheLast(prefix, app);
      forall k | 0 <= k < last
        ensures DefaultSince(ops, k) <==>
                && DefaultSince(prefix, k) && !SetsDefault(ops, last)
                && (ops[last].Unregister? ==> ops[last].app.id != ops[k].app.id)
      {
        DefaultSinceUnfolds(ops, k);
      }
      LastSetsDefault(ops);
    }
  }

  lemma LastSetsDefault(ops: seq<Operation>)
    requires ops != []
    ensures var last, ix := |ops| - 1, Run(ops[..|ops| - 1]);
            && (SetsDefault(ops, last) <==> DefaultSince(ops, last))
            && Run(ops).default ==
               if SetsDefault(ops, last) then Some(ops[last].app)
               else if ops[last].Unregister? && ix.default.Some? && ix.default.value.id == ops[last].app.id then None
               else ix.default
  {
  }

  // ---------------------------------------------------------------- the configuration

  /**
   * An entry of the configuration, as far as names go: a missing name or an alias that is not a string
   * is None, and the rest of the entry (library, acceptors) is acceptable or not.
   */
  datatype Node = NotAMap | Node(name: Option<string>, restIsValid: bool, aliases: seq<Option<string>>)

  class ConfigFile {
    var uniqueNames: set<string>
    var applications: seq<Naming>

    constructor ()
      ensures uniqueNames == {} && applications == []
    {
      uniqueNames, applications := {}, [];
    }

    /** Every name so far belongs to one of the applications so far, and to no other. */
    ghost predicate Valid()
      reads this
    {
      && (forall k :: 0 <= k < |applications| ==> applications[k].Names() <= uniqueNames)
      && Disjoint(applications)
    }

    method NormalizeApplications(nodes: seq<Node>) returns (ok: bool)
      requires Valid()
      modifies this
      ensures Valid()
      ensures ok <==> AllAcceptable(nodes, old(uniqueNames))
      ensures ok ==> |applications| == old(|applications|) + |nodes|
      ensures ok ==> applications[..old(|applications|)] == old(applications)
      ensures ok ==> forall k :: 0 <= k < |nodes| ==> IsNormalized(applications[old(|applications|) + k], nodes[k])
    {
      for i := 0 to |nodes|
        invariant Valid() && |applications| == old(|applications|) + i
        invariant applications[..old(|applications|)] == old(applications)
        invariant forall k :: 0 <= k < i ==> IsNormalized(applications[old(|applications|) + k], nodes[k])
        invariant AllAcceptable(nodes[..i], old(uniqueNames))
        invariant uniqueNames == old(uniqueNames) + NamesOfAll(nodes[..i])
      {
        OneMoreEntry(nodes, i, old(uniqueNames));
        if nodes[i].NotAMap? { return false; }
        var accepted, node := NormalizeApplication(nodes[i]);
        if !accepted { return false; }
        SameNames(node, nodes[i]);
        applications := applications + [node];
      }
      assert nodes[..|nodes|] == nodes;
      ok := true;
    }

    method NormalizeApplication(node: Node) returns (ok: bool, out: Naming)
      requires node.Node?
      modifies this`uniqueNames
      ensures uniqueNames >= old(uniqueNames)
      ensures ok ==> IsNormalized(out, node)
      ensures ok ==> out.Names() !! old(uniqueNames) && uniqueNames == old(uniqueNames) + out.Names()
      ensures ok <==> Acceptable(node, old(uniqueNames))
      ensures ok ==> node.restIsValid && "" !in out.Names() && out.name !in out.aliases
      ensures ok ==> forall j, k :: 0 <= j < k < |out.aliases| ==> out.aliases[j] != out.aliases[k]
    {
      out := Naming("", []);
      if node.name.None? { return false, out; }
      var name := node.name.value;
      if name == "" { return false, out; }
      if name in uniqueNames { return false, out; }
      uniqueNames := uniqueNames + {name};
      if !node.restIsValid { return false, out; }

      var aliases: seq<string> := [];
      for i := 0 to |node.aliases|
        invariant |aliases| == i
        invariant forall k :: 0 <= k < i ==> node.aliases[k] == Some(aliases[k]) && aliases[k] != ""
        invariant forall k :: 0 <= k < i ==> aliases[k] !in old(uniqueNames) + {name}
        invariant forall j, k :: 0 <= j < k < i ==> aliases[j] != aliases[k]
        invariant uniqueNames == old(uniqueNames) + {name} + set a | a in aliases
      {
        if node.aliases[i].None? { return false, out; }
        var alias := node.aliases[i].value;
        if alias == "" { return false, out; }
        if alias in uniqueNames { return false, out; }
        uniqueNames := uniqueNames + {alias};
        aliases := aliases + [alias];
      }
      out := Naming(name, aliases);
      ok := true;
    }
  }

  predicate IsNormalized(out: Naming, node: Node) {
    && node.Node? && node.name == Some(out.name)
    && |out.aliases| == |node.aliases|
    && forall k :: 0 <= k < |out.aliases| ==> node.aliases[k] == Some(out.aliases[k])
  }

  /** What makes an entry acceptable: all its names are there, not empty, and new, also to each other. */
  predicate Acceptable(node: Node, taken: set<string>)
    requires node.Node?
  {
    && node.restIsValid
    && IsNewName(node.name, taken)
    && (forall k :: 0 <= k < |node.aliases| ==> IsNewName(node.aliases[k], taken) && node.aliases[k] != node.name)
    && forall j, k :: 0 <= j < k < |node.aliases| ==> node.aliases[j] != node.aliases[k]
  }

  function NamesOf(node: Node): set<string> {
    if node.NotAMap? then {}
    else (if node.name.Some? then {node.name.value} else {}) + set a | a in node.aliases && a.Some? :: a.value
  }

  function NamesOfAll(nodes: seq<Node>): set<string> {
    if nodes == [] then {} else NamesOfAll(nodes[..|nodes| - 1]) + NamesOf(nodes[|nodes| - 1])
  }

  /** A configuration is acceptable if each of its entries is, and no two of them share a name. */
  predicate AllAcceptable(nodes: seq<Node>, taken: set<string>) {
    && (forall k :: 0 <= k < |nodes| ==> nodes[k].Node? && Acceptable(nodes[k], taken))
    && (forall j, k :: 0 <= j < k < |nodes| ==> NamesOf(nodes[j]) !! NamesOf(nodes[k]))
  }

  lemma SameNames(out: Naming, node: Node)
    requires IsNormalized(out, node)
    ensures NamesOf(node) == out.Names()
  {
    assert forall a :: a in out.aliases ==> Some(a) in node.aliases;
  }

  lemma {:induction false} TakenByOne(nodes: seq<Node>, name: string)
    ensures name in NamesOfAll(nodes) <==> exists k :: 0 <= k < |nodes| && name in NamesOf(nodes[k])
  {
    if nodes != [] {
      var prefix := nodes[..|nodes| - 1];
      TakenByOne(prefix, name);
      assert forall k :: 0 <= k < |prefix| ==> prefix[k] == nodes[k];
    }
  }

  /** Normalisation goes on past entry i exactly if the entries up to it are acceptable together. */
  lemma OneMoreEntry(nodes: seq<Node>, i: nat, taken: set<string>)
    requires i < |nodes| && AllAcceptable(nodes[..i], taken)
    ensures nodes[..i + 1][..i] == nodes[..i]
    ensures AllAcceptable(nodes[..i + 1], taken) <==>
            nodes[i].Node? && Acceptable(nodes[i], taken + NamesOfAll(nodes[..i]))
    ensures AllAcceptable(nodes, taken) ==> AllAcceptable(nodes[..i + 1], taken)
  {
    hide NamesOf;
    hide NamesOfAll;
    var prefix, before := nodes[..i + 1], nodes[..i];
    assert prefix[..i] == before;
    forall k | 0 <= k < |prefix| ensures prefix[k] == nodes[k] && (k < i ==> before[k] == nodes[k]) {}
    if nodes[i].Node? { AcceptableAmong(nodes[i], before, taken); }
  }

  lemma AcceptableAmong(node: Node, before: seq<Node>, taken: set<string>)
    requires node.Node?
    ensures Acceptable(node, taken + NamesOfAll(before)) <==>
            Acceptable(node, taken) && forall j :: 0 <= j < |before| ==> NamesOf(before[j]) !! NamesOf(node)
  {
    hide NamesOfAll;
    forall name ensures name in NamesOfAll(before) <==> exists k :: 0 <= k < |before| && name in NamesOf(before[k]) {
      TakenByOne(before, name);
    }
    forall name ensures name in NamesOf(node) <==> Some(name) == node.name || Some(name) in node.aliases {
      if Some(name) in node.aliases { assert Some(name).value in NamesOf(node); }
    }
  }

  predicate IsNewName(name: Option<string>, taken: set<string>) {
    name.Some? && name.value != "" && name.value !in taken
  }

  ghost predicate Disjoint(nodes: seq<Naming>) {
    forall j, k :: 0 <= j < k < |nodes| ==> nodes[j].Names() !! nodes[k].Names()
  }

  /** The applications instantiated from the normalised entries, in some order and under some ids. */
  ghost predicate AreInstances(apps: seq<Application>, nodes: seq<Naming>, order: seq<nat>) {
    && |order| == |apps|
    && (forall k :: 0 <= k < |order| ==> order[k] < |nodes| && apps[k].naming == nodes[order[k]])
    && (forall j, k :: 0 <= j < k < |order| ==> order[j] != order[k])
    && (forall j, k :: 0 <= j < k < |apps| ==> apps[j].id != apps[k].id)
  }

  function Registrations(apps: seq<Application>): seq<Operation> {
    seq(|apps|, k requires 0 <= k < |apps| => Register(apps[k]))
  }

  /** Registering them one after another, in whatever order, none is refused. */
  lemma {:induction false} NoneIsRefused(apps: seq<Application>, nodes: seq<Naming>, order: seq<nat>, k: nat)
    requires Disjoint(nodes) && AreInstances(apps, nodes, order) && k < |apps|
    ensures CanRegister(Run(Registrations(apps[..k])), apps[k])
  {
    HoldsOnly(apps[..k]);
    var ix := Run(Registrations(apps[..k]));
    forall n | n in ix.byName ensures n !in apps[k].Names() {
      var j :| 0 <= j < k && n in apps[j].Names();
      assert nodes[order[j]].Names() !! nodes[order[k]].Names();
    }
  }

  lemma {:induction false} HoldsOnly(apps: seq<Application>)
    ensures forall i :: i in Run(Registrations(apps)).byId ==> exists j :: 0 <= j < |apps| && apps[j].id == i
    ensures forall n :: n in Run(Registrations(apps)).byName ==> exists j :: 0 <= j < |apps| && n in apps[j].Names()
  {
    if apps != [] {
      var fewer := apps[..|apps| - 1];
      HoldsOnly(fewer);
      assert Registrations(apps)[..|apps| - 1] == Registrations(fewer);
      var ix, app := Run(Registrations(fewer)), apps[|apps| - 1];
      assert Run(Registrations(apps)) == Registered(ix, app);
      forall i | i in Registered(ix, app).byId ensures exists j :: 0 <= j < |apps| && apps[j].id == i {
        if i in ix.byId {
          var j :| 0 <= j < |fewer| && fewer[j].id == i;
          assert apps[j].id == i;
        } else {
          assert apps[|apps| - 1].id == i;
        }
      }
      forall n | n in Registered(ix, app).byName ensures exists j :: 0 <= j < |apps| && n in apps[j].Names() {
        if n in ix.byName {
          var j :| 0 <= j < |fewer| && n in fewer[j].Names();
          assert n in apps[j].Names();
        } else {
          assert n in apps[|apps| - 1].Names();
        }
      }
    }
  }
}
