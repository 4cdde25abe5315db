/** Namespaces, their parent graph, and the resolution of a key along it. */
module Namespaces {
  import opened Seqs
  import opened Strings
  import opened ConfigTables
  import StoreRuns

  // Ids and key names.

  function MakeNamespaceId(app: string, env: string, cluster: string, name: string): string {
    app + "/" + env + "/" + cluster + "/" + name
  }

  lemma SplitCons(a: string, rest: string)
    requires '/' !in a
    ensures Split(a + "/" + rest, '/') == [a] + Split(rest, '/')
  {
    var s := a + "/" + rest;
    assert s[|a|] == '/';
    assert forall i :: 0 <= i < |a| ==> s[i] == a[i];
    assert IndexOf(s, '/', 0) == Some(|a|);
    assert s[..|a|] == a && s[|a| + 1..] == rest;
  }

  lemma {:induction false} PiecesHaveNoSlash(s: string, piece: string)
    requires piece in Split(s, '/')
    ensures '/' !in piece
    decreases |s|
  {
    match IndexOf(s, '/', 0)
    case None =>
    case Some(p) =>
      if piece != s[..p] { PiecesHaveNoSlash(s[p + 1..], piece); }
  }

  lemma SplitPrepends(a: string, rest: string, pieces: seq<string>)
    requires '/' !in a && Split(rest, '/') == pieces
    ensures Split(a + "/" + rest, '/') == [a] + pieces
  {
    SplitCons(a, rest);
  }

  lemma SplitLeaf(a: string)
    requires '/' !in a
    ensures Split(a, '/') == [a]
  {
  }

  lemma JoinThenSplit(app: string, env: string, cluster: string, name: string)
    requires '/' !in app && '/' !in env && '/' !in cluster && '/' !in name
    ensures Split(app + "/" + (env + "/" + (cluster + "/" + name)), '/') == [app] + ([env] + ([cluster] + [name]))
  {
    var tail := cluster + "/" + name;
    var rest := env + "/" + tail;
    SplitLeaf(name);
    SplitPrepends(cluster, name, [name]);
    SplitPrepends(env, tail, [cluster] + [name]);
    SplitPrepends(app, rest, [env] + ([cluster] + [name]));
  }

  lemma IdGroups(app: string, env: string, cluster: string, name: string)
    ensures MakeNamespaceId(app, env, cluster, name) == app + "/" + (env + "/" + (cluster + "/" + name))
  {
  }

  /** A namespace id splits back into its four parts exactly when none of them holds a slash. */
  lemma IdSplitsBack(app: string, env: string, cluster: string, name: string)
    ensures Split(MakeNamespaceId(app, env, cluster, name), '/') == [app, env, cluster, name]
            <==> '/' !in app && '/' !in env && '/' !in cluster && '/' !in name
  {
    var id := MakeNamespaceId(app, env, cluster, name);
    IdGroups(app, env, cluster, name);
    if '/' !in app && '/' !in env && '/' !in cluster && '/' !in name {
      JoinThenSplit(app, env, cluster, name);
      assert [app] + ([env] + ([cluster] + [name])) == [app, env, cluster, name];
    }
    var parts := [app, env, cluster, name];
    if Split(id, '/') == parts {
      assert parts[0] in parts && parts[1] in parts && parts[2] in parts && parts[3] in parts;
      PiecesHaveNoSlash(id, app);
      PiecesHaveNoSlash(id, env);
      PiecesHaveNoSlash(id, cluster);
      PiecesHaveNoSlash(id, name);
    }
  }

  /** The characters of the key pattern. */
  predicate KeyChar(c: char) {
    'a' <= c <= 'z' || 'A' <= c <= 'Z' || '0' <= c <= '9' || c == '.' || c == '_' || c == '-'
  }

  /** The error message, or none when the name is valid. */
  function ValidateKeyName(key: string): Option<string> {
    if key == "" then Some("Key name cannot be empty")
    else if |key| > 128 then Some("Key name exceeds maximum length of 128 characters")
    else if exists i :: 0 <= i < |key| && !KeyChar(key[i]) then
      Some("Key name contains invalid characters. Allowed: [a-zA-Z0-9._-]")
    else None
  }

  const LOWER := "abcdefghijklmnopqrstuvwxyz"
  const UPPER := "ABCDEFGHIJKLMNOPQRSTUVWXYZ"
  const DIGITS := "0123456789"

  predicate Allowed(c: char) { c in LOWER || c in UPPER || c in DIGITS || c in "._-" }

  lemma LowerIff(c: char)
    ensures 'a' <= c <= 'z' <==> c in LOWER
  {
    if 'a' <= c <= 'z' { assert LOWER[c as int - 'a' as int] == c; }
  }

  lemma UpperIff(c: char)
    ensures 'A' <= c <= 'Z' <==> c in UPPER
  {
    if 'A' <= c <= 'Z' { assert UPPER[c as int - 'A' as int] == c; }
  }

  lemma KeyCharIff(c: char)
    ensures KeyChar(c) <==> Allowed(c)
  {
    LowerIff(c);
    UpperIff(c);
    if '0' <= c <= '9' { assert DIGITS[c as int - '0' as int] == c; }
    assert "._-" == ['.', '_', '-'];
  }

  /** The valid names are those of 1 to 128 characters out of the four sets. */
  lemma ValidNameIff(key: string)
    ensures ValidateKeyName(key).None? <==> 1 <= |key| <= 128 && forall i :: 0 <= i < |key| ==> Allowed(key[i])
  {
    forall i | 0 <= i < |key| ensures KeyChar(key[i]) <==> Allowed(key[i]) { KeyCharIff(key[i]); }
  }

  /** Had every write used a valid key name, every row's version entries would form its lives. */
  lemma ValidKeysFormLives(ops: seq<StoreRuns.Op>, k: RowKey)
    requires ValidateKeyName(k.key).None?
    requires forall i :: 0 <= i < |ops| && (ops[i].Create? || ops[i].Update?) ==> ValidateKeyName(ops[i].k.key).None?
    ensures StoreRuns.Lived(StoreRuns.Run(ops), StoreRuns.Lives(ops, k), k)
  {
    StoreRuns.ColonFreeKeysHaveNoTwin(ops, k);
    StoreRuns.VersionsFormLivesIff(ops, k);
  }

  // Resolution.

  type Parents = map<string, Option<string>>

  /** One activation of `resolveConfig`: it answers, or asks the parent. */
  datatype Look = Answer(row: Option<Row>) | Ask(parent: string)

  function LookAt(parents: Parents, t: Tables, ns: string, key: string): Look {
    match Lookup(t, RowKey(ns, key), false)
    case Some(row) => Answer(Some(row))
    case None =>
      if ns !in parents || parents[ns].None? then Answer(None) else Ask(parents[ns].value)
  }

  /** The recursion cut off after `fuel` activations; `None` when it is still running then. */
  function Resolve(parents: Parents, t: Tables, ns: string, key: string, fuel: nat): Option<Option<Row>>
    decreases fuel
  {
    if fuel == 0 then None else
      match LookAt(parents, t, ns, key)
      case Answer(row) => Some(row)
      case Ask(parent) => Resolve(parents, t, parent, key, fuel - 1)
  }

  ghost predicate Returns(parents: Parents, t: Tables, ns: string, key: string) {
    exists fuel :: Resolve(parents, t, ns, key, fuel).Some?
  }

  /**
   * `path` climbs parent links and finds no live entry before its end. There it finds `row`, or, when
   * `row` is none, neither a live entry nor a further parent.
   */
  predicate Climbs(parents: Parents, t: Tables, key: string, path: seq<string>, row: Option<Row>) {
    && path != []
    && (forall i :: 0 <= i < |path| - 1 ==>
          && Lookup(t, RowKey(path[i], key), false).None?
          && path[i] in parents && parents[path[i]] == Some(path[i + 1]))
    && var last := path[|path| - 1];
       && Lookup(t, RowKey(last, key), false) == row
       && (row.None? ==> last !in parents || parents[last].None?)
  }

  lemma ClimbLonger(parents: Parents, t: Tables, key: string, ns: string, path: seq<string>, row: Option<Row>)
    requires Climbs(parents, t, key, path, row) && LookAt(parents, t, ns, key) == Ask(path[0])
    ensures Climbs(parents, t, key, [ns] + path, row)
  {
    var longer := [ns] + path;
    forall i | 0 <= i < |longer| - 1
      ensures Lookup(t, RowKey(longer[i], key), false).None? && longer[i] in parents
              && parents[longer[i]] == Some(longer[i + 1])
    {
      if i > 0 { assert longer[i] == path[i - 1] && longer[i + 1] == path[i]; }
    }
  }

  lemma ClimbShorter(parents: Parents, t: Tables, key: string, path: seq<string>, row: Option<Row>)
    requires Climbs(parents, t, key, path, row)
    ensures LookAt(parents, t, path[0], key).Answer? ==> |path| == 1 && LookAt(parents, t, path[0], key) == Answer(row)
    ensures LookAt(parents, t, path[0], key).Ask? ==>
              |path| > 1 && path[1] == LookAt(parents, t, path[0], key).parent
              && Climbs(parents, t, key, path[1..], row)
  {
    if |path| > 1 {
      assert parents[path[0]] == Some(path[1]);
      var rest := path[1..];
      forall i | 0 <= i < |rest| - 1
        ensures Lookup(t, RowKey(rest[i], key), false).None? && rest[i] in parents
                && parents[rest[i]] == Some(rest[i + 1])
      {
        assert rest[i] == path[i + 1] && rest[i + 1] == path[i + 2];
      }
    }
  }

  /** `path` climbs from `ns` through at most `fuel` namespaces. */
  predicate ClimbsWithin(
    parents: Parents, t: Tables, ns: string, key: string, fuel: nat, path: seq<string>, row: Option<Row>)
  {
    Climbs(parents, t, key, path, row) && path[0] == ns && |path| <= fuel
  }

  /**
   * Resolution yields `row` within `fuel` activations exactly when the parent chain reaches, within
   * that many namespaces, the nearest one with a live entry, which is `row`, or ends without one.
   */
  lemma {:induction false} ResolvesToNearest(
    parents: Parents, t: Tables, ns: string, key: string, fuel: nat, row: Option<Row>)
    ensures Resolve(parents, t, ns, key, fuel) == Some(row) <==>
            exists path :: ClimbsWithin(parents, t, ns, key, fuel, path, row)
    decreases fuel
  {
    forall path | ClimbsWithin(parents, t, ns, key, fuel, path, row)
      ensures Resolve(parents, t, ns, key, fuel) == Some(row)
    {
      ClimbShorter(parents, t, key, path, row);
      if LookAt(parents, t, ns, key).Ask? {
        ResolvesToNearest(parents, t, path[1], key, fuel - 1, row);
        assert ClimbsWithin(parents, t, path[1], key, fuel - 1, path[1..], row);
      }
    }
    if Resolve(parents, t, ns, key, fuel) == Some(row) {
      match LookAt(parents, t, ns, key)
      case Answer(_) => assert ClimbsWithin(parents, t, ns, key, fuel, [ns], row);
      case Ask(parent) =>
        ResolvesToNearest(parents, t, parent, key, fuel - 1, row);
        var path :| ClimbsWithin(parents, t, parent, key, fuel - 1, path, row);
        ClimbLonger(parents, t, key, ns, path, row);
        assert ClimbsWithin(parents, t, ns, key, fuel, [ns] + path, row);
    }
  }

  /** Whether resolution stops, decided by watching for a namespace seen before. */
  predicate Stops(parents: Parents, t: Tables, ns: string, key: string, seen: set<string>)
    requires ns !in seen
    decreases |parents.Keys - seen|
  {
    match LookAt(parents, t, ns, key)
    case Answer(_) => true
    case Ask(parent) =>
      var seen' := seen + {ns};
      assert parents.Keys - seen' == (parents.Keys - seen) - {ns};
      parent !in seen' && Stops(parents, t, parent, key, seen')
  }

  /** Every namespace of the set asks another one of the set. */
  ghost predicate AsksWithin(parents: Parents, t: Tables, key: string, loop: set<string>) {
    forall x :: x in loop ==> LookAt(parents, t, x, key).Ask? && LookAt(parents, t, x, key).parent in loop
  }

  lemma {:induction false} LoopNeverReturns(
    parents: Parents, t: Tables, key: string, loop: set<string>, ns: string, fuel: nat)
    requires AsksWithin(parents, t, key, loop) && ns in loop
    ensures Resolve(parents, t, ns, key, fuel).None?
    decreases fuel
  {
    if fuel > 0 {
      LoopNeverReturns(parents, t, key, loop, LookAt(parents, t, ns, key).parent, fuel - 1);
    }
  }

  lemma {:induction false} NotStoppingLoops(parents: Parents, t: Tables, ns: string, key: string, seen: set<string>)
    returns (loop: set<string>)
    requires ns !in seen && !Stops(parents, t, ns, key, seen)
    requires forall x :: x in seen ==>
               LookAt(parents, t, x, key).Ask? && LookAt(parents, t, x, key).parent in seen + {ns}
    ensures AsksWithin(parents, t, key, loop) && seen + {ns} <= loop
    decreases |parents.Keys - seen|
  {
    var parent, seen' := LookAt(parents, t, ns, key).parent, seen + {ns};
    if parent in seen' {
      loop := seen';
    } else {
      assert parents.Keys - seen' == (parents.Keys - seen) - {ns};
      loop := NotStoppingLoops(parents, t, parent, key, seen');
    }
  }

  lemma {:induction false} StoppingReturns(parents: Parents, t: Tables, ns: string, key: string, seen: set<string>)
    requires ns !in seen && Stops(parents, t, ns, key, seen)
    ensures Resolve(parents, t, ns, key, |parents.Keys - seen| + 1).Some?
    decreases |parents.Keys - seen|
  {
    match LookAt(parents, t, ns, key)
    case Answer(_) =>
    case Ask(parent) =>
      assert parents.Keys - (seen + {ns}) == (parents.Keys - seen) - {ns};
      StoppingReturns(parents, t, parent, key, seen + {ns});
  }

  /**
   * Resolution returns exactly when watching for repeats says so, and it then needs at most one
   * activation more than there are namespaces.
   */
  lemma ReturnsIffStops(parents: Parents, t: Tables, ns: string, key: string)
    ensures Returns(parents, t, ns, key) <==> Stops(parents, t, ns, key, {})
    ensures Returns(parents, t, ns, key) <==> Resolve(parents, t, ns, key, |parents| + 1).Some?
  {
    assert parents.Keys - {} == parents.Keys;
    if Stops(parents, t, ns, key, {}) {
      StoppingReturns(parents, t, ns, key, {});
    } else {
      var loop := NotStoppingLoops(parents, t, ns, key, {});
      forall fuel: nat ensures Resolve(parents, t, ns, key, fuel).None? {
        LoopNeverReturns(parents, t, key, loop, ns, fuel);
      }
    }
  }

  /** Some nonempty set of namespaces is closed under taking parents. */
  ghost predicate HasCycle(parents: Parents) {
    exists loop: set<string> :: loop != {} && ClosedUnderParent(parents, loop)
  }

  ghost predicate ClosedUnderParent(parents: Parents, loop: set<string>) {
    forall x :: x in loop ==> x in parents && parents[x].Some? && parents[x].value in loop
  }

  lemma NoCycleReturns(parents: Parents, t: Tables, ns: string, key: string)
    requires !HasCycle(parents)
    ensures Returns(parents, t, ns, key)
  {
    ReturnsIffStops(parents, t, ns, key);
    if !Stops(parents, t, ns, key, {}) {
      var loop := NotStoppingLoops(parents, t, ns, key, {});
      assert ns in loop && ClosedUnderParent(parents, loop);
    }
  }

  lemma CycleNeverReturns(parents: Parents, loop: set<string>, ns: string)
    requires ClosedUnderParent(parents, loop) && ns in loop
    ensures !Returns(parents, EMPTY, ns, "")
  {
    forall fuel: nat ensures Resolve(parents, EMPTY, ns, "", fuel).None? {
      LoopNeverReturns(parents, EMPTY, "", loop, ns, fuel);
    }
  }

  /** Resolution returns for all configs, namespaces and keys exactly when the parent graph has no cycle. */
  lemma ReturnsAlwaysIffNoCycle(parents: Parents)
    ensures (forall t, ns, key :: Returns(parents, t, ns, key)) <==> !HasCycle(parents)
  {
    if HasCycle(parents) {
      var loop: set<string> :| loop != {} && ClosedUnderParent(parents, loop);
      var ns :| ns in loop;
      CycleNeverReturns(parents, loop, ns);
    } else {
      forall t, ns, key ensures Returns(parents, t, ns, key) { NoCycleReturns(parents, t, ns, key); }
    }
  }

  /** A namespace that is its own parent and has no live entry for the key never returns, for any fuel. */
  lemma SelfParentNeverReturns(parents: Parents, t: Tables, ns: string, key: string, fuel: nat)
    requires ns in parents && parents[ns] == Some(ns)
    ensures Resolve(parents, t, ns, key, fuel).None? <==> fuel == 0 || Lookup(t, RowKey(ns, key), false).None?
  {
    if Lookup(t, RowKey(ns, key), false).None? {
      assert AsksWithin(parents, t, key, {ns});
      LoopNeverReturns(parents, t, key, {ns}, ns, fuel);
    }
  }

  // Runs of the namespace manager.

  datatype Registry = Registry(apps: set<string>, parents: Parents)

  datatype NsOp =
    | RegisterApp(app: string)
    | CreateNs(app: string, env: string, cluster: string, name: string, parent: Option<string>)
    | DeleteNs(id: string)

  function IdOf(op: NsOp): string
    requires op.CreateNs?
  {
    MakeNamespaceId(op.app, op.env, op.cluster, op.name)
  }

  function NsStep(r: Registry, op: NsOp): (Registry, bool) {
    match op
    case RegisterApp(app) => if app in r.apps then (r, false) else (r.(apps := r.apps + {app}), true)
    case CreateNs(app, _, _, _, parent) =>
      if app !in r.apps || IdOf(op) in r.parents then (r, false)
      else (r.(parents := r.parents[IdOf(op) := parent]), true)
    case DeleteNs(id) => (r.(parents := r.parents - {id}), true)
  }

  class NamespaceManager {
    var apps: set<string>
    var parents: Parents

    ghost function View(): Registry
      reads this
    {
      Registry(apps, parents)
    }

    constructor ()
      ensures View() == Registry({}, map[])
    {
      apps, parents := {}, map[];
    }

    method RegisterApplication(app: string) returns (ok: bool)
      modifies this`apps
      ensures (View(), ok) == NsStep(old(View()), RegisterApp(app))
    {
      if app in apps {
        return false;
      }
      apps := apps + {app};
      return true;
    }

    method CreateNamespace(app: string, env: string, cluster: string, name: string, parent: Option<string>)
      returns (ok: bool)
      modifies this`parents
      ensures (View(), ok) == NsStep(old(View()), CreateNs(app, env, cluster, name, parent))
    {
      if app !in apps {
        return false;
      }
      var id := MakeNamespaceId(app, env, cluster, name);
      if id in parents {
        return false;
      }
      parents := parents[id := parent];
      return true;
    }

    method DeleteNamespace(id: string) returns (ok: bool)
      modifies this`parents
      ensures (View(), ok) == NsStep(old(View()), DeleteNs(id))
    {
      parents := parents - {id};
      return true;
    }
  }

  function NsRun(ops: seq<NsOp>): Registry {
    if ops == [] then Registry({}, map[]) else NsStep(NsRun(ops[..|ops| - 1]), ops[|ops| - 1]).0
  }

  /** The application was registered. */
  ghost predicate Registered(ops: seq<NsOp>, app: string) {
    exists i :: 0 <= i < |ops| && ops[i] == RegisterApp(app)
  }

  /** What the run alone says of one namespace: nothing, or its parent, if any. */
  ghost function ParentIn(ops: seq<NsOp>, id: string): Option<Option<string>> {
    if ops == [] then None else
      var m := |ops| - 1;
      var before := ParentIn(ops[..m], id);
      match ops[m]
      case RegisterApp(_) => before
      case CreateNs(app, env, cluster, name, parent) =>
        if before.None? && id == app + "/" + env + "/" + cluster + "/" + name && Registered(ops[..m], app)
        then Some(parent) else before
      case DeleteNs(gone) => if gone == id then None else before
  }

  lemma RegisteredSnoc(ops: seq<NsOp>, app: string)
    requires ops != []
    ensures Registered(ops, app) <==> Registered(ops[..|ops| - 1], app) || ops[|ops| - 1] == RegisterApp(app)
  {
    var m := |ops| - 1;
    if Registered(ops[..m], app) {
      var i :| 0 <= i < m && ops[..m][i] == RegisterApp(app);
      assert ops[i] == RegisterApp(app);
    }
    if Registered(ops, app) && ops[m] != RegisterApp(app) {
      var i :| 0 <= i < |ops| && ops[i] == RegisterApp(app);
      assert ops[..m][i] == RegisterApp(app);
    }
  }

  lemma {:induction false} AppsAreRegistered(ops: seq<NsOp>, app: string)
    ensures app in NsRun(ops).apps <==> Registered(ops, app)
  {
    if ops != [] {
      AppsAreRegistered(ops[..|ops| - 1], app);
      RegisteredSnoc(ops, app);
    }
  }

  /**
   * In every run the applications are those registered, and a namespace exists, with the parent its
   * creation named, from a creation under a registered application until its deletion.
   */
  lemma {:induction false} RegistryIsFold(ops: seq<NsOp>, id: string)
    ensures ParentIn(ops, id) == if id in NsRun(ops).parents then Some(NsRun(ops).parents[id]) else None
  {
    if ops != [] {
      var m := |ops| - 1;
      RegistryIsFold(ops[..m], id);
      if ops[m].CreateNs? { AppsAreRegistered(ops[..m], ops[m].app); }
    }
  }

  /** What the calls report: whether the application is new, and whether the namespace could be created. */
  lemma RegistryReports(ops: seq<NsOp>, op: NsOp)
    ensures op.RegisterApp? ==> (NsStep(NsRun(ops), op).1 <==> !Registered(ops, op.app))
    ensures op.CreateNs? ==>
              (NsStep(NsRun(ops), op).1 <==>
               Registered(ops, op.app)
               && ParentIn(ops, op.app + "/" + op.env + "/" + op.cluster + "/" + op.name).None?)
    ensures op.DeleteNs? ==> NsStep(NsRun(ops), op).1
  {
    match op
    case RegisterApp(app) => AppsAreRegistered(ops, app);
    case CreateNs(app, env, cluster, name, _) =>
      AppsAreRegistered(ops, app);
      RegistryIsFold(ops, app + "/" + env + "/" + cluster + "/" + name);
    case DeleteNs(_) =>
  }

  /** When each id was last created, by position in the run; ids stay after deletion. */
  function Births(ops: seq<NsOp>): map<string, nat> {
    if ops == [] then map[] else
      var m := |ops| - 1;
      var births := Births(ops[..m]);
      if ops[m].CreateNs? && NsStep(NsRun(ops[..m]), ops[m]).1 then births[IdOf(ops[m]) := m] else births
  }

  /** Operation `i`, if it creates, names an existing parent or none and an id never created before. */
  predicate Careful(ops: seq<NsOp>, i: nat)
    requires i < |ops|
  {
    ops[i].CreateNs? ==>
      && (ops[i].parent.Some? ==> ops[i].parent.value in NsRun(ops[..i]).parents)
      && (IdOf(ops[i]) in Births(ops[..i]) ==> IdOf(ops[i]) in NsRun(ops[..i]).parents)
  }

  /** Parents were born before their children. */
  ghost predicate Ordered(parents: Parents, births: map<string, nat>) {
    forall id :: id in parents ==>
      && id in births
      && (parents[id].Some? ==> parents[id].value in births && births[parents[id].value] < births[id])
  }

  lemma {:induction false} CarefulRunsAreOrdered(ops: seq<NsOp>)
    requires forall i :: 0 <= i < |ops| ==> Careful(ops, i)
    ensures Ordered(NsRun(ops).parents, Births(ops))
    ensures forall id :: id in Births(ops) ==> Births(ops)[id] < |ops|
  {
    if ops != [] {
      var m := |ops| - 1;
      forall i | 0 <= i < m ensures Careful(ops[..m], i) {
        assert Careful(ops, i) && ops[..m][..i] == ops[..i];
      }
      CarefulRunsAreOrdered(ops[..m]);
      assert Careful(ops, m);
      OrderedStep(NsRun(ops[..m]), Births(ops[..m]), ops[m], m);
    }
  }

  lemma OrderedStep(r: Registry, births: map<string, nat>, op: NsOp, now: nat)
    requires Ordered(r.parents, births) && forall id :: id in births ==> births[id] < now
    requires op.CreateNs? && op.parent.Some? ==> op.parent.value in r.parents
    requires op.CreateNs? && IdOf(op) in births ==> IdOf(op) in r.parents
    ensures var (r', ok) := NsStep(r, op);
            Ordered(r'.parents, if op.CreateNs? && ok then births[IdOf(op) := now] else births)
  {
    var (r', ok) := NsStep(r, op);
    if op.CreateNs? && ok {
      var births' := births[IdOf(op) := now];
      forall id | id in r'.parents
        ensures id in births'
        ensures r'.parents[id].Some? ==>
                  r'.parents[id].value in births' && births'[r'.parents[id].value] < births'[id]
      {
        if id != IdOf(op) { assert id in r.parents; }
      }
    }
  }

  lemma {:induction false} OrderedReturns(
    parents: Parents, births: map<string, nat>, t: Tables, ns: string, key: string, n: nat)
    requires Ordered(parents, births)
    requires ns in births ==> births[ns] <= n
    ensures Resolve(parents, t, ns, key, n + 2).Some?
    decreases n
  {
    match LookAt(parents, t, ns, key)
    case Answer(_) =>
    case Ask(parent) =>
      assert births[parent] < births[ns];
      OrderedReturns(parents, births, t, parent, key, n - 1);
  }

  /**
   * In every run in which each creation names an existing parent or none and no deleted id is
   * reused, the parent graph has no cycle, so resolution returns for every key and any configs.
   */
  lemma CarefulRunsHaveNoCycle(ops: seq<NsOp>)
    requires forall i :: 0 <= i < |ops| ==> Careful(ops, i)
    ensures !HasCycle(NsRun(ops).parents)
    ensures forall t, ns, key :: Returns(NsRun(ops).parents, t, ns, key)
  {
    var parents, births := NsRun(ops).parents, Births(ops);
    CarefulRunsAreOrdered(ops);
    forall t, ns, key ensures Returns(parents, t, ns, key) {
      OrderedReturns(parents, births, t, ns, key, if ns in births then births[ns] else 0);
    }
    ReturnsAlwaysIffNoCycle(parents);
  }

  /** Reusing a deleted id closes a cycle although every creation named an existing parent. */
  lemma ReusedIdMakesCycle(r: Registry, a: NsOp, b: NsOp)
    requires a.CreateNs? && b.CreateNs? && IdOf(a) != IdOf(b) && a.app in r.apps && b.app in r.apps
    requires IdOf(a) !in r.parents && IdOf(b) !in r.parents && b.parent == Some(IdOf(a))
    ensures var r1 := NsStep(NsStep(r, a).0, b).0;
            var r2 := NsStep(r1, DeleteNs(IdOf(a))).0;
            var again := a.(parent := Some(IdOf(b)));
            IdOf(a) in r1.parents && IdOf(b) in r2.parents && HasCycle(NsStep(r2, again).0.parents)
  {
    var r1 := NsStep(NsStep(r, a).0, b).0;
    var r2 := NsStep(r1, DeleteNs(IdOf(a))).0;
    var again := a.(parent := Some(IdOf(b)));
    assert IdOf(again) == IdOf(a);
    assert ClosedUnderParent(NsStep(r2, again).0.parents, {IdOf(a), IdOf(b)});
  }

  // The guard a creation would need.

  /** `path` climbs existing parent links from its first to its last entry. */
  predicate IsChain(parents: Parents, path: seq<string>) {
    && path != []
    && forall i :: 0 <= i < |path| - 1 ==> path[i] in parents && parents[path[i]] == Some(path[i + 1])
  }

  ghost predicate Reaches(parents: Parents, from: string, to: string) {
    exists path :: IsChain(parents, path) && path[0] == from && path[|path| - 1] == to
  }

  lemma ChainLonger(parents: Parents, x: string, path: seq<string>)
    requires IsChain(parents, path) && x in parents && parents[x] == Some(path[0])
    ensures IsChain(parents, [x] + path)
  {
    var longer := [x] + path;
    forall i | 0 <= i < |longer| - 1 ensures longer[i] in parents && parents[longer[i]] == Some(longer[i + 1]) {
      if i > 0 { assert longer[i] == path[i - 1] && longer[i + 1] == path[i]; }
    }
  }

  /** Inside a loop of the new graph every climb through the old one comes to the new id. */
  lemma {:induction false} ClimbMeetsId(
    parents: Parents, id: string, parent: string, loop: set<string>, x: string, seen: set<string>)
    requires !HasCycle(parents) && id !in parents
    requires ClosedUnderParent(parents[id := Some(parent)], loop) && x in loop && x !in seen
    requires forall y :: y in seen ==> y in parents && parents[y].Some? && parents[y].value in seen + {x}
    ensures Reaches(parents, x, id)
    decreases |parents.Keys - seen|
  {
    if x == id {
      assert IsChain(parents, [x]);
    } else {
      var next, seen' := parents[x].value, seen + {x};
      assert next !in seen' by { SeenIsNoLoop(parents, x, seen); }
      assert parents.Keys - seen' == (parents.Keys - seen) - {x};
      ClimbMeetsId(parents, id, parent, loop, next, seen');
      ReachesFromChild(parents, x, next, id);
    }
  }

  lemma SeenIsNoLoop(parents: Parents, x: string, seen: set<string>)
    requires !HasCycle(parents) && x in parents && parents[x].Some?
    requires forall y :: y in seen ==> y in parents && parents[y].Some? && parents[y].value in seen + {x}
    ensures parents[x].value !in seen + {x}
  {
    if parents[x].value in seen + {x} {
      assert x in seen + {x} && ClosedUnderParent(parents, seen + {x});
    }
  }

  lemma ReachesFromChild(parents: Parents, x: string, next: string, id: string)
    requires x in parents && parents[x] == Some(next) && Reaches(parents, next, id)
    ensures Reaches(parents, x, id)
  {
    var path :| IsChain(parents, path) && path[0] == next && path[|path| - 1] == id;
    ChainLonger(parents, x, path);
    assert ([x] + path)[0] == x && ([x] + path)[|[x] + path| - 1] == id;
  }

  lemma ChainCloses(parents: Parents, id: string, parent: string, path: seq<string>)
    requires id !in parents && IsChain(parents, path) && path[0] == parent && path[|path| - 1] == id
    ensures HasCycle(parents[id := Some(parent)])
  {
    var after := parents[id := Some(parent)];
    var loop := set x | x in path;
    forall x | x in loop ensures x in after && after[x].Some? && after[x].value in loop {
      var i :| 0 <= i < |path| && path[i] == x;
      if x == id {
        assert path[0] in path;
      } else {
        assert i < |path| - 1 && path[i + 1] in path;
      }
    }
    assert ClosedUnderParent(after, loop) && parent in loop;
  }

  /**
   * The exact guard: from a graph without cycles, creating a namespace under a parent closes a cycle
   * if and only if the chain from that parent already reaches the new id.
   */
  lemma CreationClosesCycleIff(parents: Parents, id: string, parent: string)
    requires !HasCycle(parents) && id !in parents
    ensures HasCycle(parents[id := Some(parent)]) <==> Reaches(parents, parent, id)
  {
    var after := parents[id := Some(parent)];
    if HasCycle(after) {
      var loop: set<string> :| loop != {} && ClosedUnderParent(after, loop);
      if id !in loop {
        assert ClosedUnderParent(parents, loop);
        assert false;
      }
      ClimbMeetsId(parents, id, parent, loop, parent, {});
    }
    if Reaches(parents, parent, id) {
      var path :| IsChain(parents, path) && path[0] == parent && path[|path| - 1] == id;
      ChainCloses(parents, id, parent, path);
    }
  }

  /** A creation without a parent never closes one. */
  lemma RootClosesNothing(parents: Parents, id: string)
    requires !HasCycle(parents) && id !in parents
    ensures !HasCycle(parents[id := None])
  {
    var after := parents[id := None];
    if HasCycle(after) {
      var loop: set<string> :| loop != {} && ClosedUnderParent(after, loop);
      assert ClosedUnderParent(parents, loop);
    }
  }
}
