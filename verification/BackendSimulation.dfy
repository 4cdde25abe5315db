/** The SQLite and MySQL stores run side by side. */
module BackendSimulation {
  import opened Seqs
  import opened ConfigTables
  import opened MysqlStore
  import StoreRuns

  /** A store operation at MySQL clock time `clock`, or a whole rollback. */
  datatype Op = Plain(op: StoreRuns.Op, clock: string) | Rollback(k: RowKey, n: int, operator: string, ts: string)

  /** The entry a version query yields when the database returns matches in insertion order. */
  function First(versions: seq<Version>, id: string, n: int): Option<Version> {
    var found := Filter(OfConfigVersion(id, n), versions);
    if found == [] then None else Some(found[0])
  }

  function RolledBack(t: Tables, k: RowKey, n: int, operator: string, ts: string): (Tables, bool) {
    match First(t.versions, MakeConfigId(k), n)
    case None => (t, false)
    case Some(v) => Updated(t, k, v.value, operator, true, ts)
  }

  function SqliteStep(t: Tables, op: Op): (Tables, bool) {
    match op
    case Plain(op, _) => StoreRuns.Step(t, op)
    case Rollback(k, n, operator, ts) => RolledBack(t, k, n, operator, ts)
  }

  function MysqlStep(t: Tables, namespaces: set<string>, op: Op): (Tables, bool) {
    match op
    case Rollback(k, n, operator, ts) => RolledBack(t, k, n, operator, ts)
    case Plain(plain, clock) =>
      match plain
      case Create(k, value, operator, ts) => (MysqlCreated(t, namespaces, k, value, operator, ts), true)
      case Update(k, value, operator, draft, ts) => Updated(t, k, value, operator, draft, ts)
      case Delete(k, operator, draft, ts) => (Deleted(t, k, operator, draft, ts), true)
      case Publish(ns, note, operator, ts, fails) =>
        if fails then (t, false)
        else (MysqlPublished(t, ns, note, operator, ts, true, ns in namespaces), true)
      case AddRelease(r) => (MysqlReleaseCreated(t, namespaces, r, clock), true)
      case Retire(id) => (Retired(t, id), true)
  }

  function SqliteRun(t: Tables, ops: seq<Op>): Tables {
    if ops == [] then t else SqliteStep(SqliteRun(t, ops[..|ops| - 1]), ops[|ops| - 1]).0
  }

  function MysqlRun(t: Tables, namespaces: set<string>, ops: seq<Op>): Tables {
    if ops == [] then t else MysqlStep(MysqlRun(t, namespaces, ops[..|ops| - 1]), namespaces, ops[|ops| - 1]).0
  }

  /** Whatever MySQL's foreign keys would refuse and SQLite store names an existing namespace. */
  predicate NamespacePresent(s: Tables, op: Op, namespaces: set<string>) {
    op.Plain? ==>
      match op.op
      case Create(k, _, _, _) => k in s.configs || k.ns in namespaces
      case Publish(ns, _, _, _, fails) => fails || ns in namespaces
      case AddRelease(r) => r.ns in namespaces
      case _ => true
  }

  /** So does every operation of the run, when its turn comes. */
  ghost predicate NamespacesPresent(s: Tables, ops: seq<Op>, namespaces: set<string>) {
    forall i :: 0 <= i < |ops| ==> NamespacePresent(SqliteRun(s, ops[..i]), ops[i], namespaces)
  }

  lemma PrefixPresent(s: Tables, ops: seq<Op>, namespaces: set<string>, n: nat)
    requires NamespacesPresent(s, ops, namespaces) && n <= |ops|
    ensures NamespacesPresent(s, ops[..n], namespaces)
  {
    forall i | 0 <= i < n ensures NamespacePresent(SqliteRun(s, ops[..n][..i]), ops[..n][i], namespaces) {
      assert ops[..n][..i] == ops[..i];
    }
  }

  // The simulation relation.

  /** Releases agree in everything but the timestamp. */
  predicate SameReleases(a: seq<Release>, b: seq<Release>) {
    |a| == |b| && forall i :: 0 <= i < |a| ==> a[i] == b[i].(createdAt := a[i].createdAt)
  }

  ghost predicate SameFirst(a: seq<Version>, b: seq<Version>) {
    forall id, n :: First(a, id, n) == First(b, id, n)
  }

  /** Every existing row has an entry for its first version. */
  ghost predicate Opened(t: Tables) {
    forall k :: k in t.configs ==> First(t.versions, MakeConfigId(k), 1).Some?
  }

  /** Equal configs, and releases equal up to timestamps. */
  predicate Alike(s: Tables, m: Tables) { s.configs == m.configs && SameReleases(s.releases, m.releases) }

  /** What rollbacks need besides. */
  ghost predicate Related(s: Tables, m: Tables) {
    && Alike(s, m)
    && SameFirst(s.versions, m.versions) && Opened(s) && StoreRuns.StatusesKnown(s)
  }

  lemma FirstSnoc(vs: seq<Version>, v: Version, id: string, n: int)
    ensures First(vs + [v], id, n)
            == if First(vs, id, n).Some? then First(vs, id, n)
               else if v.configId == id && v.version == n then Some(v) else None
  {
    FilterSnoc(OfConfigVersion(id, n), vs, v);
  }

  lemma SameFirstBoth(a: seq<Version>, b: seq<Version>, v: Version)
    requires SameFirst(a, b)
    ensures SameFirst(a + [v], b + [v])
  {
    forall id, n ensures First(a + [v], id, n) == First(b + [v], id, n) {
      FirstSnoc(a, v, id, n);
      FirstSnoc(b, v, id, n);
      assert First(a, id, n) == First(b, id, n);
    }
  }

  /** A repeated entry changes no first match. */
  lemma SameFirstRepeat(a: seq<Version>, b: seq<Version>, v: Version)
    requires SameFirst(a, b) && First(a, v.configId, v.version).Some?
    ensures SameFirst(a, b + [v])
  {
    forall id, n ensures First(a, id, n) == First(b + [v], id, n) {
      FirstSnoc(b, v, id, n);
      assert First(a, id, n) == First(b, id, n);
    }
  }

  lemma OpenedGrows(t: Tables, t': Tables, v: Version)
    requires Opened(t) && t'.versions == t.versions + [v]
    requires forall k :: k in t'.configs ==> k in t.configs || (v.configId == MakeConfigId(k) && v.version == 1)
    ensures Opened(t')
  {
    forall k | k in t'.configs ensures First(t'.versions, MakeConfigId(k), 1).Some? {
      FirstSnoc(t.versions, v, MakeConfigId(k), 1);
    }
  }

  // Next release versions.

  function MaxFrom(versions: seq<int>): int
    requires versions != []
  {
    var last := versions[|versions| - 1];
    if |versions| == 1 then last else
      var m := MaxFrom(versions[..|versions| - 1]);
      if m < last then last else m
  }

  lemma {:induction false} MaxOfVersions(rs: seq<Release>)
    requires rs != []
    ensures MaxOf(rs) == MaxFrom(ReleaseVersions(rs))
  {
    if |rs| > 1 {
      var m := |rs| - 1;
      MaxOfVersions(rs[..m]);
      assert ReleaseVersions(rs)[..m] == ReleaseVersions(rs[..m]);
    }
  }

  lemma {:induction false} SameVersions(a: seq<Release>, b: seq<Release>, ns: string)
    requires SameReleases(a, b)
    ensures ReleaseVersions(Filter(InNs(ns), a)) == ReleaseVersions(Filter(InNs(ns), b))
  {
    if a != [] {
      var m := |a| - 1;
      SameVersions(a[..m], b[..m], ns);
      var fa, fb := Filter(InNs(ns), a[..m]), Filter(InNs(ns), b[..m]);
      assert a[m] == b[m].(createdAt := a[m].createdAt);
      assert ReleaseVersions(fa + [a[m]]) == ReleaseVersions(fa) + [a[m].version];
      assert ReleaseVersions(fb + [b[m]]) == ReleaseVersions(fb) + [b[m].version];
    }
  }

  /** Both backends give the next release of a namespace the same version. */
  lemma SameNextVersion(a: seq<Release>, b: seq<Release>, ns: string)
    requires SameReleases(a, b)
    ensures MaxVersion(a, ns) + 1 == NextVersion(b, ns)
  {
    SameVersions(a, b, ns);
    var fa, fb := Filter(InNs(ns), a), Filter(InNs(ns), b);
    if fa != [] {
      assert |ReleaseVersions(fa)| == |ReleaseVersions(fb)|;
      MaxOfVersions(fa);
      MaxOfVersions(fb);
    }
  }

  // One step.

  lemma CreateRelated(
    s: Tables, m: Tables, namespaces: set<string>, k: RowKey, value: string, operator: string, ts: string)
    requires Related(s, m) && (k in s.configs || k.ns in namespaces)
    ensures Related(Created(s, k, value, operator, ts).0, MysqlCreated(m, namespaces, k, value, operator, ts))
    ensures Created(s, k, value, operator, ts).1 <==> k !in s.configs
  {
    var v := VersionEntry(k, 1, value, "create", operator, ts);
    if k in s.configs {
      SameFirstRepeat(s.versions, m.versions, v);
    } else {
      SameFirstBoth(s.versions, m.versions, v);
      OpenedGrows(s, Created(s, k, value, operator, ts).0, v);
    }
  }

  lemma UpdateRelated(s: Tables, m: Tables, k: RowKey, value: string, operator: string, draft: bool, ts: string)
    requires Related(s, m)
    ensures Related(Updated(s, k, value, operator, draft, ts).0, Updated(m, k, value, operator, draft, ts).0)
    ensures Updated(s, k, value, operator, draft, ts).1 == Updated(m, k, value, operator, draft, ts).1
  {
    if k in s.configs {
      var v := VersionEntry(k, s.configs[k].version + 1, value, "update", operator, ts);
      SameFirstBoth(s.versions, m.versions, v);
      OpenedGrows(s, Updated(s, k, value, operator, draft, ts).0, v);
    }
  }

  lemma PublishRelated(s: Tables, m: Tables, ns: string, note: string, operator: string, ts: string)
    requires Related(s, m)
    ensures Related(Published(s, ns, note, operator, ts), MysqlPublished(m, ns, note, operator, ts, true, true))
  {
    SameNextVersion(s.releases, m.releases, ns);
    var s' := Published(s, ns, note, operator, ts);
    forall k | k in s'.configs ensures First(s'.versions, MakeConfigId(k), 1).Some? { assert k in s.configs; }
  }

  /** The two backends return different flags exactly for the creation of an existing row. */
  predicate FlagsDiffer(s: Tables, op: Op) { op.Plain? && op.op.Create? && op.op.k in s.configs }

  lemma StepRelated(s: Tables, m: Tables, namespaces: set<string>, op: Op)
    requires Related(s, m) && NamespacePresent(s, op, namespaces)
    ensures Related(SqliteStep(s, op).0, MysqlStep(m, namespaces, op).0)
    ensures SqliteStep(s, op).1 != MysqlStep(m, namespaces, op).1 <==> FlagsDiffer(s, op)
  {
    match op
    case Rollback(k, n, operator, ts) =>
      assert First(s.versions, MakeConfigId(k), n) == First(m.versions, MakeConfigId(k), n);
      match First(s.versions, MakeConfigId(k), n) {
        case Some(v) => UpdateRelated(s, m, k, v.value, operator, true, ts);
        case None =>
      }
    case Plain(plain, _) =>
      match plain
      case Create(k, value, operator, ts) => CreateRelated(s, m, namespaces, k, value, operator, ts);
      case Update(k, value, operator, draft, ts) => UpdateRelated(s, m, k, value, operator, draft, ts);
      case Publish(ns, note, operator, ts, fails) => if !fails { PublishRelated(s, m, ns, note, operator, ts); }
      case _ =>
  }

  /** From alike tables the flags differ as said, and the tables stay alike exactly under the guard. */
  lemma StepAlikeIff(s: Tables, m: Tables, namespaces: set<string>, op: Op)
    requires Alike(s, m) && op.Plain?
    ensures Alike(SqliteStep(s, op).0, MysqlStep(m, namespaces, op).0) <==> NamespacePresent(s, op, namespaces)
    ensures SqliteStep(s, op).1 != MysqlStep(m, namespaces, op).1 <==> FlagsDiffer(s, op)
  {
    if op.op.Publish? {
      SameNextVersion(s.releases, m.releases, op.op.ns);
    }
  }

  /**
   * From any tables that are alike, whatever their histories, a run without rollbacks keeps them alike
   * at every point if and only if each operation meets the guard when its turn comes, in whatever
   * order version queries return their matches.
   */
  lemma BackendsAgreeWithoutRollback(s: Tables, m: Tables, namespaces: set<string>, ops: seq<Op>)
    requires Alike(s, m) && forall i :: 0 <= i < |ops| ==> ops[i].Plain?
    ensures (forall n :: 0 <= n <= |ops| ==> Alike(SqliteRun(s, ops[..n]), MysqlRun(m, namespaces, ops[..n])))
            <==> NamespacesPresent(s, ops, namespaces)
  {
    if NamespacesPresent(s, ops, namespaces) {
      forall n | 0 <= n <= |ops| ensures Alike(SqliteRun(s, ops[..n]), MysqlRun(m, namespaces, ops[..n])) {
        PrefixPresent(s, ops, namespaces, n);
        StaysAlike(s, m, namespaces, ops[..n]);
      }
    } else {
      var i :| 0 <= i < |ops| && !NamespacePresent(SqliteRun(s, ops[..i]), ops[i], namespaces);
      if Alike(SqliteRun(s, ops[..i]), MysqlRun(m, namespaces, ops[..i])) {
        StepAlikeIff(SqliteRun(s, ops[..i]), MysqlRun(m, namespaces, ops[..i]), namespaces, ops[i]);
        assert ops[..i + 1][..i] == ops[..i];
        assert !Alike(SqliteRun(s, ops[..i + 1]), MysqlRun(m, namespaces, ops[..i + 1]));
      }
    }
  }

  lemma {:induction false} StaysAlike(s: Tables, m: Tables, namespaces: set<string>, ops: seq<Op>)
    requires Alike(s, m) && NamespacesPresent(s, ops, namespaces) && forall i :: 0 <= i < |ops| ==> ops[i].Plain?
    ensures Alike(SqliteRun(s, ops), MysqlRun(m, namespaces, ops))
  {
    if ops != [] {
      var n := |ops| - 1;
      PrefixPresent(s, ops, namespaces, n);
      StaysAlike(s, m, namespaces, ops[..n]);
      StepAlikeIff(SqliteRun(s, ops[..n]), MysqlRun(m, namespaces, ops[..n]), namespaces, ops[n]);
    }
  }

  /**
   * From related tables every run of creates, updates, deletes, publishes, release operations and
   * rollbacks keeps the two configs tables equal and the releases equal up to their timestamps,
   * provided the namespaces exist and version queries return matches in insertion order.
   */
  lemma {:induction false} BackendsAgree(s: Tables, m: Tables, namespaces: set<string>, ops: seq<Op>)
    requires Related(s, m) && NamespacesPresent(s, ops, namespaces)
    ensures Related(SqliteRun(s, ops), MysqlRun(m, namespaces, ops))
  {
    if ops != [] {
      var n := |ops| - 1;
      PrefixPresent(s, ops, namespaces, n);
      BackendsAgree(s, m, namespaces, ops[..n]);
      StepRelated(SqliteRun(s, ops[..n]), MysqlRun(m, namespaces, ops[..n]), namespaces, ops[n]);
    }
  }

  /** After any such run from empty databases, every read and the next release version agree. */
  lemma ReadersAgree(namespaces: set<string>, ops: seq<Op>, k: RowKey, includeDraft: bool)
    requires NamespacesPresent(EMPTY, ops, namespaces)
    ensures var s, m := SqliteRun(EMPTY, ops), MysqlRun(EMPTY, namespaces, ops);
            && Lookup(s, k, includeDraft) == Lookup(m, k, includeDraft)
            && Listing(s, k.ns, includeDraft) == MysqlListing(m, k.ns, includeDraft)
            && MaxVersion(s.releases, k.ns) + 1 == NextVersion(m.releases, k.ns)
  {
    var s, m := SqliteRun(EMPTY, ops), MysqlRun(EMPTY, namespaces, ops);
    assert Related(EMPTY, EMPTY);
    BackendsAgree(EMPTY, EMPTY, namespaces, ops);
    SameNextVersion(s.releases, m.releases, k.ns);
    ListingsAgreeIff(s, k.ns);
    ListingOf(s, m, k.ns, includeDraft);
  }

  /** The MySQL listing looks at the configs alone, and at no status when drafts are included. */
  lemma ListingOf(s: Tables, m: Tables, ns: string, includeDraft: bool)
    requires s.configs == m.configs
    ensures MysqlListing(m, ns, includeDraft) == MysqlListing(s, ns, includeDraft)
    ensures Listing(s, ns, true) == MysqlListing(s, ns, true)
  {
  }

  /** The listings of one table agree exactly when no live listing meets a status other than draft or live. */
  lemma ListingsAgreeIff(t: Tables, ns: string)
    ensures Listing(t, ns, false) == MysqlListing(t, ns, false) <==>
            forall k :: k in t.configs && k.ns == ns ==> t.configs[k].status == "draft" || t.configs[k].status == "live"
  {
    var a, b := Listing(t, ns, false), MysqlListing(t, ns, false);
    if a == b {
      forall k | k in t.configs && k.ns == ns
        ensures t.configs[k].status == "draft" || t.configs[k].status == "live"
      {
        if t.configs[k].status != "draft" {
          assert k in a && k in b;
        }
      }
    }
  }

  /** A repeated create leaves MySQL a second version 1, so without an order a rollback may differ. */
  lemma UnorderedRollbackMayDiffer()
    ensures var k := RowKey("n", "x");
            var ops := [Plain(StoreRuns.Create(k, "1", "o", "t"), "t"), Plain(StoreRuns.Create(k, "2", "o", "t"), "t")];
            var other := VersionEntry(k, 1, "2", "create", "o", "t");
            && IsVersionOf(MysqlRun(EMPTY, {"n"}, ops), k, 1, other)
            && !IsVersionOf(SqliteRun(EMPTY, ops), k, 1, other)
  {
    var k := RowKey("n", "x");
    var ops := [Plain(StoreRuns.Create(k, "1", "o", "t"), "t"), Plain(StoreRuns.Create(k, "2", "o", "t"), "t")];
    assert ops[..1] == [ops[0]] && ops[..1][..0] == [];
    assert SqliteRun(EMPTY, ops[..1][..0]) == EMPTY && MysqlRun(EMPTY, {"n"}, ops[..1][..0]) == EMPTY;
    var s1, m1 := SqliteRun(EMPTY, ops[..1]), MysqlRun(EMPTY, {"n"}, ops[..1]);
    assert s1 == Created(EMPTY, k, "1", "o", "t").0;
    assert SqliteRun(EMPTY, ops) == s1;
    assert MysqlRun(EMPTY, {"n"}, ops).versions == m1.versions + [VersionEntry(k, 1, "2", "create", "o", "t")];
  }

  /** A release that is inserted keeps its own time on SQLite and gets the server's on MySQL. */
  lemma InsertedReleases(s: Tables, m: Tables, namespaces: set<string>, r: Release, clock: string)
    requires r.ns in namespaces
    ensures var op := Plain(StoreRuns.AddRelease(r), clock);
            && SqliteStep(s, op).0.releases == s.releases + [r.(id := |s.releases| + 1)]
            && MysqlStep(m, namespaces, op).0.releases == m.releases + [r.(id := |m.releases| + 1, createdAt := clock)]
  {
  }

  // Rollbacks and the audit trail of MySQL.

  /** The first match is a match, and there is one when any entry matches. */
  lemma FirstIsVersion(t: Tables, k: RowKey, n: int)
    ensures var found := First(t.versions, MakeConfigId(k), n);
            if found.Some? then IsVersionOf(t, k, n, found.value) else forall v :: !IsVersionOf(t, k, n, v)
  {
    var p := OfConfigVersion(MakeConfigId(k), n);
    FilterSound(p, t.versions);
    if Filter(p, t.versions) == [] {
      EmptyFilter(p, t.versions);
    } else {
      assert Filter(p, t.versions)[0] in Filter(p, t.versions);
    }
  }

  /**
   * A rollback, on either backend, succeeds if and only if the row and an entry of that version exist.
   * It is then a draft update to the value of such an entry, and otherwise changes nothing.
   */
  lemma RollbackStep(t: Tables, namespaces: set<string>, k: RowKey, n: int, operator: string, ts: string)
    ensures var op := Rollback(k, n, operator, ts);
            var (t', ok) := MysqlStep(t, namespaces, op);
            && SqliteStep(t, op) == (t', ok)
            && (ok <==> k in t.configs && exists v :: IsVersionOf(t, k, n, v))
            && (!ok ==> t' == t)
            && (ok ==> exists v :: IsVersionOf(t, k, n, v)
                                   && t' == Updated(t, k, v.value, operator, true, ts).0
                                   && k in t'.configs
                                   && t'.configs[k] == Row(v.value, t.configs[k].version + 1, "draft",
                                                           t.configs[k].createdAt, ts))
  {
    FirstIsVersion(t, k, n);
    var found := First(t.versions, MakeConfigId(k), n);
    if k in t.configs && found.Some? {
      assert IsVersionOf(t, k, n, found.value);
    }
  }

  /** The log entry of one operation on MySQL: a create is logged whether or not the row was new. */
  function MysqlOwed(t: Tables, op: Op): seq<ChangeLog> {
    match op
    case Rollback(k, n, operator, ts) =>
      var found := First(t.versions, k.ns + ":" + k.key, n);
      if k !in t.configs || found.None? then [] else
        [ChangeLog(k.ns + ":" + k.key, k, t.configs[k].version + 1, t.configs[k].value, found.value.value, "update",
                   operator, ts)]
    case Plain(plain, _) =>
      match plain
      case Create(k, value, operator, ts) => StoreRuns.Owed(StoreRuns.Absent, plain)
      case Update(k, _, _, _, _) => StoreRuns.Owed(StoreRuns.SeenOf(t, k), plain)
      case Delete(k, _, _, _) => StoreRuns.Owed(StoreRuns.SeenOf(t, k), plain)
      case _ => []
  }

  function MysqlLedger(namespaces: set<string>, ops: seq<Op>): seq<ChangeLog> {
    if ops == [] then [] else
      var m := |ops| - 1;
      MysqlLedger(namespaces, ops[..m]) + MysqlOwed(MysqlRun(EMPTY, namespaces, ops[..m]), ops[m])
  }

  /** An operation appends the log entry it owes and, unless that is a deletion, a version entry to match. */
  lemma MysqlStepOwes(t: Tables, namespaces: set<string>, op: Op)
    ensures var t', owed := MysqlStep(t, namespaces, op).0, MysqlOwed(t, op);
            && |owed| <= 1 && t'.logs == t.logs + owed
            && (owed != [] && owed[0].operation != "delete" ==>
                  var l := owed[0];
                  t'.versions
                  == t.versions + [Version(l.version, l.configId, l.newValue, l.operation, l.operator, l.createdAt)])
            && (owed == [] || owed[0].operation == "delete" ==> t'.versions == t.versions)
  {
  }

  lemma MysqlStepMatched(t: Tables, namespaces: set<string>, op: Op)
    requires StoreRuns.Matched(StoreRuns.Changes(t), t.versions)
    ensures var t' := MysqlStep(t, namespaces, op).0; StoreRuns.Matched(StoreRuns.Changes(t'), t'.versions)
  {
    var t', owed := MysqlStep(t, namespaces, op).0, MysqlOwed(t, op);
    MysqlStepOwes(t, namespaces, op);
    if owed != [] { StoreRuns.LogSnoc(t, t', owed[0]); } else { assert t'.logs == t.logs; }
  }

  /**
   * On MySQL too, in every run, the log holds what the operations owe it, field by field, and its
   * non-delete entries are the version entries, one for one and in order.
   */
  lemma {:induction false} MysqlLogMatchesVersions(namespaces: set<string>, ops: seq<Op>)
    ensures var t := MysqlRun(EMPTY, namespaces, ops);
            t.logs == MysqlLedger(namespaces, ops) && StoreRuns.Matched(StoreRuns.Changes(t), t.versions)
  {
    if ops != [] {
      var m := |ops| - 1;
      MysqlLogMatchesVersions(namespaces, ops[..m]);
      MysqlStepOwes(MysqlRun(EMPTY, namespaces, ops[..m]), namespaces, ops[m]);
      MysqlStepMatched(MysqlRun(EMPTY, namespaces, ops[..m]), namespaces, ops[m]);
    }
  }

  // What a MySQL publish that reports success stored.

  /** Foreign keys: in every run each row's namespace exists. */
  lemma {:induction false} RowsHaveNamespaces(namespaces: set<string>, ops: seq<Op>, k: RowKey)
    ensures k in MysqlRun(EMPTY, namespaces, ops).configs ==> k.ns in namespaces
  {
    if ops != [] {
      RowsHaveNamespaces(namespaces, ops[..|ops| - 1], k);
    }
  }

  /**
   * After every run a publish whose update succeeds stores nothing, though it reports success, if
   * and only if the namespace does not exist; otherwise both tables move.
   */
  lemma PublishStoresIffNamespaceExists(
    namespaces: set<string>, ops: seq<Op>, ns: string, note: string, operator: string, ts: string)
    ensures var t := MysqlRun(EMPTY, namespaces, ops);
            var (t', ok) := MysqlStep(t, namespaces, Plain(StoreRuns.Publish(ns, note, operator, ts, false), ts));
            && ok
            && (t' == t <==> ns !in namespaces)
            && (ns in namespaces ==>
                  && t'.releases == t.releases + [Release(|t.releases| + 1, ns, NextVersion(t.releases, ns), note,
                                                          "full", "active", None, None, operator, ts)]
                  && forall k :: k in t'.configs && k.ns == ns ==> t'.configs[k].status == "live")
  {
    var t := MysqlRun(EMPTY, namespaces, ops);
    if ns !in namespaces {
      forall k | k in t.configs ensures k.ns != ns { RowsHaveNamespaces(namespaces, ops, k); }
      assert AllLive(t.configs, ns) == t.configs;
    }
  }

  /**
   * Whatever the update, whose failure is ignored, does: after every run a publish that reports success
   * is stored whole or not at all if and only if the update succeeds, the namespace does not exist, or
   * no row of it was waiting to be made live.
   */
  lemma PublishWholeIff(
    namespaces: set<string>, ops: seq<Op>, ns: string, note: string, operator: string, ts: string, marked: bool)
    ensures var t := MysqlRun(EMPTY, namespaces, ops);
            var t' := MysqlPublished(t, ns, note, operator, ts, marked, ns in namespaces);
            (t' == t || t' == MysqlPublished(t, ns, note, operator, ts, true, true)) <==>
            || marked || ns !in namespaces
            || forall k :: k in t.configs && k.ns == ns ==> t.configs[k].status == "live"
  {
    var t := MysqlRun(EMPTY, namespaces, ops);
    if ns !in namespaces {
      forall k | k in t.configs ensures k.ns != ns { RowsHaveNamespaces(namespaces, ops, k); }
      assert AllLive(t.configs, ns) == t.configs;
    } else if !marked {
      AllLiveIff(t.configs, ns);
    }
  }

  lemma AllLiveIff(configs: map<RowKey, Row>, ns: string)
    ensures AllLive(configs, ns) == configs <==>
            forall k :: k in configs && k.ns == ns ==> configs[k].status == "live"
  {
    if AllLive(configs, ns) == configs {
      forall k | k in configs && k.ns == ns ensures configs[k].status == "live" {
        assert AllLive(configs, ns)[k] == configs[k];
      }
    }
  }

  /**
   * A failed update is ignored too: after one create, a publish whose update fails reports success,
   * adds a release and leaves the draft a draft, so no reader sees what the release claims.
   */
  lemma IgnoredUpdateSplitsPublish(k: RowKey, value: string, ts: string)
    ensures var ops := [Plain(StoreRuns.Create(k, value, "o", ts), ts)];
            var t := MysqlRun(EMPTY, {k.ns}, ops);
            var t' := MysqlPublished(t, k.ns, "", "o", ts, false, true);
            && |t'.releases| == 1
            && k in t'.configs && Lookup(t', k, false) == None
            && Lookup(MysqlPublished(t, k.ns, "", "o", ts, true, true), k, false).Some?
  {
    var ops := [Plain(StoreRuns.Create(k, value, "o", ts), ts)];
    assert ops[..0] == [] && MysqlRun(EMPTY, {k.ns}, ops[..0]) == EMPTY;
    assert MysqlRun(EMPTY, {k.ns}, ops) == MysqlCreated(EMPTY, {k.ns}, k, value, "o", ts);
  }
}
